/** How clusters of PEs merge: the coupling rounds of `update_coupled_values`
    (src/hoover.cpp), with no PE terminating.

    Each PE acts on its own; messages are delivered in any order. The exchange
    of coupled values behind a round only adds waiting and is not modelled. The
    three messages of a hand-over count as one, as do the two of a finalised set. */
module Coupling {

  // ----- states -----

  datatype Phase =
    | Compute                                        // between two rounds
    | Collect(received: set<nat>)                    // root: hearing what its PEs want
    | Seek                                           // root: top of the loop
    | WaitAck(target: nat, expected: nat)            // root: `wait_for_coupling_ack`
    | Win(other: nat, asking: bool)                  // root: waits for the other root's sets
    | Check                                          // root: `check_incoming_coupling_requests`
    | Share(todo: set<nat>)                          // root: sending the final set
    | WaitInfo                                       // `wait_for_full_coupling_info`

  datatype Pe = Pe(root: nat, coupled: set<nat>, prev: set<nat>, want: set<nat>, phase: Phase)

  datatype Request = Request(from: nat, to: nat)
  datatype Ack = Ack(from: nat, to: nat, root: nat, abort: bool)
  datatype Info = Info(from: nat, to: nat, coupled: set<nat>, want: set<nat>)
  datatype Want = Want(from: nat, to: nat, want: set<nat>)
  datatype Final = Final(from: nat, to: nat, coupled: set<nat>)

  /** The PEs and the messages under way. */
  datatype State = State(pes: seq<Pe>, requests: set<Request>, acks: set<Ack>, infos: set<Info>,
                         wants: set<Want>, finals: set<Final>)

  // ----- steps -----

  datatype Action =
    | Ask(p: nat, q: nat)
    | Start(p: nat)
    | TakeWant(p: nat, want: Want)
    | BeginSeek(p: nat)
    | SendRequest(p: nat, target: nat)
    | NoTarget(p: nat)
    | RefuseRequest(p: nat, from: nat)
    | TakeAck(p: nat, ack: Ack)
    | TakeInfo(p: nat, info: Info)
    | CheckNone(p: nat)
    | TakeRequest(p: nat, from: nat)
    | Tell(p: nat, q: nat)
    | Adopt(p: nat, final: Final)
    | Forward(p: nat, from: nat)

  predicate Enabled(s: State, a: Action) {
    a.p < |s.pes| &&
    var pe := s.pes[a.p];
    match a
    case Ask(p, q) => pe.phase.Compute? && q < |s.pes|
    case Start(p) => pe.phase.Compute?
    case TakeWant(p, want) => pe.phase.Collect? && pe.phase.received != pe.prev && want in s.wants && want.to == p
    case BeginSeek(p) => pe.phase.Collect? && pe.phase.received == pe.prev
    case SendRequest(p, target) => pe.phase.Seek? && target in pe.want && target !in pe.coupled
    case NoTarget(p) => pe.phase.Seek? && pe.want <= pe.coupled
    case RefuseRequest(p, from) => pe.phase.WaitAck? && Request(from, p) in s.requests
    case TakeAck(p, ack) => pe.phase.WaitAck? && ack in s.acks && ack.to == p
    case TakeInfo(p, info) => pe.phase.Win? && info in s.infos && info.to == p
    case CheckNone(p) => pe.phase.Check?
    case TakeRequest(p, from) => pe.phase.Check? && Request(from, p) in s.requests
    case Tell(p, q) => pe.phase.Share? && q in pe.phase.todo
    case Adopt(p, final) => pe.phase.WaitInfo? && final in s.finals && final.to == p
    case Forward(p, from) => pe.phase.WaitInfo? && pe.root != p && Request(from, p) in s.requests
  }

  /** The test at the end of the loop: share the set once all wanted PEs are in it. */
  function LoopEnd(pe: Pe): Pe {
    pe.(phase := if pe.want <= pe.coupled then Share(pe.coupled) else Seek)
  }

  /** `negotiate_new_root`, on the side that loses: the sets go to the winner. */
  function HandOver(pe: Pe, winner: nat): Pe {
    pe.(root := winner, phase := WaitInfo)
  }

  /** `negotiate_new_root`: the lower of the two roots stays root. */
  function Winner(p: nat, other: nat): nat {
    if p < other then p else other
  }

  /** An answer that makes the asking root hand over its sets. */
  predicate Yields(p: nat, ack: Ack) {
    !ack.abort && ack.root == ack.from && Winner(p, ack.root) != p
  }

  function Step(s: State, a: Action): State
    requires Enabled(s, a)
  {
    var p := a.p;
    var pe := s.pes[p];
    match a
    case Ask(_, q) => s.(pes := s.pes[p := pe.(coupled := pe.coupled + {q})])
    case Start(_) =>
      var want := pe.coupled - pe.prev;
      s.(pes := s.pes[p := if pe.root == p then pe.(want := {}, phase := Collect({})) else pe.(want := want, phase := WaitInfo)],
         wants := s.wants + {Want(p, pe.root, want)})
    case TakeWant(_, want) =>
      s.(pes := s.pes[p := pe.(want := pe.want + want.want, phase := Collect(pe.phase.received + {want.from}))],
         wants := s.wants - {want})
    case BeginSeek(_) => s.(pes := s.pes[p := pe.(coupled := pe.prev, phase := Seek)])
    case SendRequest(_, target) =>
      s.(pes := s.pes[p := pe.(phase := WaitAck(target, target))], requests := s.requests + {Request(p, target)})
    case NoTarget(_) => s.(pes := s.pes[p := pe.(phase := Check)])
    case RefuseRequest(_, from) =>
      s.(requests := s.requests - {Request(from, p)}, acks := s.acks + {Ack(p, from, pe.root, true)})
    case TakeAck(_, ack) =>
      var s := s.(acks := s.acks - {ack});
      if ack.abort then
        s.(pes := s.pes[p := pe.(want := pe.want - {pe.phase.target} + {ack.root}, phase := Check)])
      else if ack.root != ack.from then
        s.(pes := s.pes[p := pe.(phase := WaitAck(pe.phase.target, ack.root))],
           requests := s.requests + {Request(p, ack.root)})
      else if Winner(p, ack.root) == p then
        s.(pes := s.pes[p := pe.(phase := Win(ack.root, true))])
      else
        s.(pes := s.pes[p := HandOver(pe, ack.root)], infos := s.infos + {Info(p, ack.root, pe.coupled, pe.want)})
    case TakeInfo(_, info) =>
      var pe' := pe.(coupled := pe.coupled + info.coupled, want := pe.want + info.want);
      s.(pes := s.pes[p := if pe.phase.asking then pe'.(phase := Check) else LoopEnd(pe')], infos := s.infos - {info})
    case CheckNone(_) => s.(pes := s.pes[p := LoopEnd(pe)])
    case TakeRequest(_, from) =>
      var s := s.(requests := s.requests - {Request(from, p)}, acks := s.acks + {Ack(p, from, pe.root, false)});
      if Winner(p, from) == p then
        s.(pes := s.pes[p := pe.(phase := Win(from, false))])
      else
        s.(pes := s.pes[p := HandOver(pe, from)], infos := s.infos + {Info(p, from, pe.coupled, pe.want)})
    case Tell(_, q) =>
      var todo := pe.phase.todo - {q};
      s.(pes := s.pes[p := pe.(phase := if todo == {} then WaitInfo else Share(todo))],
         finals := s.finals + {Final(p, q, pe.coupled)})
    case Adopt(_, final) =>
      s.(pes := s.pes[p := pe.(root := final.from, coupled := final.coupled, prev := final.coupled, phase := Compute)],
         finals := s.finals - {final})
    case Forward(_, from) =>
      s.(requests := s.requests - {Request(from, p)}, acks := s.acks + {Ack(p, from, pe.root, false)})
  }

  // ----- what history adds -----

  /** How far a PE's wishes of this round are. */
  datatype Mode =
    | Free                                  // none stated
    | Sent                                  // on their way to the root
    | Heard                                 // part of a root's business
    | Told(teller: nat, coupled: set<nat>)  // answered; the final set is on its way

  /** `owner[e]` is the root whose cluster `e` is in, counting the sets handed
      over but not yet taken; `asked[e]` is what `e` asked for in its round. */
  datatype Log = Log(owner: seq<nat>, mode: seq<Mode>, asked: seq<set<nat>>)

  function Merge(owner: seq<nat>, loser: nat, winner: nat): (r: seq<nat>)
    ensures |r| == |owner|
    ensures forall e :: 0 <= e < |r| ==> r[e] == if owner[e] == loser then winner else owner[e]
  {
    seq(|owner|, e requires 0 <= e < |owner| => if owner[e] == loser then winner else owner[e])
  }

  predicate Sized(s: State, g: Log) {
    |g.owner| == |s.pes| && |g.mode| == |s.pes| && |g.asked| == |s.pes|
  }

  function Note(s: State, g: Log, a: Action): Log
    requires Sized(s, g) && Enabled(s, a)
  {
    var p := a.p;
    var pe := s.pes[p];
    match a
    case Start(_) => g.(mode := g.mode[p := Sent], asked := g.asked[p := pe.coupled - pe.prev])
    case TakeWant(_, want) => if want.from < |g.mode| then g.(mode := g.mode[want.from := Heard]) else g
    case TakeAck(_, ack) =>
      if Yields(p, ack) then g.(owner := Merge(g.owner, p, ack.root)) else g
    case TakeRequest(_, from) =>
      if Winner(p, from) != p then g.(owner := Merge(g.owner, p, from)) else g
    case Tell(_, q) => if q < |g.mode| then g.(mode := g.mode[q := Told(p, pe.coupled)]) else g
    case Adopt(_, _) => g.(mode := g.mode[p := Free])
    case _ => g
  }

  // ----- invariant -----

  predicate Active(pes: seq<Pe>, r: nat) {
    r < |pes| && pes[r].root == r
  }

  /** The set a root answers for: its own word of the last round, or its work in this one. */
  function Own(pe: Pe): set<nat> {
    if pe.phase.Compute? || pe.phase.Collect? then pe.prev else pe.coupled
  }

  /** Two PEs are in one cluster. */
  predicate Together(owner: seq<nat>, a: nat, b: nat) {
    a < |owner| && b < |owner| && owner[a] == owner[b]
  }

  predicate AllTogether(owner: seq<nat>, a: nat, s: set<nat>) {
    forall b :: b in s ==> Together(owner, a, b)
  }

  /** Owners are roots, none higher than what it owns; a PE's idea of its root is in its cluster. */
  predicate OwnedAt(pes: seq<Pe>, owner: seq<nat>, e: nat)
    requires e < |pes| == |owner|
  {
    && owner[e] <= e && Active(pes, owner[e]) && owner[owner[e]] == owner[e]
    && (pes[e].root == e ==> owner[e] == e)
    && pes[e].root <= e && Together(owner, e, pes[e].root) && AllTogether(owner, e, pes[e].prev)
  }

  /** A root's own set is its cluster, but for a set on its way to it. */
  predicate HeldAt(pes: seq<Pe>, infos: set<Info>, owner: seq<nat>, e: nat)
    requires e < |pes| == |owner|
  {
    owner[e] < |pes| && (e in Own(pes[owner[e]]) || exists i :: i in infos && i.to == owner[e] && e in i.coupled)
  }

  predicate OwnAt(pes: seq<Pe>, owner: seq<nat>, r: nat)
    requires r < |pes| == |owner|
  {
    pes[r].root == r ==> r in Own(pes[r]) && forall e :: e in Own(pes[r]) ==> e < |owner| && owner[e] == r
  }

  /** Whether a root in this phase has `e`'s wishes on its hands. */
  predicate Hears(phase: Phase, e: nat) {
    match phase
    case Compute => false
    case Collect(received) => e in received
    case Share(todo) => e in todo
    case WaitInfo => false
    case _ => true
  }

  predicate ModeAt(pes: seq<Pe>, g: Log, e: nat)
    requires e < |pes| == |g.owner| == |g.mode| == |g.asked| && g.owner[e] < |pes|
  {
    var pe, m, r := pes[e], g.mode[e], g.owner[e];
    && (pe.phase.Compute? <==> m.Free?)
    && (pe.root != e ==> pe.phase.Compute? || pe.phase.WaitInfo?)
    && (pe.root == e ==>
          && (pe.phase.Collect? ==> !m.Told?)
          && (pe.phase.Share? ==> !m.Sent? && pe.phase.todo <= pe.coupled && pe.want <= pe.coupled)
          && (pe.phase.WaitInfo? ==> m.Told?))
    && (m.Heard? <==> Hears(pes[r].phase, e))
    && (m.Free? || m.Sent? || (m.Heard? && pes[r].phase.Collect?) ==> pe.root == r && pe.prev == Own(pes[r]))
    && (m.Told? ==> m.teller == r && m.coupled == Own(pes[r]) && g.asked[e] <= m.coupled && pe.prev <= m.coupled)
  }

  predicate Within(x: set<nat>, n: nat) {
    forall e <- x :: e < n
  }

  predicate RangeAt(pes: seq<Pe>, asked: seq<set<nat>>, p: nat)
    requires p < |pes| == |asked|
  {
    Within(pes[p].coupled, |pes|) && Within(pes[p].want, |pes|) && Within(pes[p].prev, |pes|) && Within(asked[p], |pes|)
  }

  // ----- the messages -----

  predicate WaitsFor(pes: seq<Pe>, p: nat, x: nat) {
    p < |pes| && pes[p].phase.WaitAck? && pes[p].phase.expected == x
  }

  predicate RequestOk(pes: seq<Pe>, q: Request) {
    q.to < |pes| && q.from != q.to && WaitsFor(pes, q.from, q.to)
  }

  ghost predicate Requests(s: State) {
    forall q {:trigger RequestOk(s.pes, q)} :: q in s.requests ==> RequestOk(s.pes, q)
  }

  /** An answer from the other root: either it waits for our sets, or it has sent its own. */
  predicate Agreed(pes: seq<Pe>, infos: set<Info>, from: nat, to: nat)
    requires from < |pes|
  {
    if from < to then pes[from].phase == Win(to, false)
    else exists i :: i in infos && i.from == from && i.to == to
  }

  predicate AckOk(s: State, owner: seq<nat>, a: Ack)
    requires |owner| == |s.pes|
  {
    && a.from < |s.pes| && a.from != a.to && WaitsFor(s.pes, a.to, a.from)
    && Request(a.to, a.from) !in s.requests
    && Together(owner, a.from, a.root)
    && (a.abort ==> a.root == a.from)
    && (a.root != a.from ==> a.root < a.from)
    && (!a.abort && a.root == a.from ==> Agreed(s.pes, s.infos, a.from, a.to))
  }

  ghost predicate Acks(s: State, owner: seq<nat>) {
    && |owner| == |s.pes|
    && (forall a {:trigger AckOk(s, owner, a)} :: a in s.acks ==> AckOk(s, owner, a))
    && (forall a, b :: a in s.acks && b in s.acks && a.to == b.to ==> a == b)
  }

  predicate InfoOk(s: State, owner: seq<nat>, i: Info)
    requires |owner| == |s.pes|
  {
    && i.to < i.from < |s.pes| && s.pes[i.from].root == i.to && Active(s.pes, i.to)
    && i.from in i.coupled && Within(i.want, |s.pes|)
    && (forall e <- i.coupled :: i.from <= e < |owner| && owner[e] == i.to && e !in s.pes[i.to].coupled)
    && (|| (s.pes[i.to].phase.Win? && s.pes[i.to].phase.other == i.from)
        || (WaitsFor(s.pes, i.to, i.from) && Ack(i.from, i.to, i.from, false) in s.acks))
  }

  ghost predicate Infos(s: State, owner: seq<nat>) {
    && |owner| == |s.pes|
    && forall i {:trigger InfoOk(s, owner, i)} :: i in s.infos ==> InfoOk(s, owner, i)
  }

  predicate OneInfoEach(infos: set<Info>) {
    forall i, j :: i in infos && j in infos && i.to == j.to ==> i == j
  }

  ghost predicate Wants(s: State, g: Log) {
    forall w :: w in s.wants ==>
      && w.from < |g.mode| == |g.owner| == |g.asked|
      && g.mode[w.from] == Sent && w.to == g.owner[w.from] && w.want == g.asked[w.from]
  }

  ghost predicate Finals(s: State, g: Log) {
    && (forall f :: f in s.finals ==> f.to < |g.mode| && g.mode[f.to] == Told(f.from, f.coupled))
    && (forall e {:trigger ToldAt(s, g, e)} :: 0 <= e < |g.mode| ==> ToldAt(s, g, e))
  }

  /** The set a PE has been told is on its way to it. */
  predicate ToldAt(s: State, g: Log, e: nat)
    requires e < |g.mode|
  {
    g.mode[e].Told? ==> Final(g.mode[e].teller, e, g.mode[e].coupled) in s.finals
  }

  /** Whom a waiting root is after is not in its cluster, and the PE it was sent on to is in the same other one. */
  predicate TargetAt(pes: seq<Pe>, owner: seq<nat>, p: nat)
    requires p < |pes| == |owner|
  {
    var ph := pes[p].phase;
    ph.WaitAck? ==>
      && ph.target in pes[p].want && ph.target !in pes[p].coupled
      && Together(owner, ph.target, ph.expected) && ph.expected != p
  }

  // ----- wishes -----

  /** `t` will be in the cluster of `r` when all that `r` wants is. */
  predicate Covered(s: State, owner: seq<nat>, r: nat, t: nat) {
    && r < |s.pes| && t < |owner|
    && (|| owner[t] == r
        || (exists x :: x in s.pes[r].want && Together(owner, x, t))
        || exists i, x :: i in s.infos && i.to == r && x in i.want && Together(owner, x, t))
  }

  predicate CoverAt(s: State, g: Log, e: nat)
    requires e < |g.owner| == |g.mode| == |g.asked|
  {
    g.mode[e].Heard? ==> forall t :: t in g.asked[e] ==> Covered(s, g.owner, g.owner[e], t)
  }

  ghost predicate Covers(s: State, g: Log) {
    && |g.owner| == |g.mode| == |g.asked|
    && forall e {:trigger CoverAt(s, g, e)} :: 0 <= e < |g.owner| ==> CoverAt(s, g, e)
  }

  /** What holds at one PE. */
  predicate AtPe(s: State, g: Log, e: nat)
    requires Sized(s, g) && e < |s.pes|
  {
    && g.owner[e] < |s.pes|
    && OwnedAt(s.pes, g.owner, e) && HeldAt(s.pes, s.infos, g.owner, e) && OwnAt(s.pes, g.owner, e)
    && ModeAt(s.pes, g, e) && RangeAt(s.pes, g.asked, e) && TargetAt(s.pes, g.owner, e)
  }

  ghost predicate Pes(s: State, g: Log) {
    Sized(s, g) && forall e {:trigger AtPe(s, g, e)} :: 0 <= e < |s.pes| ==> AtPe(s, g, e)
  }

  ghost predicate Inv(s: State, g: Log) {
    && Pes(s, g)
    && Requests(s) && Acks(s, g.owner) && Infos(s, g.owner) && OneInfoEach(s.infos) && Wants(s, g) && Finals(s, g)
    && Covers(s, g)
  }

  // ----- what a step may use -----

  lemma Facts(s: State, g: Log, e: nat)
    requires Inv(s, g) && e < |s.pes|
    ensures AtPe(s, g, e) && CoverAt(s, g, e)
  {
  }

  /** The other PE of a step. */
  function Partner(a: Action): nat {
    match a
    case TakeWant(_, want) => want.from
    case SendRequest(_, target) => target
    case RefuseRequest(_, from) => from
    case TakeAck(_, ack) => ack.from
    case TakeInfo(_, info) => info.from
    case TakeRequest(_, from) => from
    case Tell(_, q) => q
    case Adopt(_, final) => final.from
    case Forward(_, from) => from
    case _ => a.p
  }

  lemma AtAction(s: State, g: Log, a: Action)
    requires Inv(s, g) && Enabled(s, a)
    ensures Partner(a) < |s.pes| && AtPe(s, g, a.p) && AtPe(s, g, Partner(a))
    ensures a.TakeAck? ==> AckOk(s, g.owner, a.ack) && a.ack.root < |s.pes| && OwnedAt(s.pes, g.owner, a.ack.root)
    ensures a.TakeInfo? ==> InfoOk(s, g.owner, a.info)
    ensures a.TakeRequest? || a.RefuseRequest? || a.Forward? ==> RequestOk(s.pes, Request(a.from, a.p))
  {
    Facts(s, g, a.p);
    match a
    case TakeAck(_, ack) => assert AckOk(s, g.owner, ack); Facts(s, g, ack.root);
    case TakeInfo(_, info) => assert InfoOk(s, g.owner, info);
    case TakeRequest(_, from) => assert RequestOk(s.pes, Request(from, a.p));
    case RefuseRequest(_, from) => assert RequestOk(s.pes, Request(from, a.p));
    case Forward(_, from) => assert RequestOk(s.pes, Request(from, a.p));
    case Adopt(_, final) =>
    case _ =>
    Facts(s, g, Partner(a));
  }

  lemma NoInfoTo(s: State, g: Log, p: nat)
    requires Inv(s, g) && p < |s.pes| && !s.pes[p].phase.Win? && !s.pes[p].phase.WaitAck?
    ensures forall i :: i in s.infos ==> i.to != p
  {
    forall i | i in s.infos ensures i.to != p { assert InfoOk(s, g.owner, i); }
  }

  /** No sets are on their way to a PE about to be refused, sent on, or beaten. */
  lemma NoInfoWith(s: State, g: Log, p: nat, ack: Ack)
    requires Inv(s, g) && p < |s.pes| && s.pes[p].phase.WaitAck? && ack in s.acks && ack.to == p
    requires ack.abort || ack.root != ack.from || ack.root < p
    ensures forall i :: i in s.infos ==> i.to != p
  {
    forall i | i in s.infos ensures i.to != p { assert InfoOk(s, g.owner, i); }
  }

  lemma NoAckTo(s: State, g: Log, q: Request)
    requires Inv(s, g) && q in s.requests
    ensures forall b :: b in s.acks ==> b.to != q.from
  {
    assert RequestOk(s.pes, q);
    forall b | b in s.acks ensures b.to != q.from { assert AckOk(s, g.owner, b); }
  }

  /** With nothing on its way, a root's set is its whole cluster. */
  lemma WholeCluster(s: State, g: Log, p: nat)
    requires Inv(s, g) && Active(s.pes, p) && forall i :: i in s.infos ==> i.to != p
    ensures forall e :: 0 <= e < |s.pes| && g.owner[e] == p ==> e in Own(s.pes[p])
  {
    forall e | 0 <= e < |s.pes| && g.owner[e] == p ensures e in Own(s.pes[p]) {
      assert AtPe(s, g, e);
    }
  }

  /** What the group lemmas may use of the messages around a step. */
  lemma Around(s: State, g: Log, a: Action)
    requires Inv(s, g) && Enabled(s, a)
    ensures Clear(s, a) ==> forall i :: i in s.infos ==> i.to != a.p
    ensures Clear(s, a) && s.pes[a.p].root == a.p ==>
      forall e :: 0 <= e < |s.pes| && g.owner[e] == a.p ==> e in Own(s.pes[a.p])
    ensures a.TakeRequest? || a.RefuseRequest? || a.Forward? ==> forall b :: b in s.acks ==> b.to != a.from
  {
    if a.TakeRequest? || a.RefuseRequest? || a.Forward? { NoAckTo(s, g, Request(a.from, a.p)); }
    if a.TakeAck? && Clear(s, a) { NoInfoWith(s, g, a.p, a.ack); }
    if Clear(s, a) {
      if !a.TakeAck? { NoInfoTo(s, g, a.p); }
      if s.pes[a.p].root == a.p { WholeCluster(s, g, a.p); }
    }
  }

  /** No sets are on their way to the PE of this step. */
  predicate Clear(s: State, a: Action)
    requires a.p < |s.pes|
  {
    if a.TakeAck? then s.pes[a.p].phase.WaitAck? && (a.ack.abort || a.ack.root != a.ack.from || a.ack.root < a.p)
    else !s.pes[a.p].phase.Win? && !s.pes[a.p].phase.WaitAck?
  }

  /** What the proof of a step may use at PE `e`: the PEs and the message of the step, `e` itself and its root. */
  ghost predicate View(s: State, g: Log, a: Action, e: nat) {
    && Sized(s, g) && Enabled(s, a) && e < |s.pes| && Partner(a) < |s.pes|
    && AtPe(s, g, a.p) && AtPe(s, g, Partner(a)) && AtPe(s, g, e) && AtPe(s, g, g.owner[e])
    && (a.TakeAck? ==> AckOk(s, g.owner, a.ack) && a.ack.root < |s.pes| && OwnedAt(s.pes, g.owner, a.ack.root))
    && (a.TakeInfo? ==> InfoOk(s, g.owner, a.info) && forall i :: i in s.infos && i.to == a.p ==> i == a.info)
    && (a.TakeRequest? || a.RefuseRequest? || a.Forward? ==>
          RequestOk(s.pes, Request(a.from, a.p)) && forall b :: b in s.acks ==> b.to != a.from)
    && (Clear(s, a) ==> forall i :: i in s.infos ==> i.to != a.p)
    && (Clear(s, a) && s.pes[a.p].root == a.p ==>
          forall x :: 0 <= x < |s.pes| && g.owner[x] == a.p ==> x in Own(s.pes[a.p]))
    && (a.Tell? ==> CoverAt(s, g, a.q))
    && (a.Adopt? ==> g.mode[a.p] == Told(a.final.from, a.final.coupled))
    && (a.TakeWant? ==> g.mode[a.want.from] == Sent && a.want.to == g.owner[a.want.from] && a.want.want == g.asked[a.want.from])
  }

  lemma Viewed(s: State, g: Log, a: Action, e: nat)
    requires Inv(s, g) && Enabled(s, a) && e < |s.pes|
    ensures View(s, g, a, e)
  {
    AtAction(s, g, a);
    Around(s, g, a);
    Facts(s, g, a.p);
    Facts(s, g, Partner(a));
    Facts(s, g, e);
    Facts(s, g, g.owner[e]);
  }

  // ----- what a step keeps at one PE -----

  /** The steps in which roots answer each other. */
  predicate Negotiates(a: Action) {
    a.TakeAck? || a.TakeRequest?
  }

  /** The steps in which a round starts and wishes are collected. */
  predicate Opens(a: Action) {
    a.Ask? || a.Start? || a.TakeWant?
  }

  /** The steps in which a root turns to its search, or ends it. */
  predicate Closes(a: Action) {
    a.BeginSeek? || a.Tell? || a.Adopt?
  }

  lemma KeepOwnedAnswered(s: State, g: Log, a: Action, s': State, g': Log, e: nat)
    requires View(s, g, a, e) && s' == Step(s, a) && g' == Note(s, g, a) && a.TakeAck?
    ensures Sized(s', g') && OwnedAt(s'.pes, g'.owner, e)
  {
  }

  lemma KeepOwnedAsked(s: State, g: Log, a: Action, s': State, g': Log, e: nat)
    requires View(s, g, a, e) && s' == Step(s, a) && g' == Note(s, g, a) && a.TakeRequest?
    ensures Sized(s', g') && OwnedAt(s'.pes, g'.owner, e)
  {
  }

  lemma KeepOwnedQuiet(s: State, g: Log, a: Action, s': State, g': Log, e: nat)
    requires View(s, g, a, e) && s' == Step(s, a) && g' == Note(s, g, a) && !Negotiates(a)
    ensures Sized(s', g') && OwnedAt(s'.pes, g'.owner, e)
  {
  }

  lemma KeepTargetAnswered(s: State, g: Log, a: Action, s': State, g': Log, e: nat)
    requires View(s, g, a, e) && s' == Step(s, a) && g' == Note(s, g, a) && a.TakeAck?
    ensures Sized(s', g') && TargetAt(s'.pes, g'.owner, e)
  {
  }

  lemma KeepTargetAsked(s: State, g: Log, a: Action, s': State, g': Log, e: nat)
    requires View(s, g, a, e) && s' == Step(s, a) && g' == Note(s, g, a) && a.TakeRequest?
    ensures Sized(s', g') && TargetAt(s'.pes, g'.owner, e)
  {
  }

  lemma KeepTargetQuiet(s: State, g: Log, a: Action, s': State, g': Log, e: nat)
    requires View(s, g, a, e) && s' == Step(s, a) && g' == Note(s, g, a) && !Negotiates(a)
    ensures Sized(s', g') && TargetAt(s'.pes, g'.owner, e)
  {
  }

  lemma KeepRangeNegotiating(s: State, g: Log, a: Action, s': State, g': Log, e: nat)
    requires View(s, g, a, e) && s' == Step(s, a) && g' == Note(s, g, a) && Negotiates(a)
    ensures Sized(s', g') && RangeAt(s'.pes, g'.asked, e)
  {
  }

  lemma KeepRangeQuiet(s: State, g: Log, a: Action, s': State, g': Log, e: nat)
    requires View(s, g, a, e) && s' == Step(s, a) && g' == Note(s, g, a) && !Negotiates(a)
    ensures Sized(s', g') && RangeAt(s'.pes, g'.asked, e)
  {
  }

  lemma KeepHeldNegotiating(s: State, g: Log, a: Action, s': State, g': Log, e: nat)
    requires View(s, g, a, e) && s' == Step(s, a) && g' == Note(s, g, a) && Negotiates(a)
    ensures Sized(s', g') && HeldAt(s'.pes, s'.infos, g'.owner, e)
  {
  }

  lemma KeepHeldQuiet(s: State, g: Log, a: Action, s': State, g': Log, e: nat)
    requires View(s, g, a, e) && s' == Step(s, a) && g' == Note(s, g, a) && !Negotiates(a)
    ensures Sized(s', g') && HeldAt(s'.pes, s'.infos, g'.owner, e)
  {
  }

  lemma KeepOwnNegotiating(s: State, g: Log, a: Action, s': State, g': Log, e: nat)
    requires View(s, g, a, e) && s' == Step(s, a) && g' == Note(s, g, a) && Negotiates(a)
    ensures Sized(s', g') && OwnAt(s'.pes, g'.owner, e)
  {
  }

  lemma KeepOwnQuiet(s: State, g: Log, a: Action, s': State, g': Log, e: nat)
    requires View(s, g, a, e) && s' == Step(s, a) && g' == Note(s, g, a) && !Negotiates(a)
    ensures Sized(s', g') && OwnAt(s'.pes, g'.owner, e)
  {
  }

  lemma KeepModeAnswered(s: State, g: Log, a: Action, s': State, g': Log, e: nat)
    requires View(s, g, a, e) && s' == Step(s, a) && g' == Note(s, g, a) && a.TakeAck?
    ensures Sized(s', g') && g'.owner[e] < |s'.pes| && ModeAt(s'.pes, g', e)
  {
  }

  lemma KeepModeAsked(s: State, g: Log, a: Action, s': State, g': Log, e: nat)
    requires View(s, g, a, e) && s' == Step(s, a) && g' == Note(s, g, a) && a.TakeRequest?
    ensures Sized(s', g') && g'.owner[e] < |s'.pes| && ModeAt(s'.pes, g', e)
  {
  }

  lemma KeepModeOpening(s: State, g: Log, a: Action, s': State, g': Log, e: nat)
    requires View(s, g, a, e) && s' == Step(s, a) && g' == Note(s, g, a) && Opens(a)
    ensures Sized(s', g') && g'.owner[e] < |s'.pes| && ModeAt(s'.pes, g', e)
  {
  }

  lemma KeepModeTelling(s: State, g: Log, a: Action, s': State, g': Log, e: nat)
    requires View(s, g, a, e) && s' == Step(s, a) && g' == Note(s, g, a) && a.Tell?
    ensures Sized(s', g') && g'.owner[e] < |s'.pes| && ModeAt(s'.pes, g', e)
  {
    var todo := s.pes[a.p].phase.todo;
    assert e in todo - {a.q} <==> e in todo && e != a.q;
    assert a.p in todo - {a.q} <==> a.p in todo && a.p != a.q;
  }

  lemma KeepModeClosing(s: State, g: Log, a: Action, s': State, g': Log, e: nat)
    requires View(s, g, a, e) && s' == Step(s, a) && g' == Note(s, g, a) && (a.BeginSeek? || a.Adopt?)
    ensures Sized(s', g') && g'.owner[e] < |s'.pes| && ModeAt(s'.pes, g', e)
  {
    assert a.BeginSeek? && g.owner[e] == a.p ==> e in Own(s.pes[a.p]);
  }

  lemma KeepModeSearching(s: State, g: Log, a: Action, s': State, g': Log, e: nat)
    requires View(s, g, a, e) && s' == Step(s, a) && g' == Note(s, g, a)
    requires !Negotiates(a) && !Opens(a) && !Closes(a)
    ensures Sized(s', g') && g'.owner[e] < |s'.pes| && ModeAt(s'.pes, g', e)
  {
    assert a.CheckNone? && g.owner[e] == a.p ==> e in Own(s.pes[a.p]);
  }

  lemma KeepPeAnswered(s: State, g: Log, a: Action, s': State, g': Log, e: nat)
    requires View(s, g, a, e) && s' == Step(s, a) && g' == Note(s, g, a) && Negotiates(a)
    ensures Sized(s', g') && OwnedAt(s'.pes, g'.owner, e) && TargetAt(s'.pes, g'.owner, e)
    ensures g'.owner[e] < |s'.pes| && ModeAt(s'.pes, g', e)
  {
    if a.TakeAck? {
      KeepOwnedAnswered(s, g, a, s', g', e);
      KeepTargetAnswered(s, g, a, s', g', e);
      KeepModeAnswered(s, g, a, s', g', e);
    } else {
      KeepOwnedAsked(s, g, a, s', g', e);
      KeepTargetAsked(s, g, a, s', g', e);
      KeepModeAsked(s, g, a, s', g', e);
    }
  }

  lemma KeepModeQuiet(s: State, g: Log, a: Action, s': State, g': Log, e: nat)
    requires View(s, g, a, e) && s' == Step(s, a) && g' == Note(s, g, a) && !Negotiates(a)
    ensures Sized(s', g') && g'.owner[e] < |s'.pes| && ModeAt(s'.pes, g', e)
  {
    if Opens(a) {
      KeepModeOpening(s, g, a, s', g', e);
    } else if a.Tell? {
      KeepModeTelling(s, g, a, s', g', e);
    } else if Closes(a) {
      KeepModeClosing(s, g, a, s', g', e);
    } else {
      KeepModeSearching(s, g, a, s', g', e);
    }
  }

  /** A step keeps what holds at each PE. */
  lemma KeepPe(s: State, g: Log, a: Action, s': State, g': Log, e: nat)
    requires View(s, g, a, e) && s' == Step(s, a) && g' == Note(s, g, a)
    ensures Sized(s', g') && e < |s'.pes| && AtPe(s', g', e)
  {
    if Negotiates(a) {
      KeepPeAnswered(s, g, a, s', g', e);
      KeepRangeNegotiating(s, g, a, s', g', e);
      KeepHeldNegotiating(s, g, a, s', g', e);
      KeepOwnNegotiating(s, g, a, s', g', e);
    } else {
      KeepOwnedQuiet(s, g, a, s', g', e);
      KeepTargetQuiet(s, g, a, s', g', e);
      KeepModeQuiet(s, g, a, s', g', e);
      KeepRangeQuiet(s, g, a, s', g', e);
      KeepHeldQuiet(s, g, a, s', g', e);
      KeepOwnQuiet(s, g, a, s', g', e);
    }
  }

  lemma KeepPes(s: State, g: Log, a: Action, s': State, g': Log)
    requires Inv(s, g) && Enabled(s, a) && s' == Step(s, a) && g' == Note(s, g, a)
    ensures Pes(s', g')
  {
    forall e | 0 <= e < |s.pes| ensures Sized(s', g') && e < |s'.pes| && AtPe(s', g', e) {
      Viewed(s, g, a, e);
      KeepPe(s, g, a, s', g', e);
    }
    Viewed(s, g, a, a.p);
    KeepPe(s, g, a, s', g', a.p);
  }

  // ----- what a step keeps of the messages -----

  lemma KeepRequests(s: State, g: Log, a: Action, s': State, g': Log)
    requires Inv(s, g) && Enabled(s, a) && s' == Step(s, a) && g' == Note(s, g, a)
    ensures Sized(s', g') && Requests(s')
  {
    AtAction(s, g, a);
    Around(s, g, a);
    forall q | q in s'.requests ensures RequestOk(s'.pes, q) {
      if q in s.requests { assert RequestOk(s.pes, q); }
    }
  }

  lemma KeepAcksAnswered(s: State, g: Log, a: Action, s': State, g': Log)
    requires Inv(s, g) && Enabled(s, a) && s' == Step(s, a) && g' == Note(s, g, a) && (a.TakeAck?)
    ensures Sized(s', g') && Acks(s', g'.owner)
  {
    AtAction(s, g, a);
    Around(s, g, a);
    forall q | q in s'.acks ensures AckOk(s', g'.owner, q) {
      if q in s.acks { assert AckOk(s, g.owner, q); }
    }
  }

  lemma KeepAcksAsked(s: State, g: Log, a: Action, s': State, g': Log)
    requires Inv(s, g) && Enabled(s, a) && s' == Step(s, a) && g' == Note(s, g, a) && (a.TakeRequest?)
    ensures Sized(s', g') && Acks(s', g'.owner)
  {
    AtAction(s, g, a);
    Around(s, g, a);
    forall q | q in s'.acks ensures AckOk(s', g'.owner, q) {
      if q in s.acks { assert AckOk(s, g.owner, q); }
    }
  }

  lemma KeepAcksRound(s: State, g: Log, a: Action, s': State, g': Log)
    requires Inv(s, g) && Enabled(s, a) && s' == Step(s, a) && g' == Note(s, g, a) && (Opens(a) || Closes(a))
    ensures Sized(s', g') && Acks(s', g'.owner)
  {
    AtAction(s, g, a);
    Around(s, g, a);
    forall q | q in s'.acks ensures AckOk(s', g'.owner, q) {
      if q in s.acks { assert AckOk(s, g.owner, q); }
    }
  }

  lemma KeepAcksSearching(s: State, g: Log, a: Action, s': State, g': Log)
    requires Inv(s, g) && Enabled(s, a) && s' == Step(s, a) && g' == Note(s, g, a) && (!Negotiates(a) && !Opens(a) && !Closes(a))
    ensures Sized(s', g') && Acks(s', g'.owner)
  {
    AtAction(s, g, a);
    Around(s, g, a);
    forall q | q in s'.acks ensures AckOk(s', g'.owner, q) {
      if q in s.acks { assert AckOk(s, g.owner, q); }
    }
  }

  lemma KeepInfosAnswered(s: State, g: Log, a: Action, s': State, g': Log)
    requires Inv(s, g) && Enabled(s, a) && s' == Step(s, a) && g' == Note(s, g, a) && (a.TakeAck?)
    ensures Sized(s', g') && Infos(s', g'.owner)
  {
    AtAction(s, g, a);
    Around(s, g, a);
    forall i | i in s.infos ensures InfoOk(s, g.owner, i) {
    }
    forall i | i in s'.infos ensures InfoOk(s', g'.owner, i) {
      if i in s.infos {
        assert InfoOk(s, g.owner, i);
      } else {
        forall e <- i.coupled ensures i.from <= e { assert AtPe(s, g, e); }
      }
    }
  }

  lemma KeepInfosAsked(s: State, g: Log, a: Action, s': State, g': Log)
    requires Inv(s, g) && Enabled(s, a) && s' == Step(s, a) && g' == Note(s, g, a) && (a.TakeRequest?)
    ensures Sized(s', g') && Infos(s', g'.owner)
  {
    AtAction(s, g, a);
    Around(s, g, a);
    forall i | i in s.infos ensures InfoOk(s, g.owner, i) {
    }
    forall i | i in s'.infos ensures InfoOk(s', g'.owner, i) {
      if i in s.infos {
        assert InfoOk(s, g.owner, i);
      } else {
        forall e <- i.coupled ensures i.from <= e { assert AtPe(s, g, e); }
      }
    }
  }

  lemma KeepInfosRound(s: State, g: Log, a: Action, s': State, g': Log)
    requires Inv(s, g) && Enabled(s, a) && s' == Step(s, a) && g' == Note(s, g, a) && (Opens(a) || Closes(a))
    ensures Sized(s', g') && Infos(s', g'.owner)
  {
    AtAction(s, g, a);
    Around(s, g, a);
    forall i | i in s'.infos ensures InfoOk(s', g'.owner, i) {
      assert InfoOk(s, g.owner, i);
    }
  }

  lemma KeepInfosSearching(s: State, g: Log, a: Action, s': State, g': Log)
    requires Inv(s, g) && Enabled(s, a) && s' == Step(s, a) && g' == Note(s, g, a) && (!Negotiates(a) && !Opens(a) && !Closes(a))
    ensures Sized(s', g') && Infos(s', g'.owner)
  {
    AtAction(s, g, a);
    Around(s, g, a);
    forall i | i in s'.infos ensures InfoOk(s', g'.owner, i) {
      assert InfoOk(s, g.owner, i);
    }
  }

  lemma KeepOneInfoEachNegotiating(s: State, g: Log, a: Action, s': State, g': Log)
    requires Inv(s, g) && Enabled(s, a) && s' == Step(s, a) && g' == Note(s, g, a) && (Negotiates(a))
    ensures Sized(s', g') && OneInfoEach(s'.infos)
  {
    AtAction(s, g, a);
    Around(s, g, a);
    forall i | i in s.infos ensures InfoOk(s, g.owner, i) {
    }
  }

  lemma KeepOneInfoEachOther(s: State, g: Log, a: Action, s': State, g': Log)
    requires Inv(s, g) && Enabled(s, a) && s' == Step(s, a) && g' == Note(s, g, a) && (!Negotiates(a))
    ensures Sized(s', g') && OneInfoEach(s'.infos)
  {
    AtAction(s, g, a);
    Around(s, g, a);
    forall i | i in s.infos ensures InfoOk(s, g.owner, i) {
    }
  }

  lemma KeepWantsNegotiating(s: State, g: Log, a: Action, s': State, g': Log)
    requires Inv(s, g) && Enabled(s, a) && s' == Step(s, a) && g' == Note(s, g, a) && (Negotiates(a))
    ensures Sized(s', g') && Wants(s', g')
  {
    AtAction(s, g, a);
    Around(s, g, a);
    forall w | w in s.wants && w.from < |s.pes| ensures g.owner[w.from] < |s.pes| && ModeAt(s.pes, g, w.from) {
      Facts(s, g, w.from);
    }
  }

  lemma KeepWantsOther(s: State, g: Log, a: Action, s': State, g': Log)
    requires Inv(s, g) && Enabled(s, a) && s' == Step(s, a) && g' == Note(s, g, a) && (!Negotiates(a))
    ensures Sized(s', g') && Wants(s', g')
  {
    AtAction(s, g, a);
    Around(s, g, a);
    forall w | w in s.wants && w.from < |s.pes| ensures g.owner[w.from] < |s.pes| && ModeAt(s.pes, g, w.from) {
      Facts(s, g, w.from);
    }
  }

  lemma KeepFinals(s: State, g: Log, a: Action, s': State, g': Log)
    requires Inv(s, g) && Enabled(s, a) && s' == Step(s, a) && g' == Note(s, g, a)
    ensures Sized(s', g') && Finals(s', g')
  {
    AtAction(s, g, a);
    forall e | 0 <= e < |s.pes| ensures ToldAt(s', g', e) {
      assert ToldAt(s, g, e);
    }
  }

  lemma KeepWanted(s: State, g: Log, a: Action, s': State, g': Log, r: nat, r': nat, x: nat, t: nat)
    requires Inv(s, g) && Enabled(s, a) && s' == Step(s, a) && g' == Note(s, g, a)
    requires r < |s.pes| && x in s.pes[r].want && Together(g.owner, x, t)
    requires Active(s.pes, r) && r' == (if Active(s'.pes, r) then r else s'.pes[r].root) && !s.pes[r].phase.Compute?
    ensures Covered(s', g'.owner, r', t)
  {
    AtAction(s, g, a);
    assert Together(g'.owner, x, t);
    var p, pe := a.p, s.pes[a.p];
    if r == p {
      if a.TakeAck? { assert Together(g'.owner, a.ack.root, t) || x != pe.phase.target; }
      if r' != r { assert Info(p, r', pe.coupled, pe.want) in s'.infos; }
    }
  }

  lemma KeepSentWant(s: State, g: Log, a: Action, s': State, g': Log, i: Info, x: nat, t: nat)
    requires Inv(s, g) && Enabled(s, a) && s' == Step(s, a) && g' == Note(s, g, a)
    requires i in s.infos && x in i.want && Together(g.owner, x, t)
    ensures Covered(s', g'.owner, i.to, t)
  {
    AtAction(s, g, a);
    assert Together(g'.owner, x, t) && InfoOk(s, g.owner, i);
    if a.TakeInfo? && i == a.info { assert x in s'.pes[a.p].want; } else { assert i in s'.infos; }
  }

  /** A cluster moves only with its root's hand-over, and then all of it. */
  lemma KeepHome(s: State, g: Log, a: Action, s': State, g': Log, e: nat)
    requires Inv(s, g) && Enabled(s, a) && s' == Step(s, a) && g' == Note(s, g, a)
    requires e < |s.pes| && g.mode[e].Heard?
    ensures Sized(s', g') && g.owner[e] < |s.pes| && Active(s.pes, g.owner[e]) && !s.pes[g.owner[e]].phase.Compute?
    ensures g'.owner[e] == if Active(s'.pes, g.owner[e]) then g.owner[e] else s'.pes[g.owner[e]].root
  {
    AtAction(s, g, a);
    Facts(s, g, e);
    Facts(s, g, g.owner[e]);
  }

  lemma KeepTogether(s: State, g: Log, a: Action, x: nat, t: nat)
    requires Inv(s, g) && Enabled(s, a) && Together(g.owner, x, t)
    ensures Together(Note(s, g, a).owner, x, t)
  {
  }

  /** Whatever is covered stays covered. */
  lemma KeepCovered(s: State, g: Log, a: Action, s': State, g': Log, e: nat, t: nat)
    requires Inv(s, g) && Enabled(s, a) && s' == Step(s, a) && g' == Note(s, g, a)
    requires e < |s.pes| && g.mode[e].Heard? && Covered(s, g.owner, g.owner[e], t)
    ensures e < |g'.owner| && Covered(s', g'.owner, g'.owner[e], t)
  {
    KeepHome(s, g, a, s', g', e);
    var r := g.owner[e];
    if g.owner[t] == r {
      KeepTogether(s, g, a, e, t);
    } else {
      if x :| x in s.pes[r].want && Together(g.owner, x, t) {
        KeepWanted(s, g, a, s', g', r, g'.owner[e], x, t);
      } else {
        var i, x :| i in s.infos && i.to == r && x in i.want && Together(g.owner, x, t);
        assert InfoOk(s, g.owner, i);
        KeepSentWant(s, g, a, s', g', i, x, t);
      }
    }
  }

  lemma KeepCovers(s: State, g: Log, a: Action, s': State, g': Log)
    requires Inv(s, g) && Enabled(s, a) && s' == Step(s, a) && g' == Note(s, g, a)
    ensures Sized(s', g') && Covers(s', g')
  {
    AtAction(s, g, a);
    forall e {:trigger CoverAt(s', g', e)} | 0 <= e < |s.pes| ensures CoverAt(s', g', e) {
      Facts(s, g, e);
      if g'.mode[e].Heard? {
        forall t | t in g'.asked[e] ensures Covered(s', g'.owner, g'.owner[e], t) {
          if g.mode[e].Heard? {
            KeepCovered(s, g, a, s', g', e, t);
          } else {
            assert t in s'.pes[a.p].want && Together(g.owner, t, t);
          }
        }
      }
    }
  }

  /** Every step keeps the invariant. */
  lemma Keep(s: State, g: Log, a: Action)
    requires Inv(s, g) && Enabled(s, a)
    ensures Inv(Step(s, a), Note(s, g, a))
  {
    var s', g' := Step(s, a), Note(s, g, a);
    KeepPes(s, g, a, s', g');
    KeepRequests(s, g, a, s', g');
    KeepFinals(s, g, a, s', g');
    KeepCovers(s, g, a, s', g');
    KeepMessages(s, g, a, s', g');
  }

  lemma KeepMessages(s: State, g: Log, a: Action, s': State, g': Log)
    requires Inv(s, g) && Enabled(s, a) && s' == Step(s, a) && g' == Note(s, g, a)
    ensures Sized(s', g') && Acks(s', g'.owner) && Infos(s', g'.owner) && OneInfoEach(s'.infos) && Wants(s', g')
  {
    if Negotiates(a) {
      KeepOneInfoEachNegotiating(s, g, a, s', g');
      KeepWantsNegotiating(s, g, a, s', g');
    } else {
      KeepOneInfoEachOther(s, g, a, s', g');
      KeepWantsOther(s, g, a, s', g');
    }
    if a.TakeAck? {
      KeepAcksAnswered(s, g, a, s', g');
      KeepInfosAnswered(s, g, a, s', g');
    } else if a.TakeRequest? {
      KeepAcksAsked(s, g, a, s', g');
      KeepInfosAsked(s, g, a, s', g');
    } else if Opens(a) || Closes(a) {
      KeepAcksRound(s, g, a, s', g');
      KeepInfosRound(s, g, a, s', g');
    } else {
      KeepAcksSearching(s, g, a, s', g');
      KeepInfosSearching(s, g, a, s', g');
    }
  }

  // ----- runs -----

  function Initial(n: nat): State {
    State(seq(n, p requires 0 <= p < n => Pe(p, {p}, {p}, {}, Compute)), {}, {}, {}, {}, {})
  }

  function InitialLog(n: nat): Log {
    Log(seq(n, p requires 0 <= p < n => p), seq(n, _ => Free), seq(n, _ => {}))
  }

  lemma InitialInv(n: nat)
    ensures Inv(Initial(n), InitialLog(n))
  {
  }

  /** A run: any steps of any PEs, in any interleaving, each possible when it happens. */
  predicate IsRun(s: State, run: seq<Action>)
    decreases run
  {
    run == [] || (Enabled(s, run[0]) && IsRun(Step(s, run[0]), run[1..]))
  }

  function After(s: State, run: seq<Action>): State
    requires IsRun(s, run)
    decreases run
  {
    if run == [] then s else After(Step(s, run[0]), run[1..])
  }

  function NextAsks(asks: set<nat>, a: Action, p: nat): set<nat> {
    if a.p != p then asks else if a.Ask? then asks + {a.q} else if a.Adopt? then {} else asks
  }

  /** Whom a PE has asked to couple with since it last adopted a set. */
  function Asks(run: seq<Action>, p: nat): set<nat> {
    if run == [] then {} else NextAsks(Asks(run[..|run| - 1], p), run[|run| - 1], p)
  }

  /** What a PE has asked for is in its own set, and once the round has started in its wishes. */
  predicate AsksKept(s: State, g: Log, asks: set<nat>, p: nat)
    requires Sized(s, g) && p < |s.pes|
  {
    asks <= if s.pes[p].phase.Compute? then s.pes[p].coupled else g.asked[p] + s.pes[p].prev
  }

  lemma KeepAsks(s: State, g: Log, a: Action, asks: set<nat>, p: nat)
    requires Inv(s, g) && Enabled(s, a) && p < |s.pes| && AsksKept(s, g, asks, p)
    ensures Sized(Step(s, a), Note(s, g, a)) && AsksKept(Step(s, a), Note(s, g, a), NextAsks(asks, a, p), p)
  {
    Facts(s, g, p);
  }

  lemma {:induction false} RunKeeps(s: State, g: Log, run: seq<Action>) returns (g': Log)
    requires Inv(s, g) && IsRun(s, run)
    ensures Inv(After(s, run), g') && |After(s, run).pes| == |s.pes|
    ensures forall p {:trigger Asks(run, p)} :: 0 <= p < |s.pes| && AsksKept(s, g, {}, p) ==>
      AsksKept(After(s, run), g', Asks(run, p), p)
    decreases |run|
  {
    if run == [] {
      g' := g;
    } else {
      var n := |run| - 1;
      assert run[..n] + [run[n]] == run;
      RunSplits(s, run[..n], run[n]);
      var g1 := RunKeeps(s, g, run[..n]);
      Keep(After(s, run[..n]), g1, run[n]);
      g' := Note(After(s, run[..n]), g1, run[n]);
      forall p {:trigger Asks(run, p)} | 0 <= p < |s.pes| && AsksKept(s, g, {}, p)
        ensures AsksKept(After(s, run), g', Asks(run, p), p)
      {
        KeepAsks(After(s, run[..n]), g1, run[n], Asks(run[..n], p), p);
      }
    }
  }

  /** A run up to its last step, and that step. */
  lemma {:induction false} RunSplits(s: State, run: seq<Action>, a: Action)
    requires IsRun(s, run + [a])
    ensures IsRun(s, run) && Enabled(After(s, run), a) && After(s, run + [a]) == Step(After(s, run), a)
    decreases run
  {
    var all := run + [a];
    if run == [] {
      assert all[1..] == [];
    } else {
      assert all[1..] == run[1..] + [a];
      RunSplits(Step(s, run[0]), run[1..], a);
    }
  }

  lemma Reached(n: nat, run: seq<Action>) returns (g: Log)
    requires IsRun(Initial(n), run)
    ensures Inv(After(Initial(n), run), g) && |After(Initial(n), run).pes| == n
    ensures forall p {:trigger Asks(run, p)} :: 0 <= p < n ==> AsksKept(After(Initial(n), run), g, Asks(run, p), p)
  {
    InitialInv(n);
    g := RunKeeps(Initial(n), InitialLog(n), run);
  }

  // ----- what holds in every reachable state -----

  /** The sets of the active roots and the sets on their way to one partition the PEs. */
  lemma ClustersPartition(n: nat, run: seq<Action>, e: nat)
    requires IsRun(Initial(n), run) && e < n
    ensures var s := After(Initial(n), run);
      && |s.pes| == n
      && ((exists r: nat :: Active(s.pes, r) && e in Own(s.pes[r])) || exists i :: i in s.infos && e in i.coupled)
      && (forall r: nat, r': nat :: Active(s.pes, r) && Active(s.pes, r') && e in Own(s.pes[r]) && e in Own(s.pes[r']) ==> r == r')
      && (forall r: nat, i :: Active(s.pes, r) && i in s.infos && e in Own(s.pes[r]) ==> e !in i.coupled)
      && (forall i, j :: i in s.infos && j in s.infos && e in i.coupled && e in j.coupled ==> i == j)
  {
    var s := After(Initial(n), run);
    var g := Reached(n, run);
    Facts(s, g, e);
    forall r: nat | Active(s.pes, r) && e in Own(s.pes[r]) ensures g.owner[e] == r {
      assert AtPe(s, g, r);
    }
    forall i | i in s.infos && e in i.coupled ensures g.owner[e] == i.to && e !in Own(s.pes[i.to]) {
      assert InfoOk(s, g.owner, i);
    }
  }

  /** `e` is in the set of the active root `r`, or in one on its way to it. */
  ghost predicate InCluster(s: State, r: nat, e: nat) {
    Active(s.pes, r) && (e in Own(s.pes[r]) || exists i :: i in s.infos && i.to == r && e in i.coupled)
  }

  /** An active root is the least PE of its cluster, sets on their way to it included, and a PE's
      idea of its root is never above itself. */
  lemma RootIsLeast(n: nat, run: seq<Action>, r: nat)
    requires IsRun(Initial(n), run) && r < n
    ensures var s := After(Initial(n), run);
      && |s.pes| == n && s.pes[r].root <= r
      && (Active(s.pes, r) ==> r in Own(s.pes[r]) && forall e: nat :: InCluster(s, r, e) ==> r <= e < n)
  {
    var s := After(Initial(n), run);
    var g := Reached(n, run);
    Facts(s, g, r);
    forall e: nat | InCluster(s, r, e) ensures r <= e < n {
      if e in Own(s.pes[r]) {
        Facts(s, g, e);
      } else {
        var i :| i in s.infos && i.to == r && e in i.coupled;
        assert InfoOk(s, g.owner, i);
      }
    }
  }

  /** Both sides of a negotiation pick the same root: when the asking root takes
      the other's answer, the other either waits for its sets, or has handed over
      its own and follows it. */
  lemma SameWinner(n: nat, run: seq<Action>, p: nat, ack: Ack)
    requires IsRun(Initial(n), run) && Enabled(After(Initial(n), run), TakeAck(p, ack))
    requires !ack.abort && ack.root == ack.from
    ensures var s := After(Initial(n), run);
      && ack.from < |s.pes| && ack.from != p
      && if Winner(p, ack.root) == p
         then s.pes[ack.from].root == p && exists i :: i in s.infos && i.from == ack.from && i.to == p
         else s.pes[ack.from].root == ack.from && s.pes[ack.from].phase == Win(p, false)
  {
    var s := After(Initial(n), run);
    var g := Reached(n, run);
    assert AckOk(s, g.owner, ack);
    Facts(s, g, ack.from);
    forall i | i in s.infos ensures InfoOk(s, g.owner, i) {
    }
  }

  /** A request that is sent on goes to a lower PE of the cluster its target is in,
      which is not the asking root's: the forwarding ends. */
  lemma ForwardingDescends(n: nat, run: seq<Action>, p: nat, ack: Ack)
    requires IsRun(Initial(n), run) && Enabled(After(Initial(n), run), TakeAck(p, ack))
    requires !ack.abort && ack.root != ack.from
    ensures var s := After(Initial(n), run);
      && s.pes[p].phase.WaitAck? && ack.from == s.pes[p].phase.expected && ack.root < s.pes[p].phase.expected
      && Active(s.pes, p)
      && (exists r: nat ::
            r != p && InCluster(s, r, s.pes[p].phase.target) && InCluster(s, r, ack.from) && InCluster(s, r, ack.root))
  {
    var s := After(Initial(n), run);
    var g := Reached(n, run);
    AtAction(s, g, TakeAck(p, ack));
    Around(s, g, TakeAck(p, ack));
    var target := s.pes[p].phase.target;
    var r := g.owner[target];
    Facts(s, g, target);
    Facts(s, g, ack.root);
    assert InCluster(s, r, target) && InCluster(s, r, ack.from) && InCluster(s, r, ack.root);
  }

  /** Whoever answers is whom the root waits for, and whoever hands over is whom it negotiates with. */
  lemma AnswersMatch(n: nat, run: seq<Action>, a: Action)
    requires IsRun(Initial(n), run) && Enabled(After(Initial(n), run), a)
    ensures var s := After(Initial(n), run);
      && (a.TakeAck? && s.pes[a.p].phase.WaitAck? ==> a.ack.from == s.pes[a.p].phase.expected)
      && (a.TakeInfo? && s.pes[a.p].phase.Win? ==> a.info.from == s.pes[a.p].phase.other)
      && (forall f :: f in s.finals && f.to == a.p ==> s.pes[a.p].phase.Share? || s.pes[a.p].phase.WaitInfo?)
  {
    var s := After(Initial(n), run);
    var g := Reached(n, run);
    AtAction(s, g, a);
  }

  /** When a PE adopts a final set, the set holds the PE, its previous cluster and everyone it has
      asked for since that, through hand-overs and refusals. */
  lemma FinalSetHoldsAll(n: nat, run: seq<Action>, p: nat, final: Final)
    requires IsRun(Initial(n), run) && Enabled(After(Initial(n), run), Adopt(p, final))
    ensures var s := After(Initial(n), run);
      p in final.coupled && s.pes[p].prev <= final.coupled && Asks(run, p) <= final.coupled
  {
    var s := After(Initial(n), run);
    var g := Reached(n, run);
    AtAction(s, g, Adopt(p, final));
    Facts(s, g, g.owner[p]);
    assert TookAll(s, g, p) by { NoInfoToTeller(s, g, p); }
  }

  ghost predicate TookAll(s: State, g: Log, p: nat)
    requires p < |s.pes| == |g.owner|
  {
    g.owner[p] < |s.pes| && p in Own(s.pes[g.owner[p]])
  }

  lemma NoInfoToTeller(s: State, g: Log, p: nat)
    requires Inv(s, g) && p < |s.pes| && g.mode[p].Told?
    ensures TookAll(s, g, p)
  {
    Facts(s, g, p);
    Facts(s, g, g.owner[p]);
    NoInfoTo(s, g, g.owner[p]);
  }

  /** All members of a finalised cluster adopt the same set: one still to be told
      is in the root's list, one told has that very set coming to it and no other,
      and one that has adopted it has it as its cluster. */
  lemma MembersAgree(n: nat, run: seq<Action>, final: Final, q: nat)
    requires IsRun(Initial(n), run) && final in After(Initial(n), run).finals && q in final.coupled
    ensures var s := After(Initial(n), run); var r := final.from;
      && q < |s.pes| && Active(s.pes, r) && Own(s.pes[r]) == final.coupled
      && (|| (s.pes[r].phase.Share? && q in s.pes[r].phase.todo)
          || s.pes[q].prev == final.coupled
          || (Final(r, q, final.coupled) in s.finals && forall f :: f in s.finals && f.to == q ==> f == Final(r, q, final.coupled)))
  {
    var s := After(Initial(n), run);
    var g := Reached(n, run);
    Facts(s, g, final.to);
    var r := final.from;
    Facts(s, g, r);
    assert OwnAt(s.pes, g.owner, r);
    Facts(s, g, q);
    assert ToldAt(s, g, q);
  }

  /** No message is sent while its like is still under way, so sets of messages are enough. */
  lemma SendsAreNew(n: nat, run: seq<Action>, a: Action)
    requires IsRun(Initial(n), run) && Enabled(After(Initial(n), run), a)
    ensures var s := After(Initial(n), run); var pe := s.pes[a.p];
      match a
      case SendRequest(p, target) => forall q :: q in s.requests ==> q.from != p
      case TakeAck(p, ack) => (forall q :: q in s.requests ==> q.from != p) && forall i :: i in s.infos ==> i.from != p
      case RefuseRequest(p, from) => forall b :: b in s.acks ==> b.to != from
      case Forward(p, from) => forall b :: b in s.acks ==> b.to != from
      case TakeRequest(p, from) =>
        (forall b :: b in s.acks ==> b.to != from) && forall i :: i in s.infos ==> i.from != p
      case Start(p) => forall w :: w in s.wants ==> w.from != p
      case Tell(p, q) => forall f :: f in s.finals ==> f.to != q
      case _ => true
  {
    var s := After(Initial(n), run);
    var g := Reached(n, run);
    AtAction(s, g, a);
    Around(s, g, a);
    forall q | q in s.requests ensures RequestOk(s.pes, q) {
    }
    forall i | i in s.infos ensures InfoOk(s, g.owner, i) {
    }
  }
}
