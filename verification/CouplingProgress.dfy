/** The coupling rounds of src/hoover.cpp never stop of themselves: every wait is for a message
    under way, or for a PE that has something to do. */
module CouplingProgress {
  import opened Coupling

  // ----- what every wait is for -----

  predicate Answered(acks: set<Ack>, p: nat) {
    exists a :: a in acks && a.to == p
  }

  predicate HandedOver(infos: set<Info>, from: nat, to: nat) {
    exists i :: i in infos && i.from == from && i.to == to
  }

  predicate WantUnderWay(wants: set<Want>, e: nat) {
    exists w :: w in wants && w.from == e
  }

  predicate Live(s: State, g: Log, e: nat)
    requires Sized(s, g) && e < |s.pes|
  {
    && (g.mode[e].Sent? ==> WantUnderWay(s.wants, e))
    && match s.pes[e].phase
       case WaitAck(_, expected) => Request(e, expected) in s.requests || Answered(s.acks, e)
       case Win(other, _) => HandedOver(s.infos, other, e) || (e < other && Ack(e, other, e, false) in s.acks)
       case Share(todo) => todo != {}
       case Collect(received) => received <= s.pes[e].prev
       case _ => true
  }

  ghost predicate AllLive(s: State, g: Log) {
    Sized(s, g) && forall e {:trigger Live(s, g, e)} :: 0 <= e < |s.pes| ==> Live(s, g, e)
  }

  lemma KeepSentLive(s: State, g: Log, a: Action, s': State, g': Log, e: nat)
    requires Inv(s, g) && Enabled(s, a) && s' == Step(s, a) && g' == Note(s, g, a) && e < |s.pes|
    requires Live(s, g, e)
    ensures Sized(s', g') && (g'.mode[e].Sent? ==> WantUnderWay(s'.wants, e))
  {
    AtAction(s, g, a);
    if g'.mode[e].Sent? {
      if a == Start(e) {
        assert Want(e, s.pes[e].root, s.pes[e].coupled - s.pes[e].prev) in s'.wants;
      } else {
        var w :| w in s.wants && w.from == e;
        assert w in s'.wants;
      }
    }
  }

  lemma KeepWaitLive(s: State, g: Log, a: Action, s': State, g': Log, e: nat)
    requires Inv(s, g) && Enabled(s, a) && s' == Step(s, a) && g' == Note(s, g, a) && e < |s.pes|
    requires Live(s, g, e)
    ensures Sized(s', g')
    ensures s'.pes[e].phase.WaitAck? ==> Request(e, s'.pes[e].phase.expected) in s'.requests || Answered(s'.acks, e)
  {
    AtAction(s, g, a);
    if s'.pes[e].phase.WaitAck? && a.p != e {
      var q := Request(e, s.pes[e].phase.expected);
      if q in s.requests && q !in s'.requests {
        assert Request(e, a.p) == q;
        assert exists b :: b in s'.acks && b.to == e;
      } else if q !in s.requests {
        var b :| b in s.acks && b.to == e;
        assert b in s'.acks;
      }
    }
  }

  /** What a root that goes on to wait for another's sets waits for. */
  lemma BeginWinLive(s: State, g: Log, a: Action, s': State)
    requires Inv(s, g) && Enabled(s, a) && s' == Step(s, a)
    requires s'.pes[a.p].phase.Win? && !s.pes[a.p].phase.Win?
    ensures var o := s'.pes[a.p].phase.other;
      HandedOver(s'.infos, o, a.p) || (a.p < o && Ack(a.p, o, a.p, false) in s'.acks)
  {
    AtAction(s, g, a);
  }

  lemma KeepWinLive(s: State, g: Log, a: Action, s': State, g': Log, e: nat)
    requires Inv(s, g) && Enabled(s, a) && s' == Step(s, a) && g' == Note(s, g, a) && e < |s.pes|
    requires Live(s, g, e) && s'.pes[e].phase.Win?
    ensures var o := s'.pes[e].phase.other;
      HandedOver(s'.infos, o, e) || (e < o && Ack(e, o, e, false) in s'.acks)
  {
    if a.p == e {
      BeginWinLive(s, g, a, s');
    } else {
      StayWinLive(s, a, s', e);
    }
  }

  lemma StayWinLive(s: State, a: Action, s': State, e: nat)
    requires Enabled(s, a) && s' == Step(s, a) && e < |s.pes| && a.p != e && s.pes[e].phase.Win?
    requires var o := s.pes[e].phase.other; HandedOver(s.infos, o, e) || (e < o && Ack(e, o, e, false) in s.acks)
    ensures var o := s.pes[e].phase.other; HandedOver(s'.infos, o, e) || (e < o && Ack(e, o, e, false) in s'.acks)
  {
    var o := s.pes[e].phase.other;
    if HandedOver(s.infos, o, e) {
      var i :| i in s.infos && i.from == o && i.to == e;
      assert i in s'.infos;
    } else if a == TakeAck(o, Ack(e, o, e, false)) {
      assert Info(o, e, s.pes[o].coupled, s.pes[o].want) in s'.infos;
    }
  }

  lemma KeepRestLive(s: State, g: Log, a: Action, s': State, g': Log, e: nat)
    requires Inv(s, g) && Enabled(s, a) && s' == Step(s, a) && g' == Note(s, g, a) && e < |s.pes|
    requires Live(s, g, e)
    ensures s'.pes[e].phase.Share? ==> s'.pes[e].phase.todo != {}
    ensures s'.pes[e].phase.Collect? ==> s'.pes[e].phase.received <= s'.pes[e].prev
  {
    AtAction(s, g, a);
    Around(s, g, a);
    if a.p == e { Facts(s, g, e); }
  }

  lemma KeepLive(s: State, g: Log, a: Action, s': State, g': Log)
    requires Inv(s, g) && AllLive(s, g) && Enabled(s, a) && s' == Step(s, a) && g' == Note(s, g, a)
    ensures AllLive(s', g')
  {
    forall e {:trigger Live(s', g', e)} | 0 <= e < |s.pes| ensures Sized(s', g') && e < |s'.pes| && Live(s', g', e) {
      assert Live(s, g, e);
      KeepSentLive(s, g, a, s', g', e);
      KeepWaitLive(s, g, a, s', g', e);
      KeepRestLive(s, g, a, s', g', e);
      if s'.pes[e].phase.Win? { KeepWinLive(s, g, a, s', g', e); }
    }
  }

  lemma {:induction false} RunLive(s: State, g: Log, run: seq<Action>) returns (g': Log)
    requires Inv(s, g) && AllLive(s, g) && IsRun(s, run)
    ensures Inv(After(s, run), g') && AllLive(After(s, run), g') && |After(s, run).pes| == |s.pes|
    decreases run
  {
    if run == [] {
      g' := g;
    } else {
      Keep(s, g, run[0]);
      KeepLive(s, g, run[0], Step(s, run[0]), Note(s, g, run[0]));
      g' := RunLive(Step(s, run[0]), Note(s, g, run[0]), run[1..]);
    }
  }

  // ----- somebody can go on -----

  /** No PE is between two rounds. */
  predicate NoneComputes(s: State) {
    forall p :: 0 <= p < |s.pes| ==> !s.pes[p].phase.Compute?
  }

  /** A root still to hear from its PEs can, or one of them has its last final set to take. */
  lemma CollectGoesOn(s: State, g: Log, r: nat) returns (a: Action)
    requires Inv(s, g) && AllLive(s, g) && NoneComputes(s) && Active(s.pes, r) && s.pes[r].phase.Collect?
    ensures Enabled(s, a)
  {
    Facts(s, g, r);
    assert Live(s, g, r);
    if s.pes[r].phase.received == s.pes[r].prev {
      a := BeginSeek(r);
    } else {
      var e :| e in s.pes[r].prev && e !in s.pes[r].phase.received;
      Facts(s, g, e);
      assert Live(s, g, e);
      if g.mode[e].Sent? {
        var w :| w in s.wants && w.from == e;
        a := TakeWant(r, w);
      } else {
        assert ToldAt(s, g, e);
        a := Adopt(e, Final(g.mode[e].teller, e, g.mode[e].coupled));
      }
    }
  }

  /** A root waiting for another's sets gets them, or its answer is still to be read. */
  lemma WinGoesOn(s: State, g: Log, r: nat) returns (a: Action)
    requires Inv(s, g) && AllLive(s, g) && r < |s.pes| && s.pes[r].phase.Win?
    ensures Enabled(s, a)
  {
    assert Live(s, g, r);
    var o := s.pes[r].phase.other;
    if HandedOver(s.infos, o, r) {
      var i :| i in s.infos && i.from == o && i.to == r;
      a := TakeInfo(r, i);
    } else {
      assert AckOk(s, g.owner, Ack(r, o, r, false));
      a := TakeAck(o, Ack(r, o, r, false));
    }
  }

  lemma RootGoesOn(s: State, g: Log, r: nat) returns (a: Action)
    requires Inv(s, g) && AllLive(s, g) && NoneComputes(s) && Active(s.pes, r) && !s.pes[r].phase.WaitAck?
    ensures Enabled(s, a)
  {
    Facts(s, g, r);
    assert Live(s, g, r);
    match s.pes[r].phase {
      case Collect(_) => a := CollectGoesOn(s, g, r);
      case Seek =>
        if s.pes[r].want <= s.pes[r].coupled {
          a := NoTarget(r);
        } else {
          var target :| target in s.pes[r].want && target !in s.pes[r].coupled;
          a := SendRequest(r, target);
        }
      case Win(_, _) => a := WinGoesOn(s, g, r);
      case Check => a := CheckNone(r);
      case Share(todo) =>
        var q :| q in todo;
        a := Tell(r, q);
      case WaitInfo =>
        assert ToldAt(s, g, r);
        a := Adopt(r, Final(g.mode[r].teller, r, g.mode[r].coupled));
    }
  }

  /** Whoever is asked answers, or is itself going on. */
  lemma AskedGoesOn(s: State, g: Log, r: nat) returns (a: Action)
    requires Inv(s, g) && AllLive(s, g) && NoneComputes(s) && r < |s.pes| && s.pes[r].phase.WaitAck?
    ensures Enabled(s, a)
  {
    assert Live(s, g, r);
    var x := s.pes[r].phase.expected;
    if Answered(s.acks, r) {
      var b :| b in s.acks && b.to == r;
      a := TakeAck(r, b);
    } else {
      assert RequestOk(s.pes, Request(r, x));
      Facts(s, g, x);
      if s.pes[x].root != x {
        a := Forward(x, r);
      } else if s.pes[x].phase.WaitAck? {
        a := RefuseRequest(x, r);
      } else {
        a := RootGoesOn(s, g, x);
      }
    }
  }

  /** There is no deadlock: in every reachable state some PE can take a step, and not only one that
      starts a round or asks for more between two rounds, unless some PE is between two rounds. */
  lemma NoDeadlock(n: nat, run: seq<Action>) returns (a: Action)
    requires 0 < n && IsRun(Initial(n), run) && NoneComputes(After(Initial(n), run))
    ensures Enabled(After(Initial(n), run), a) && !a.Ask? && !a.Start?
  {
    InitialInv(n);
    var s := After(Initial(n), run);
    var g := RunLive(Initial(n), InitialLog(n), run);
    Facts(s, g, 0);
    var r := g.owner[0];
    if s.pes[r].phase.WaitAck? {
      a := AskedGoesOn(s, g, r);
    } else {
      a := RootGoesOn(s, g, r);
    }
    assert !s.pes[a.p].phase.Compute?;
  }

  // ----- a round that couples two PEs -----

  /** The PEs of a round between two, and all that is under way. */
  predicate Between(s: State, n: nat, a: nat, b: nat, pa: Pe, pb: Pe, rest: State) {
    && |s.pes| == n && a < n && b < n && a != b && s.pes[a] == pa && s.pes[b] == pb
    && s == rest.(pes := s.pes)
  }

  function Quiet(): State {
    State([], {}, {}, {}, {}, {})
  }

  lemma {:induction false} OneMore(s: State, run: seq<Action>, a: Action) returns (more: seq<Action>)
    requires IsRun(s, run) && Enabled(After(s, run), a)
    ensures more == run + [a] && IsRun(s, more) && After(s, more) == Step(After(s, run), a)
    decreases run
  {
    more := run + [a];
    if run == [] {
      assert more[1..] == [];
    } else {
      var rest := OneMore(Step(s, run[0]), run[1..], a);
      assert more[1..] == rest;
    }
  }

  /** `a` asks for `b`; both start their rounds and turn to the search. */
  lemma BothSeek(n: nat, a: nat, b: nat) returns (run: seq<Action>)
    requires a < n && b < n && a != b
    ensures IsRun(Initial(n), run)
    ensures Between(After(Initial(n), run), n, a, b, Pe(a, {a}, {a}, {b}, Seek), Pe(b, {b}, {b}, {}, Seek), Quiet())
  {
    var wa, wb := Want(a, a, {b}), Want(b, b, {});
    run := OneMore(Initial(n), [], Ask(a, b));
    assert {a} + {b} - {a} == {b} && {b} - {b} == {};
    run := OneMore(Initial(n), run, Start(a));
    run := OneMore(Initial(n), run, Start(b));
    assert Between(After(Initial(n), run), n, a, b,
                   Pe(a, {a} + {b}, {a}, {}, Collect({})), Pe(b, {b}, {b}, {}, Collect({})), Quiet().(wants := {wa, wb}));
    run := OneMore(Initial(n), run, TakeWant(a, wa));
    run := OneMore(Initial(n), run, TakeWant(b, wb));
    assert {wa, wb} - {wa} - {wb} == {};
    var none: set<nat> := {};
    assert none + {a} == {a} && none + {b} == {b} && none + none == none;
    assert Between(After(Initial(n), run), n, a, b,
                   Pe(a, {a} + {b}, {a}, {b}, Collect({a})), Pe(b, {b}, {b}, {}, Collect({b})), Quiet());
    run := OneMore(Initial(n), run, BeginSeek(a));
    run := OneMore(Initial(n), run, BeginSeek(b));
  }

  /** The root of both shares the set, and both adopt it. */
  lemma BothAdopt(n: nat, run: seq<Action>, low: nat, high: nat, pl: Pe, ph: Pe) returns (more: seq<Action>)
    requires IsRun(Initial(n), run) && Between(After(Initial(n), run), n, low, high, pl, ph, Quiet())
    requires pl.root == low && pl.coupled == {low, high} && pl.phase == Share({low, high}) && ph.phase == WaitInfo
    ensures IsRun(Initial(n), more) && Coupled(After(Initial(n), more), n, low, high)
  {
    var both := {low, high};
    var fl, fh := Final(low, low, both), Final(low, high, both);
    more := OneMore(Initial(n), run, Tell(low, low));
    assert both - {low} == {high} && {high} - {high} == {};
    more := OneMore(Initial(n), more, Tell(low, high));
    assert {fl} + {fh} - {fl} - {fh} == {};
    assert Between(After(Initial(n), more), n, low, high, pl.(phase := WaitInfo), ph, Quiet().(finals := {fl} + {fh}));
    more := OneMore(Initial(n), more, Adopt(low, fl));
    more := OneMore(Initial(n), more, Adopt(high, fh));
  }

  /** Both are between two rounds, in the cluster of the two. */
  predicate Coupled(s: State, n: nat, low: nat, high: nat) {
    && |s.pes| == n && low < n && high < n && s == Quiet().(pes := s.pes)
    && s.pes[low].root == low && s.pes[low].prev == s.pes[low].coupled == {low, high} && s.pes[low].phase == Compute
    && s.pes[high].root == low && s.pes[high].prev == s.pes[high].coupled == {low, high} && s.pes[high].phase == Compute
  }

  /** The asking PE is the lower: the other hands over when it takes the request. */
  lemma LowerAsks(n: nat, a: nat, b: nat) returns (run: seq<Action>)
    requires a < b < n
    ensures IsRun(Initial(n), run) && Coupled(After(Initial(n), run), n, a, b)
  {
    var none: set<nat> := {};
    var ack, info := Ack(b, a, b, false), Info(b, a, {b}, {});
    run := BothSeek(n, a, b);
    run := OneMore(Initial(n), run, NoTarget(b));
    run := OneMore(Initial(n), run, SendRequest(a, b));
    run := OneMore(Initial(n), run, TakeRequest(b, a));
    assert {Request(a, b)} - {Request(a, b)} == {} && {ack} - {ack} == {} && {info} - {info} == {};
    assert Between(After(Initial(n), run), n, a, b, Pe(a, {a}, {a}, {b}, WaitAck(b, b)), Pe(a, {b}, {b}, {}, WaitInfo),
                   Quiet().(acks := {ack}, infos := {info}));
    run := OneMore(Initial(n), run, TakeAck(a, ack));
    run := OneMore(Initial(n), run, TakeInfo(a, info));
    assert {a} + {b} == {a, b} && {b} + none == {b};
    assert Between(After(Initial(n), run), n, a, b, Pe(a, {a, b}, {a}, {b}, Check), Pe(a, {b}, {b}, {}, WaitInfo), Quiet());
    run := OneMore(Initial(n), run, CheckNone(a));
    run := BothAdopt(n, run, a, b, After(Initial(n), run).pes[a], After(Initial(n), run).pes[b]);
  }

  /** The asking PE is the higher: it hands over when it has the answer. */
  lemma HigherAsks(n: nat, a: nat, b: nat) returns (run: seq<Action>)
    requires b < a < n
    ensures IsRun(Initial(n), run) && Coupled(After(Initial(n), run), n, b, a)
  {
    var none: set<nat> := {};
    var ack, info := Ack(b, a, b, false), Info(a, b, {a}, {b});
    run := BothSeek(n, a, b);
    run := OneMore(Initial(n), run, NoTarget(b));
    run := OneMore(Initial(n), run, SendRequest(a, b));
    run := OneMore(Initial(n), run, TakeRequest(b, a));
    assert {Request(a, b)} - {Request(a, b)} == {} && {ack} - {ack} == {} && {info} - {info} == {};
    assert Between(After(Initial(n), run), n, b, a, Pe(b, {b}, {b}, {}, Win(a, false)), Pe(a, {a}, {a}, {b}, WaitAck(b, b)),
                   Quiet().(acks := {ack}));
    run := OneMore(Initial(n), run, TakeAck(a, ack));
    assert Between(After(Initial(n), run), n, b, a, Pe(b, {b}, {b}, {}, Win(a, false)), Pe(b, {a}, {a}, {b}, WaitInfo),
                   Quiet().(infos := {info}));
    run := OneMore(Initial(n), run, TakeInfo(b, info));
    assert {b} + {a} == {b, a} && none + {b} == {b};
    run := BothAdopt(n, run, b, a, After(Initial(n), run).pes[b], After(Initial(n), run).pes[a]);
  }

  /** Any PE that asks for another can be coupled with it in one round, whichever is the lower. */
  lemma PairCouples(n: nat, a: nat, b: nat) returns (run: seq<Action>)
    requires a < n && b < n && a != b
    ensures IsRun(Initial(n), run) && Coupled(After(Initial(n), run), n, if a < b then a else b, if a < b then b else a)
  {
    if a < b { run := LowerAsks(n, a, b); } else { run := HigherAsks(n, a, b); }
  }
}
