/** When a send gets its place in the mailbox of src/hvr_mailbox.cpp, and that nothing reserved is
    stuck there. */
module MailboxProgress {
  import opened Ring
  import opened Mailbox

  // ----- when a step goes on -----

  /** The bytes reserved and not yet released leave more than the message takes. */
  predicate HasRoom(cap: nat, n: nat, run: seq<Action>, msg: Message)
    requires IsRun(Initial(cap, n), run)
    requires |After(Initial(cap, n), run).delivered| <= |Reservations(Initial(cap, n), run)|
  {
    TotalLen(Reservations(Initial(cap, n), run)[|After(Initial(cap, n), run).delivered|..]) + 12 + |msg| < cap
  }

  lemma HasRoomMeans(cap: nat, n: nat, run: seq<Action>, msg: Message)
    requires GoodCapacity(cap) && IsRun(Initial(cap, n), run)
    ensures var m := After(Initial(cap, n), run);
      && Shaped(m) && m.cap == cap && |m.delivered| <= |Reservations(Initial(cap, n), run)|
      && (HasRoom(cap, n, run, msg) <==> Used(m) + FullLen(msg) < cap)
  {
    UsedIsOutstanding(cap, n, run);
    SameCapacity(Initial(cap, n), run);
  }

  /** A try gets its place exactly if the index word has not changed since the sender read it and
      there is room; else the sender goes on with the word of now. */
  lemma TryReserves(cap: nat, n: nat, run: seq<Action>, p: nat)
    requires GoodCapacity(cap) && IsRun(Initial(cap, n), run) && Enabled(After(Initial(cap, n), run), Try(p))
    ensures var m := After(Initial(cap, n), run); var m' := Step(m, Try(p)); var msg := m.senders[p].msg;
      && |m.delivered| <= |Reservations(Initial(cap, n), run)| && |m'.senders| == |m.senders|
      && (m'.senders[p].Writing? <==> m.senders[p].seen == m.indices && HasRoom(cap, n, run, msg))
      && (m'.senders[p].Writing? ==> m'.senders[p].msg == msg && m'.senders[p].start == WriteIndex(m.indices))
      && (!m'.senders[p].Writing? ==> m'.senders[p] == Trying(msg, m.indices) && m'.indices == m.indices)
  {
    HasRoomMeans(cap, n, run, After(Initial(cap, n), run).senders[p].msg);
  }

  /** With nobody in between, a sender that has just read the index word, or failed a try, gets its
      place in the next try exactly if there is room. */
  lemma NextTryReserves(cap: nat, n: nat, run: seq<Action>, p: nat, first: Action)
    requires GoodCapacity(cap) && IsRun(Initial(cap, n), run) && Enabled(After(Initial(cap, n), run), first)
    requires (first.Fetch? || first.Try?) && first.p == p
    requires !Step(After(Initial(cap, n), run), first).senders[p].Writing?
    ensures var m := Step(After(Initial(cap, n), run), first);
      && Enabled(m, Try(p)) && |m.delivered| <= |Reservations(Initial(cap, n), run)|
      && |Step(m, Try(p)).senders| == |m.senders|
      && (Step(m, Try(p)).senders[p].Writing? <==> HasRoom(cap, n, run, m.senders[p].msg))
  {
    HasRoomMeans(cap, n, run, Step(After(Initial(cap, n), run), first).senders[p].msg);
  }

  lemma PollMeans(m: Machine, g: Log)
    requires Inv(m, g) && Enabled(m, Poll)
    ensures Step(m, Poll).receiver.Waiting? <==> g.slots != []
  {
    ReadWord(m.cap, g.base, g.seen);
    ContiguousGrows(g.slots, 0, g.base, g.end);
    if g.seen == g.base && m.indices == m.cached {
      PackEqual(Index(g.base, m.cap), Index(g.seen, m.cap), Index(g.base, m.cap), Index(g.end, m.cap));
      IndexInjective(g.base, g.end, m.cap);
    }
  }

  /** The receiver goes on exactly if something is reserved that it has not received. */
  lemma PollGoesOn(cap: nat, n: nat, run: seq<Action>)
    requires GoodCapacity(cap) && IsRun(Initial(cap, n), run) && Enabled(After(Initial(cap, n), run), Poll)
    ensures var m := After(Initial(cap, n), run);
      Step(m, Poll).receiver.Waiting? <==> m.delivered != Reservations(Initial(cap, n), run)
  {
    var g := Reached(cap, n, run);
    PollMeans(After(Initial(cap, n), run), g);
  }

  lemma TakeMeans(m: Machine, g: Log)
    requires Inv(m, g) && m.receiver.Waiting?
    ensures g.slots != [] && (Enabled(m, Take) <==> g.slots[0].writer == NOBODY)
    ensures ReadIndex(m.indices) == Index(g.base, m.cap)
  {
    ReadWord(m.cap, g.base, g.seen);
    ReadWord(m.cap, g.base, g.end);
    SentinelTells(m, g);
  }

  /** The sentinel of the first slot is up exactly if nobody is writing it. */
  lemma SentinelTells(m: Machine, g: Log)
    requires m.cap % 4 == 0 && Layout(m.cap, g) && |m.buf| == m.cap > 0 && Memory(m.buf, g)
    requires Writers(m.senders, m.cap, g.slots) && Published(m.receiver, g.slots) && m.receiver.Waiting? && g.seen > g.base
    ensures g.slots != [] && Index(g.base, m.cap) + SENTINEL_SIZE <= m.cap
    ensures WordAt(m, Index(g.base, m.cap)) == SENTINEL <==> g.slots[0].writer == NOBODY
  {
    IndexAligned(g.base, m.cap);
    SlotBounds(g.slots, 0, g.base, g.end, 0);
    if g.slots[0].writer == NOBODY {
      SentinelUp(m, g);
    } else {
      SentinelDown(m.cap, m.buf, g, m.senders, 0);
    }
  }

  lemma SentinelUp(m: Machine, g: Log)
    requires Layout(m.cap, g) && |m.buf| == m.cap > 0 && Memory(m.buf, g) && g.slots != []
    requires g.slots[0].present == Span(0, FullLen(g.slots[0].msg))
    requires Index(g.base, m.cap) + SENTINEL_SIZE <= m.cap
    ensures WordAt(m, Index(g.base, m.cap)) == SENTINEL
  {
    var i := Index(g.base, m.cap);
    GatherSlot(m, g, 0, SENTINEL_SIZE);
    var word := m.buf[i..i + SENTINEL_SIZE];
    forall k | 0 <= k < SENTINEL_SIZE ensures word[k] == Gather(m, i, 0, SENTINEL_SIZE)[k] {
      WrapOnce(i, k, m.cap);
    }
    assert word == Gather(m, i, 0, SENTINEL_SIZE);
    assert Encode(g.slots[0].msg)[0..SENTINEL_SIZE] == Bytes(SENTINEL, SENTINEL_SIZE);
    WordBytes(SENTINEL, SENTINEL_SIZE);
  }

  /** The receiver can take the next message exactly if its sender is done with it. */
  lemma TakeGoesOn(cap: nat, n: nat, run: seq<Action>)
    requires GoodCapacity(cap) && IsRun(Initial(cap, n), run) && After(Initial(cap, n), run).receiver.Waiting?
    ensures var m := After(Initial(cap, n), run);
      Enabled(m, Take) <==>
        forall q :: 0 <= q < |m.senders| && m.senders[q].Writing? ==> m.senders[q].start != ReadIndex(m.indices)
  {
    var m := After(Initial(cap, n), run);
    var g := Reached(cap, n, run);
    TakeMeans(m, g);
    SlotBounds(g.slots, 0, g.base, g.end, 0);
    forall q | 0 <= q < |m.senders| && m.senders[q].Writing? && m.senders[q].start == ReadIndex(m.indices)
      ensures g.slots[0].writer == q
    {
      WriterSlot(m.senders, m.cap, g.slots, q);
      var k := SlotOf(g.slots, q);
      SlotBounds(g.slots, 0, g.base, g.end, k);
      IndexInjective(g.base, g.slots[k].start, m.cap);
    }
  }

  // ----- nothing reserved is stuck -----

  /** Steps that finish what is reserved, and send nothing new. */
  predicate Finishes(a: Action) {
    !a.Fetch? && !a.Try? && !a.GiveUp?
  }

  function Rank(r: Receiver): nat {
    match r case Ready => 3 case Waiting(_) => 2 case Clearing(_, _, _) => 1 case Releasing(_, _) => 0
  }

  /** What keeps the receiver where it is. */
  function Left(m: Machine, g: Log): nat {
    match m.receiver
    case Ready => 0
    case Waiting(_) =>
      if g.slots == [] || !(0 <= g.slots[0].writer < |m.senders|) then 0
      else if m.senders[g.slots[0].writer].Writing? then |m.senders[g.slots[0].writer].todo| + 1
      else 0
    case Clearing(_, _, todo) => |todo|
    case Releasing(curr, _) => if m.indices == curr then 0 else 1
  }

  predicate Nearer(m: Machine, g: Log, m': Machine, g': Log) {
    || |g'.slots| < |g.slots|
    || (|g'.slots| == |g.slots| && (Rank(m'.receiver) < Rank(m.receiver)
        || (Rank(m'.receiver) == Rank(m.receiver) && Left(m', g') < Left(m, g))))
  }

  lemma NextWrite(m: Machine, g: Log) returns (a: Action)
    requires Inv(m, g) && m.receiver.Waiting? && g.slots != [] && g.slots[0].writer != NOBODY
    ensures Enabled(m, a) && Finishes(a) && (a.PutByte? || a.Publish?)
    ensures Nearer(m, g, Step(m, a), Note(m, g, a))
  {
    var q: nat := g.slots[0].writer;
    assert HeldBy(g.slots[0], m.senders[q], m.cap) && SlotOf(g.slots, q) == 0;
    WriterCanFinish(m, g, q);
    if i :| i in m.senders[q].todo {
      a := PutByte(q, i);
    } else {
      a := Publish(q);
    }
  }

  lemma NextTake(m: Machine, g: Log)
    requires Inv(m, g) && m.receiver.Waiting? && g.slots != [] && g.slots[0].writer == NOBODY
    ensures Enabled(m, Take) && Nearer(m, g, Step(m, Take), Note(m, g, Take))
  {
    TakeMeans(m, g);
  }

  lemma NextWipe(m: Machine, g: Log) returns (a: Action)
    requires Inv(m, g) && m.receiver.Clearing? && g.slots != []
    ensures Enabled(m, a) && (a.WipeByte? || a.WipeSentinel?)
    ensures Nearer(m, g, Step(m, a), Note(m, g, a))
  {
    if i :| i in m.receiver.todo {
      a := WipeByte(i);
    } else {
      ReadIndexAligned(m, g);
      a := WipeSentinel;
    }
  }

  lemma ReadIndexAligned(m: Machine, g: Log)
    requires 0 < m.cap < WORD_32 && m.cap % SENTINEL_SIZE == 0 && Layout(m.cap, g) && View(m, g) && !m.receiver.Ready?
    ensures ReadIndex(m.receiver.curr) + SENTINEL_SIZE <= m.cap
  {
    ReadWord(m.cap, g.base, g.seen);
    IndexAligned(g.base, m.cap);
  }

  lemma NextRelease(m: Machine, g: Log)
    requires Inv(m, g) && m.receiver.Releasing? && g.slots != []
    ensures Enabled(m, Release) && Nearer(m, g, Step(m, Release), Note(m, g, Release))
  {
  }

  /** While something is reserved and not received, some step brings it nearer. */
  lemma NextStep(m: Machine, g: Log) returns (a: Action)
    requires Inv(m, g) && g.slots != []
    ensures Enabled(m, a) && Finishes(a) && Nearer(m, g, Step(m, a), Note(m, g, a))
  {
    if m.receiver.Ready? {
      PollMeans(m, g);
      a := Poll;
    } else if m.receiver.Clearing? {
      a := NextWipe(m, g);
    } else if m.receiver.Releasing? {
      NextRelease(m, g);
      a := Release;
    } else if g.slots[0].writer == NOBODY {
      NextTake(m, g);
      a := Take;
    } else {
      a := NextWrite(m, g);
    }
  }

  /** A sender that is not sending does not start to. */
  predicate StaysIdle(m: Machine, m': Machine) {
    && m'.cap == m.cap && |m'.senders| == |m.senders|
    && forall p :: 0 <= p < |m.senders| && m.senders[p].Idle? ==> m'.senders[p].Idle?
  }

  lemma FinishingKeepsIdle(m: Machine, a: Action)
    requires Enabled(m, a) && Finishes(a)
    ensures StaysIdle(m, Step(m, a))
  {
  }

  lemma IdleThroughout(m: Machine, m': Machine, m'': Machine)
    requires StaysIdle(m, m') && StaysIdle(m', m'')
    ensures StaysIdle(m, m'')
  {
  }

  lemma Advance(m: Machine, g: Log) returns (a: Action, m': Machine, g': Log)
    requires Inv(m, g) && g.slots != []
    ensures Enabled(m, a) && Finishes(a) && m' == Step(m, a) && g'.reserved == g.reserved
    ensures Inv(m', g') && Nearer(m, g, m', g') && StaysIdle(m, m')
  {
    a := NextStep(m, g);
    FinishingKeepsIdle(m, a);
    Keep(m, g, a);
    NoteReserves(m, g, a);
    m', g' := Step(m, a), Note(m, g, a);
  }

  lemma AllReceived(m: Machine, g: Log)
    requires Inv(m, g) && g.slots == []
    ensures m.delivered == g.reserved && Used(m) == 0
  {
    UsedIsReserved(m, g);
  }

  /** `more` brings all that is reserved in `g` to the receiver. */
  ghost predicate Drained(m: Machine, reserved: seq<Message>, more: seq<Action>, g1: Log) {
    && IsRun(m, more) && After(m, more).delivered == reserved
    && (forall i :: 0 <= i < |more| ==> Finishes(more[i]))
    && Inv(After(m, more), g1) && g1.slots == [] && g1.reserved == reserved && StaysIdle(m, After(m, more))
  }

  lemma DrainedFrom(m: Machine, reserved: seq<Message>, a: Action, rest: seq<Action>, g1: Log)
    requires Enabled(m, a) && Finishes(a) && StaysIdle(m, Step(m, a)) && Drained(Step(m, a), reserved, rest, g1)
    ensures Drained(m, reserved, [a] + rest, g1)
  {
    var more := [a] + rest;
    assert more[1..] == rest;
    IdleThroughout(m, Step(m, a), After(m, more));
  }

  lemma {:induction false} Drain(m: Machine, g: Log) returns (more: seq<Action>, g1: Log)
    requires Inv(m, g)
    ensures Drained(m, g.reserved, more, g1)
    decreases |g.slots|, Rank(m.receiver), Left(m, g)
  {
    if g.slots == [] {
      AllReceived(m, g);
      more, g1 := [], g;
    } else {
      var a, m', g' := Advance(m, g);
      var rest;
      rest, g1 := Drain(m', g');
      DrainedFrom(m, g.reserved, a, rest, g1);
      more := [a] + rest;
    }
  }

  lemma {:induction false} RunJoins(m: Machine, run: seq<Action>, more: seq<Action>)
    requires IsRun(m, run) && IsRun(After(m, run), more)
    ensures IsRun(m, run + more) && After(m, run + more) == After(After(m, run), more)
    decreases run
  {
    if run == [] {
      assert run + more == more;
    } else {
      RunJoins(Step(m, run[0]), run[1..], more);
      assert (run + more)[1..] == run[1..] + more;
    }
  }

  /** From every reachable state, whatever has been reserved can be brought to the receiver without
      anything new being sent: no interleaving leaves the mailbox wedged. */
  lemma NothingWedged(cap: nat, n: nat, run: seq<Action>) returns (more: seq<Action>)
    requires GoodCapacity(cap) && IsRun(Initial(cap, n), run)
    ensures forall i :: 0 <= i < |more| ==> Finishes(more[i])
    ensures IsRun(Initial(cap, n), run + more)
    ensures After(Initial(cap, n), run + more).delivered == Reservations(Initial(cap, n), run)
  {
    var g := Reached(cap, n, run);
    var g1;
    more, g1 := Drain(After(Initial(cap, n), run), g);
    RunJoins(Initial(cap, n), run, more);
  }

  /** In an empty ring a message gets its place. */
  lemma Reserved(m: Machine, g: Log, p: nat, msg: Message) returns (m2: Machine, g2: Log)
    requires Inv(m, g) && g.slots == [] && p < |m.senders| && m.senders[p].Idle?
    requires |msg| % 4 == 0 && 12 + |msg| < m.cap
    ensures Enabled(m, Fetch(p, msg)) && Enabled(Step(m, Fetch(p, msg)), Try(p))
    ensures m2 == Step(Step(m, Fetch(p, msg)), Try(p)) && Inv(m2, g2) && g2.reserved == g.reserved + [msg]
  {
    AllReceived(m, g);
    var m1, g1 := Step(m, Fetch(p, msg)), Note(m, g, Fetch(p, msg));
    Keep(m, g, Fetch(p, msg));
    Keep(m1, g1, Try(p));
    m2, g2 := Step(m1, Try(p)), Note(m1, g1, Try(p));
  }

  lemma SendAlone(m: Machine, g: Log, p: nat, msg: Message) returns (more: seq<Action>)
    requires Inv(m, g) && p < |m.senders| && m.senders[p].Idle?
    requires |msg| % 4 == 0 && 12 + |msg| < m.cap
    ensures IsRun(m, more) && After(m, more).delivered == g.reserved + [msg]
  {
    var first, g1 := Drain(m, g);
    var m1 := After(m, first);
    var m2, g2 := Reserved(m1, g1, p, msg);
    var last, g3 := Drain(m2, g2);
    var send := [Fetch(p, msg)] + ([Try(p)] + last);
    assert ([Try(p)] + last)[1..] == last && send[1..] == [Try(p)] + last;
    RunJoins(m, first, send);
    more := first + send;
  }

  /** From every reachable state, a sender that is not sending can send any message that fits the
      ring at all, and it comes out, behind all that was reserved before. */
  lemma GetsThrough(cap: nat, n: nat, run: seq<Action>, p: nat, msg: Message) returns (more: seq<Action>)
    requires GoodCapacity(cap) && IsRun(Initial(cap, n), run)
    requires p < |After(Initial(cap, n), run).senders| && After(Initial(cap, n), run).senders[p].Idle?
    requires |msg| % 4 == 0 && 12 + |msg| < cap
    ensures IsRun(Initial(cap, n), run + more)
    ensures After(Initial(cap, n), run + more).delivered == Reservations(Initial(cap, n), run) + [msg]
  {
    var g := Reached(cap, n, run);
    more := SendAlone(After(Initial(cap, n), run), g, p, msg);
    RunJoins(Initial(cap, n), run, more);
  }
}
