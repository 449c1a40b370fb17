/** The reader/writer lock that PEs share through one word and compare-and-swap
    (src/shmem_rw_lock.cpp, inc/shmem_rw_lock.h). */
module RwLock {
  import opened Sets

  // ----- the lock word: the writer bit on top of a count of readers -----

  const WRITER_BIT: nat := 0x8000_0000_0000_0000

  /** The word, a 64-bit one, without its top bit. */
  function NReaders(lockVal: nat): nat {
    if lockVal >= WRITER_BIT then lockVal - WRITER_BIT else lockVal
  }

  predicate HasWriter(lockVal: nat) {
    lockVal >= WRITER_BIT
  }

  function SetWriter(lockVal: nat): nat {
    WRITER_BIT + NReaders(lockVal)
  }

  function ClearWriter(lockVal: nat): nat {
    NReaders(lockVal)
  }

  /** One more reader; the writer bit is not kept. */
  function AddReader(lockVal: nat): nat {
    NReaders(lockVal) + 1
  }

  function RemoveReader(lockVal: nat): nat
    requires NReaders(lockVal) > 0
  {
    (if HasWriter(lockVal) then WRITER_BIT else 0) + (NReaders(lockVal) - 1)
  }

  // ----- the PEs -----

  /** Where a PE is; `seen` is its `curr_val`. */
  datatype Phase =
    | Idle
    | RLocking(seen: nat)
    | Reading
    | RUnlocking(seen: nat)
    | WLocking(seen: nat)
    | Draining                 // the bit is set, readers are still inside
    | Writing
    | WUnlocking(seen: nat)

  datatype State = State(word: nat, pes: seq<Phase>)

  datatype Action =
    | Begin(p: nat, call: Call)
    | Poll(p: nat)
    | Swap(p: nat)

  datatype Call = RLock | RUnlock | WLock | WUnlock

  /** What is asserted of the word in `seen` before it is swapped for a new one. */
  predicate SwapReady(phase: Phase) {
    match phase
    case RLocking(seen) => !HasWriter(seen)
    case RUnlocking(seen) => NReaders(seen) > 0
    case WLocking(seen) => !HasWriter(seen)
    case WUnlocking(seen) => HasWriter(seen) && NReaders(seen) == 0
    case _ => false
  }

  predicate Enabled(s: State, a: Action) {
    a.p < |s.pes| &&
    var phase := s.pes[a.p];
    match a
    case Begin(_, RLock) => phase.Idle?
    case Begin(_, WLock) => phase.Idle?
    case Begin(_, RUnlock) => phase.Reading?
    case Begin(_, WUnlock) => phase.Writing?
    case Poll(_) => phase.Draining? || ((phase.RLocking? || phase.WLocking?) && HasWriter(phase.seen))
    case Swap(_) => SwapReady(phase)
  }

  /** The word a compare-and-swap puts in place of the one seen. */
  function NewWord(phase: Phase): nat
    requires SwapReady(phase)
  {
    match phase
    case RLocking(seen) => AddReader(seen)
    case RUnlocking(seen) => RemoveReader(seen)
    case WLocking(seen) => SetWriter(seen)
    case WUnlocking(seen) => ClearWriter(seen)
  }

  /** Where a PE goes when its swap succeeds. */
  function Swapped(phase: Phase): Phase
    requires SwapReady(phase)
  {
    match phase
    case RLocking(_) => Reading
    case RUnlocking(_) => Idle
    case WLocking(seen) => if NReaders(seen) > 0 then Draining else Writing
    case WUnlocking(_) => Idle
  }

  function Step(s: State, a: Action): State
    requires Enabled(s, a)
  {
    var p := a.p;
    var phase := s.pes[p];
    match a
    case Begin(_, RLock) => s.(pes := s.pes[p := RLocking(s.word)])
    case Begin(_, WLock) => s.(pes := s.pes[p := WLocking(s.word)])
    case Begin(_, RUnlock) => s.(pes := s.pes[p := RUnlocking(s.word)])
    case Begin(_, WUnlock) => s.(pes := s.pes[p := WUnlocking(s.word)])
    case Poll(_) =>
      if phase.Draining? then (if NReaders(s.word) > 0 then s else s.(pes := s.pes[p := Writing]))
      else s.(pes := s.pes[p := phase.(seen := s.word)])
    case Swap(_) =>
      if s.word == phase.seen then State(NewWord(phase), s.pes[p := Swapped(phase)])
      else s.(pes := s.pes[p := phase.(seen := s.word)])
  }

  // ----- invariant -----

  predicate HoldsRead(phase: Phase) {
    phase.Reading? || phase.RUnlocking?
  }

  predicate HoldsWrite(phase: Phase) {
    phase.Draining? || phase.Writing? || phase.WUnlocking?
  }

  function Readers(pes: seq<Phase>): set<nat> {
    set p: nat | p < |pes| && HoldsRead(pes[p])
  }

  function Writers(pes: seq<Phase>): set<nat> {
    set p: nat | p < |pes| && HoldsWrite(pes[p])
  }

  /** The word is the number of readers, under the bit of at most one writer;
      a writer past its wait is alone. */
  predicate Inv(s: State) {
    && |s.pes| < WRITER_BIT
    && |Writers(s.pes)| <= 1
    && s.word == |Readers(s.pes)| + (if Writers(s.pes) == {} then 0 else WRITER_BIT)
    && forall p :: 0 <= p < |s.pes| ==> PeOk(s.pes[p], Readers(s.pes))
  }

  predicate PeOk(phase: Phase, readers: set<nat>) {
    && (phase.Writing? || phase.WUnlocking? ==> readers == {})
    && (phase.RUnlocking? || phase.WUnlocking? ==> SwapReady(phase))
  }

  lemma Moved(pes: seq<Phase>, p: nat, phase: Phase)
    requires p < |pes|
    ensures Readers(pes[p := phase]) == Placed(Readers(pes), p, HoldsRead(phase))
    ensures Writers(pes[p := phase]) == Placed(Writers(pes), p, HoldsWrite(phase))
    ensures p in Readers(pes) <==> HoldsRead(pes[p])
    ensures p in Writers(pes) <==> HoldsWrite(pes[p])
  {
  }

  /** What the word of a reachable state says. */
  lemma WordMeans(s: State)
    requires Inv(s)
    ensures NReaders(s.word) == |Readers(s.pes)| <= |s.pes| && (HasWriter(s.word) <==> Writers(s.pes) != {})
    ensures SetWriter(s.word) == NReaders(s.word) + WRITER_BIT && ClearWriter(s.word) == NReaders(s.word)
  {
    SubsetSize(Readers(s.pes), Below(|s.pes|));
  }

  lemma InitialInv(n: nat)
    requires n < WRITER_BIT
    ensures Inv(Initial(n))
  {
    assert Readers(Initial(n).pes) == {} && Writers(Initial(n).pes) == {};
  }

  function Initial(n: nat): State {
    State(0, seq(n, _ => Idle))
  }

  lemma KeepSwap(s: State, p: nat, s': State)
    requires Inv(s) && Enabled(s, Swap(p)) && s.word == s.pes[p].seen
    requires s' == State(NewWord(s.pes[p]), s.pes[p := Swapped(s.pes[p])])
    ensures Inv(s')
  {
    var phase := s.pes[p];
    var readers, writers := Readers(s.pes), Writers(s.pes);
    WordMeans(s);
    Moved(s.pes, p, Swapped(phase));
    if phase.WUnlocking? { OnlyOne(writers, p); }
    assert PeOk(phase, readers);
    forall q | 0 <= q < |s.pes| ensures PeOk(s'.pes[q], Readers(s'.pes)) {
      assert PeOk(s.pes[q], readers);
      assert HoldsWrite(s.pes[q]) ==> q in writers;
    }
    SwappedCounts(phase, p, readers, writers, Readers(s'.pes), Writers(s'.pes), s.word);
  }

  /** A set with an element moved in or out. */
  function Placed(s: set<nat>, p: nat, inside: bool): set<nat> {
    if inside then s + {p} else s - {p}
  }

  lemma PlacedCount(s: set<nat>, p: nat, inside: bool)
    ensures |Placed(s, p, inside)| == |s| + (if inside then 1 else 0) - (if p in s then 1 else 0)
    ensures inside == (p in s) ==> Placed(s, p, inside) == s
  {
    if inside == (p in s) { assert Placed(s, p, inside) == s; }
  }

  lemma SwappedCounts(phase: Phase, p: nat, readers: set<nat>, writers: set<nat>,
                      readers': set<nat>, writers': set<nat>, word: nat)
    requires SwapReady(phase) && word == phase.seen && |readers| < WRITER_BIT
    requires |writers| <= 1 && word == |readers| + if writers == {} then 0 else WRITER_BIT
    requires p in readers <==> HoldsRead(phase)
    requires p in writers <==> HoldsWrite(phase)
    requires phase.WUnlocking? ==> writers == {p}
    requires readers' == Placed(readers, p, HoldsRead(Swapped(phase)))
    requires writers' == Placed(writers, p, HoldsWrite(Swapped(phase)))
    ensures |writers'| <= 1 && NewWord(phase) == |readers'| + if writers' == {} then 0 else WRITER_BIT
  {
    PlacedCount(readers, p, HoldsRead(Swapped(phase)));
    PlacedCount(writers, p, HoldsWrite(Swapped(phase)));
  }

  lemma OnlyOne(s: set<nat>, p: nat)
    requires |s| <= 1 && p in s
    ensures s == {p}
  {
    SubsetSize({p}, s);
  }

  /** What a PE sees of the word fits where it goes. */
  lemma QuietPhase(s: State, a: Action, phase: Phase)
    requires Inv(s) && Enabled(s, a) && (a.Swap? ==> s.word != s.pes[a.p].seen) && phase == Step(s, a).pes[a.p]
    ensures PeOk(phase, Readers(s.pes))
    ensures HoldsRead(phase) == HoldsRead(s.pes[a.p]) && HoldsWrite(phase) == HoldsWrite(s.pes[a.p])
  {
    WordMeans(s);
    assert PeOk(s.pes[a.p], Readers(s.pes));
    assert HoldsRead(s.pes[a.p]) ==> a.p in Readers(s.pes);
    assert HoldsWrite(s.pes[a.p]) ==> a.p in Writers(s.pes);
    assert Readers(s.pes) == {} || |Readers(s.pes)| > 0;
  }

  lemma KeepQuiet(s: State, a: Action, s': State, phase: Phase)
    requires Inv(s) && a.p < |s.pes| && s' == State(s.word, s.pes[a.p := phase])
    requires PeOk(phase, Readers(s.pes))
    requires HoldsRead(phase) == HoldsRead(s.pes[a.p]) && HoldsWrite(phase) == HoldsWrite(s.pes[a.p])
    ensures Inv(s')
  {
    Moved(s.pes, a.p, phase);
    PlacedCount(Readers(s.pes), a.p, HoldsRead(phase));
    PlacedCount(Writers(s.pes), a.p, HoldsWrite(phase));
    forall q | 0 <= q < |s.pes| ensures PeOk(s'.pes[q], Readers(s'.pes)) {
      assert PeOk(s.pes[q], Readers(s.pes));
    }
  }

  lemma Keep(s: State, a: Action)
    requires Inv(s) && Enabled(s, a)
    ensures Inv(Step(s, a)) && |Step(s, a).pes| == |s.pes|
  {
    if a.Swap? && s.word == s.pes[a.p].seen {
      KeepSwap(s, a.p, Step(s, a));
    } else {
      var phase := Step(s, a).pes[a.p];
      QuietPhase(s, a, phase);
      assert Step(s, a).pes == s.pes[a.p := phase];
      KeepQuiet(s, a, Step(s, a), phase);
    }
  }

  // ----- runs -----

  predicate IsRun(s: State, run: seq<Action>)
    decreases run
  {
    run == [] || (Enabled(s, run[0]) && IsRun(Step(s, run[0]), run[1..]))
  }

  function After(s: State, run: seq<Action>): State
    requires IsRun(s, run)
    decreases run
  {
    if run == [] then s else After(Step(s, run[0]), run[1..])
  }

  lemma {:induction false} RunKeeps(s: State, run: seq<Action>)
    requires Inv(s) && IsRun(s, run)
    ensures Inv(After(s, run)) && |After(s, run).pes| == |s.pes|
    decreases run
  {
    if run != [] {
      Keep(s, run[0]);
      RunKeeps(Step(s, run[0]), run[1..]);
    }
  }

  /** For any number of PEs and any interleaving: the word counts the holders of
      the read lock and tells whether there is a writer, of which there is one
      at most; and once a writer is past its wait nobody else holds the lock. */
  lemma Exclusion(n: nat, run: seq<Action>)
    requires n < 0x8000_0000_0000_0000 && IsRun(Initial(n), run)
    ensures var s := After(Initial(n), run);
      && |s.pes| == n && NReaders(s.word) == |Readers(s.pes)| && (HasWriter(s.word) <==> Writers(s.pes) != {})
      && forall p, q :: 0 <= p < n && 0 <= q < n && p != q && HoldsWrite(s.pes[p]) ==>
           !HoldsWrite(s.pes[q]) && (s.pes[p].Writing? ==> !HoldsRead(s.pes[q]))
  {
    var s := After(Initial(n), run);
    InitialInv(n);
    RunKeeps(Initial(n), run);
    WordMeans(s);
    forall p, q | 0 <= p < n && 0 <= q < n && p != q && HoldsWrite(s.pes[p])
      ensures !HoldsWrite(s.pes[q]) && (s.pes[p].Writing? ==> !HoldsRead(s.pes[q]))
    {
      assert p in Writers(s.pes) && PeOk(s.pes[p], Readers(s.pes));
      OnlyOne(Writers(s.pes), p);
      assert HoldsWrite(s.pes[q]) ==> q in Writers(s.pes);
      assert HoldsRead(s.pes[q]) ==> q in Readers(s.pes);
    }
  }

  /** The assertions of the encoding functions never fire: whenever a PE gets to
      a swap, or to wait for another word, its word is one it may change. */
  lemma EncodingAssertionsHold(n: nat, run: seq<Action>, p: nat)
    requires n < 0x8000_0000_0000_0000 && IsRun(Initial(n), run) && p < n
    ensures var s := After(Initial(n), run);
      && |s.pes| == n
      && (s.pes[p].RUnlocking? || s.pes[p].WUnlocking? ==> Enabled(s, Swap(p)))
      && (s.pes[p].RLocking? || s.pes[p].WLocking? || s.pes[p].Draining? ==> Enabled(s, Swap(p)) || Enabled(s, Poll(p)))
  {
    InitialInv(n);
    RunKeeps(Initial(n), run);
    assert PeOk(After(Initial(n), run).pes[p], Readers(After(Initial(n), run).pes));
  }

  // ----- when the lock is granted -----

  /** What a PE that has just read the word gets next, by who holds the lock. */
  predicate Granted(s: State, p: nat)
    requires p < |s.pes|
  {
    match s.pes[p]
    case RLocking(_) =>
      && (Enabled(s, Swap(p)) <==> Writers(s.pes) == {})
      && (Writers(s.pes) == {} ==> Step(s, Swap(p)).pes[p] == Reading)
    case WLocking(_) =>
      && (Enabled(s, Swap(p)) <==> Writers(s.pes) == {})
      && (Writers(s.pes) == {} ==> Step(s, Swap(p)).pes[p] == if Readers(s.pes) == {} then Writing else Draining)
    case Draining => Enabled(s, Poll(p)) && (Step(s, Poll(p)).pes[p] == Writing <==> Readers(s.pes) == {})
    case RUnlocking(_) => Enabled(s, Swap(p)) && Step(s, Swap(p)).pes[p] == Idle
    case WUnlocking(_) => Enabled(s, Swap(p)) && Step(s, Swap(p)).pes[p] == Idle
    case _ => true
  }

  /** The word a PE goes by is that of now. */
  predicate Fresh(phase: Phase, word: nat) {
    match phase
    case RLocking(seen) => seen == word
    case RUnlocking(seen) => seen == word
    case WLocking(seen) => seen == word
    case WUnlocking(seen) => seen == word
    case _ => true
  }

  lemma FreshGranted(s: State, p: nat)
    requires Inv(s) && p < |s.pes| && Fresh(s.pes[p], s.word)
    ensures Granted(s, p)
  {
    WordMeans(s);
    assert PeOk(s.pes[p], Readers(s.pes));
    assert Readers(s.pes) == {} || |Readers(s.pes)| > 0;
  }

  /** With nobody in between, a PE that begins, polls, or fails a swap gets what it is after in its
      next step: to read, or the writer bit, exactly if there is no writer; to write, exactly if there
      is no reader either; to leave, always. */
  lemma NextStepGrants(n: nat, run: seq<Action>, first: Action)
    requires n < 0x8000_0000_0000_0000 && IsRun(Initial(n), run) && Enabled(After(Initial(n), run), first)
    ensures var s := Step(After(Initial(n), run), first);
      first.p < |s.pes| && Granted(s, first.p)
  {
    InitialInv(n);
    RunKeeps(Initial(n), run);
    var s := After(Initial(n), run);
    Keep(s, first);
    FreshGranted(Step(s, first), first.p);
  }

  // ----- everybody gets in and out -----

  /** The steps from a phase to `Idle`. */
  function Work(phase: Phase): nat {
    match phase
    case Idle => 0
    case RUnlocking(_) => 1
    case WUnlocking(_) => 1
    case Reading => 2
    case Writing => 2
    case Draining => 3
    case RLocking(_) => 3
    case WLocking(_) => 4
  }

  function TotalWork(pes: seq<Phase>): nat {
    if pes == [] then 0 else Work(pes[0]) + TotalWork(pes[1..])
  }

  function Stale(pes: seq<Phase>, word: nat): nat {
    if pes == [] then 0 else (if Fresh(pes[0], word) then 0 else 1) + Stale(pes[1..], word)
  }

  lemma {:induction false} TotalsUpdated(pes: seq<Phase>, p: nat, phase: Phase, word: nat)
    requires p < |pes|
    ensures TotalWork(pes[p := phase]) == TotalWork(pes) - Work(pes[p]) + Work(phase)
    ensures Stale(pes[p := phase], word) ==
      Stale(pes, word) - (if Fresh(pes[p], word) then 0 else 1) + (if Fresh(phase, word) then 0 else 1)
    decreases pes
  {
    var pes' := pes[p := phase];
    if p > 0 {
      TotalsUpdated(pes[1..], p - 1, phase, word);
      assert pes'[1..] == pes[1..][p - 1 := phase];
    } else {
      assert pes'[1..] == pes[1..];
    }
  }

  lemma {:induction false} NoWork(pes: seq<Phase>)
    ensures TotalWork(pes) == 0 <==> forall p :: 0 <= p < |pes| ==> pes[p] == Idle
    decreases pes
  {
    if pes != [] {
      NoWork(pes[1..]);
      if TotalWork(pes) == 0 {
        forall p | 0 <= p < |pes| ensures pes[p] == Idle { assert p > 0 ==> pes[p] == pes[1..][p - 1]; }
      } else if Work(pes[0]) == 0 {
        var p :| 0 <= p < |pes[1..]| && pes[1..][p] != Idle;
        assert pes[p + 1] != Idle;
      }
    }
  }

  /** No new call for the lock. */
  predicate Leaves(a: Action) {
    a.Begin? ==> a.call == RUnlock || a.call == WUnlock
  }

  predicate Nearer(s: State, s': State) {
    || TotalWork(s'.pes) < TotalWork(s.pes)
    || (s'.word == s.word && TotalWork(s'.pes) == TotalWork(s.pes) && Stale(s'.pes, s'.word) < Stale(s.pes, s.word))
  }

  lemma StepNearer(s: State, a: Action)
    requires Inv(s) && Enabled(s, a) && Leaves(a)
    requires a.Poll? ==> if s.pes[a.p].Draining? then Readers(s.pes) == {} else Writers(s.pes) == {}
    ensures Nearer(s, Step(s, a))
  {
    WordMeans(s);
    var s' := Step(s, a);
    assert s'.pes == s.pes[a.p := s'.pes[a.p]];
    TotalsUpdated(s.pes, a.p, s'.pes[a.p], s.word);
  }

  /** While a PE is not idle, somebody can get nearer. */
  lemma SomebodyMoves(s: State, p: nat) returns (a: Action)
    requires Inv(s) && p < |s.pes| && s.pes[p] != Idle
    ensures Enabled(s, a) && Leaves(a) && Nearer(s, Step(s, a))
  {
    if r :| r in Readers(s.pes) {
      a := if s.pes[r].Reading? then Begin(r, RUnlock) else Swap(r);
      assert PeOk(s.pes[r], Readers(s.pes));
    } else if w :| w in Writers(s.pes) {
      a := if s.pes[w].Draining? then Poll(w) else if s.pes[w].Writing? then Begin(w, WUnlock) else Swap(w);
      assert PeOk(s.pes[w], Readers(s.pes));
    } else {
      assert !HoldsRead(s.pes[p]) && !HoldsWrite(s.pes[p]) by {
        assert HoldsRead(s.pes[p]) ==> p in Readers(s.pes);
        assert HoldsWrite(s.pes[p]) ==> p in Writers(s.pes);
      }
      a := if HasWriter(s.pes[p].seen) then Poll(p) else Swap(p);
    }
    StepNearer(s, a);
  }

  lemma {:induction false} AllLeave(s: State) returns (more: seq<Action>)
    requires Inv(s)
    ensures IsRun(s, more) && Inv(After(s, more)) && |After(s, more).pes| == |s.pes|
    ensures forall i :: 0 <= i < |more| ==> Leaves(more[i])
    ensures forall p :: 0 <= p < |s.pes| ==> After(s, more).pes[p] == Idle
    decreases TotalWork(s.pes), Stale(s.pes, s.word)
  {
    NoWork(s.pes);
    if p: nat :| p < |s.pes| && s.pes[p] != Idle {
      var a := SomebodyMoves(s, p);
      Keep(s, a);
      var rest := AllLeave(Step(s, a));
      more := [a] + rest;
      assert more[1..] == rest;
    } else {
      more := [];
    }
  }

  lemma {:induction false} RunJoins(s: State, run: seq<Action>, more: seq<Action>)
    requires IsRun(s, run) && IsRun(After(s, run), more)
    ensures IsRun(s, run + more) && After(s, run + more) == After(After(s, run), more)
    decreases run
  {
    if run == [] {
      assert run + more == more;
    } else {
      RunJoins(Step(s, run[0]), run[1..], more);
      assert (run + more)[1..] == run[1..] + more;
    }
  }

  /** From every reachable state, with no new calls, every PE can get the lock it waits for and leave
      again, and then the word is 0 as at the start. */
  lemma NothingWedged(n: nat, run: seq<Action>) returns (more: seq<Action>)
    requires n < 0x8000_0000_0000_0000 && IsRun(Initial(n), run)
    ensures forall i :: 0 <= i < |more| ==> Leaves(more[i])
    ensures IsRun(Initial(n), run + more) && After(Initial(n), run + more) == Initial(n)
  {
    InitialInv(n);
    RunKeeps(Initial(n), run);
    more := AllLeave(After(Initial(n), run));
    RunJoins(Initial(n), run, more);
    var s := After(Initial(n), run + more);
    assert Readers(s.pes) == {} && Writers(s.pes) == {};
  }
}
