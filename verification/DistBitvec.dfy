/** The distributed bit vector of src/hvr_dist_bitvec.cpp: rows of words, a sequence number in
    front of each, and readers that skip a copy by it (`handle_existing_subscription` in
    src/hoover.cpp).

    One row: any number of writers set and clear its bits, each change followed by a count; a
    reader fetches the count and then copies the words. A word is the set of its bits. */
module DistBitvec {
  import opened Sets

  const BITS_PER_ELE: nat := 64
  /** Of an `unsigned`, by which the source takes a bit of a 64-bit word. */
  const BITS_PER_WORD: nat := 32

  function WordOf(coord: nat): nat {
    coord / BITS_PER_ELE
  }

  function BitOf(coord: nat): nat {
    coord % BITS_PER_WORD
  }

  /** `counting[p]`: writer `p` has changed a bit and not yet counted. */
  datatype State = State(dim1: nat, words: seq<set<nat>>, seqNo: nat, counting: seq<bool>,
                         copy: seq<set<nat>>, copySeqNo: nat, toCopy: set<nat>)

  /** `hvr_dist_bitvec_set` and `hvr_dist_bitvec_clear` are a `Set` or `Clear` and a `Count`;
      `hvr_dist_bitvec_copy_locally` is a `Fetch` and a `CopyWord` of each word. */
  datatype Action =
    | Set(p: nat, coord: nat)
    | Clear(p: nat, coord: nat)
    | Count(p: nat)
    | Fetch
    | CopyWord(w: nat)

  predicate Shaped(s: State) {
    |s.words| == |s.copy| == (s.dim1 + BITS_PER_ELE - 1) / BITS_PER_ELE
  }

  predicate Enabled(s: State, a: Action) {
    && Shaped(s)
    && match a
       case Set(p, coord) => p < |s.counting| && !s.counting[p] && coord < s.dim1
       case Clear(p, coord) => p < |s.counting| && !s.counting[p] && coord < s.dim1
       case Count(p) => p < |s.counting| && s.counting[p]
       case Fetch => s.toCopy == {}
       case CopyWord(w) => w in s.toCopy && w < |s.words|
  }

  lemma WordInRow(s: State, coord: nat)
    requires Shaped(s) && coord < s.dim1
    ensures WordOf(coord) < |s.words|
  {
  }

  function Step(s: State, a: Action): State
    requires Enabled(s, a)
  {
    match a
    case Set(p, coord) =>
      WordInRow(s, coord);
      var w := WordOf(coord);
      s.(words := s.words[w := s.words[w] + {BitOf(coord)}], counting := s.counting[p := true])
    case Clear(p, coord) =>
      WordInRow(s, coord);
      var w := WordOf(coord);
      s.(words := s.words[w := s.words[w] - {BitOf(coord)}], counting := s.counting[p := true])
    case Count(p) => s.(seqNo := s.seqNo + 1, counting := s.counting[p := false])
    case Fetch => s.(copySeqNo := s.seqNo, toCopy := Below(|s.words|))
    case CopyWord(w) => s.(copy := s.copy[w := s.words[w]], toCopy := s.toCopy - {w})
  }

  /** A zeroed row, and a fresh local copy. */
  function Initial(dim1: nat, writers: nat): State {
    var words := (dim1 + BITS_PER_ELE - 1) / BITS_PER_ELE;
    State(dim1, seq(words, _ => {}), 0, seq(writers, _ => false), seq(words, _ => {}), 0, {})
  }

  /** `hvr_dist_bitvec_local_subcopy_contains` */
  predicate Contains(words: seq<set<nat>>, coord: nat) {
    WordOf(coord) < |words| && BitOf(coord) in words[WordOf(coord)]
  }

  // ----- runs -----

  /** A run: any actions of any PEs, in any interleaving, each possible when it happens. */
  predicate IsRun(s: State, run: seq<Action>)
    decreases |run|, 0
  {
    run == [] || (IsRun(s, Before(run)) && Enabled(After(s, Before(run)), run[|run| - 1]))
  }

  function After(s: State, run: seq<Action>): State
    requires IsRun(s, run)
    decreases |run|, 1
  {
    if run == [] then s else Step(After(s, Before(run)), run[|run| - 1])
  }

  function Before(run: seq<Action>): (r: seq<Action>)
    requires run != []
    ensures |r| == |run| - 1
  {
    run[..|run| - 1]
  }

  // ----- what a run makes of a bit -----

  /** The two coordinates have one bit between them. */
  predicate Alias(c: nat, d: nat) {
    c / 64 == d / 64 && c % 32 == d % 32
  }

  predicate SetsBit(a: Action, coord: nat) {
    a.Set? && Alias(a.coord, coord)
  }

  predicate ClearsBit(a: Action, coord: nat) {
    a.Clear? && Alias(a.coord, coord)
  }

  /** A set of the coordinate, or its alias, is followed by no clear. */
  predicate LeftSet(run: seq<Action>, coord: nat) {
    exists i :: 0 <= i < |run| && SetsBit(run[i], coord) && forall j :: i < j < |run| ==> !ClearsBit(run[j], coord)
  }

  lemma LeftSetBy(run: seq<Action>, coord: nat)
    requires run != []
    ensures var a := run[|run| - 1];
      LeftSet(run, coord) <==> SetsBit(a, coord) || (LeftSet(Before(run), coord) && !ClearsBit(a, coord))
  {
    var r, n := Before(run), |run| - 1;
    if LeftSet(run, coord) {
      var i :| 0 <= i < |run| && SetsBit(run[i], coord) && forall j :: i < j < |run| ==> !ClearsBit(run[j], coord);
      if i < n { assert SetsBit(r[i], coord) && forall j :: i < j < n ==> !ClearsBit(r[j], coord); }
    }
    if LeftSet(r, coord) && !ClearsBit(run[n], coord) {
      var i :| 0 <= i < n && SetsBit(r[i], coord) && forall j :: i < j < n ==> !ClearsBit(r[j], coord);
      assert SetsBit(run[i], coord) && forall j :: i < j < |run| ==> run[j] == if j == n then run[n] else r[j];
    }
  }

  lemma {:induction false} RowShaped(dim1: nat, writers: nat, run: seq<Action>)
    requires IsRun(Initial(dim1, writers), run)
    ensures var s := After(Initial(dim1, writers), run);
      Shaped(s) && s.dim1 == dim1 && |s.counting| == writers
    decreases |run|
  {
    if run != [] { RowShaped(dim1, writers, Before(run)); }
  }

  /** A bit of the row is set exactly if the last change of it was a set. */
  lemma {:induction false} RowMeans(dim1: nat, writers: nat, run: seq<Action>, coord: nat)
    requires IsRun(Initial(dim1, writers), run) && coord < dim1
    ensures Contains(After(Initial(dim1, writers), run).words, coord) <==> LeftSet(run, coord)
    decreases |run|
  {
    RowShaped(dim1, writers, run);
    if run != [] {
      RowShaped(dim1, writers, Before(run));
      RowMeans(dim1, writers, Before(run), coord);
      LeftSetBy(run, coord);
    }
  }

  // ----- the sequence number -----

  function Counts(run: seq<Action>): nat
    decreases |run|
  {
    if run == [] then 0 else Counts(Before(run)) + if run[|run| - 1].Count? then 1 else 0
  }

  /** How much of the run had happened when the reader last fetched the number. */
  function LastFetch(run: seq<Action>): (n: nat)
    ensures n <= |run|
    decreases |run|
  {
    if run == [] then 0 else if run[|run| - 1].Fetch? then |run| else LastFetch(Before(run))
  }

  /** How much of the run had happened when word `w` was last copied. */
  function LastCopy(run: seq<Action>, w: nat): (n: nat)
    ensures n <= |run|
    decreases |run|
  {
    if run == [] then 0 else if run[|run| - 1] == CopyWord(w) then |run| else LastCopy(Before(run), w)
  }

  lemma {:induction false} PrefixRuns(s: State, run: seq<Action>, n: nat)
    requires IsRun(s, run) && n <= |run|
    ensures IsRun(s, run[..n])
    decreases |run|
  {
    if n < |run| {
      PrefixRuns(s, Before(run), n);
      assert Before(run)[..n] == run[..n];
    } else {
      assert run[..n] == run;
    }
  }

  lemma {:induction false} NumbersMean(s: State, run: seq<Action>)
    requires IsRun(s, run) && s.seqNo == s.copySeqNo == 0
    ensures After(s, run).seqNo == Counts(run) && After(s, run).copySeqNo == Counts(run[..LastFetch(run)])
    decreases |run|
  {
    if run != [] {
      var r := Before(run);
      NumbersMean(s, r);
      assert run[..|run|] == run && run[..LastFetch(r)] == r[..LastFetch(r)];
    }
  }

  /** What of the row word `w` of the reader's copy is. */
  predicate CopyIs(s: State, old_s: State, w: nat) {
    w < |s.words| == |s.copy| ==> w < |old_s.words| && s.copy[w] == old_s.words[w]
  }

  lemma {:induction false} CopyMeans(dim1: nat, writers: nat, run: seq<Action>, w: nat)
    requires IsRun(Initial(dim1, writers), run)
    ensures IsRun(Initial(dim1, writers), run[..LastCopy(run, w)])
    ensures CopyIs(After(Initial(dim1, writers), run), After(Initial(dim1, writers), run[..LastCopy(run, w)]), w)
    decreases |run|
  {
    PrefixRuns(Initial(dim1, writers), run, LastCopy(run, w));
    RowShaped(dim1, writers, run);
    if run != [] {
      var r := Before(run);
      if LastCopy(run, w) == |run| {
        assert run[..|run|] == run;
      } else {
        CopyMeans(dim1, writers, r, w);
        RowShaped(dim1, writers, r);
        assert run[..LastCopy(r, w)] == r[..LastCopy(r, w)];
      }
    }
  }

  lemma {:induction false} CopiedSince(dim1: nat, writers: nat, run: seq<Action>, w: nat)
    requires IsRun(Initial(dim1, writers), run)
    ensures var s := After(Initial(dim1, writers), run);
      w in s.toCopy || LastFetch(run) <= LastCopy(run, w) || w >= |s.words|
    decreases |run|
  {
    if run != [] {
      CopiedSince(dim1, writers, Before(run), w);
      RowShaped(dim1, writers, run);
      RowShaped(dim1, writers, Before(run));
    }
  }

  lemma {:induction false} NoMoreCounts(run: seq<Action>, n: nat, j: nat)
    requires n <= j < |run| && Counts(run) <= Counts(run[..n])
    ensures !run[j].Count?
    decreases |run|
  {
    var r := Before(run);
    CountsGrow(r, n);
    assert r[..n] == run[..n];
    if j < |r| { NoMoreCounts(r, n, j); }
  }

  lemma {:induction false} CountsGrow(run: seq<Action>, n: nat)
    requires n <= |run|
    ensures Counts(run[..n]) <= Counts(run)
    decreases |run|
  {
    if n < |run| {
      CountsGrow(Before(run), n);
      assert Before(run)[..n] == run[..n];
    } else {
      assert run[..n] == run;
    }
  }


  /** A writer that is not counting has counted each change. */
  lemma {:induction false} CountedAll(dim1: nat, writers: nat, run: seq<Action>, i: nat)
    requires IsRun(Initial(dim1, writers), run) && i < |run| && (run[i].Set? || run[i].Clear?)
    ensures run[i].p < |After(Initial(dim1, writers), run).counting|
    ensures After(Initial(dim1, writers), run).counting[run[i].p] || exists j :: i < j < |run| && run[j] == Count(run[i].p)
    decreases |run|
  {
    RowShaped(dim1, writers, run);
    var r := Before(run);
    RowShaped(dim1, writers, r);
    if i < |r| {
      CountedAll(dim1, writers, r, i);
      if j :| i < j < |r| && r[j] == Count(run[i].p) { assert run[j] == Count(run[i].p); }
    }
  }

  /** The change at `i` has been counted. */
  predicate Counted(run: seq<Action>, i: nat) {
    i < |run| && (run[i].Set? || run[i].Clear?) && exists j :: i < j < |run| && run[j] == Count(run[i].p)
  }

  /** Where the check on the sequence number skips another copy, the copy is good: for each
      coordinate it says what the first `n` steps of the run made of it, for some `n` behind every
      counted change; and with no writer between a change and its count, what all of them did. */
  lemma SkipIsSafe(dim1: nat, writers: nat, run: seq<Action>, coord: nat) returns (n: nat)
    requires IsRun(Initial(dim1, writers), run) && coord < dim1
    requires After(Initial(dim1, writers), run).toCopy == {}
    requires After(Initial(dim1, writers), run).seqNo <= After(Initial(dim1, writers), run).copySeqNo
    ensures n <= |run| && forall i: nat :: Counted(run, i) ==> i < n
    ensures Contains(After(Initial(dim1, writers), run).copy, coord) <==> LeftSet(run[..n], coord)
    ensures var s := After(Initial(dim1, writers), run);
      (forall p :: 0 <= p < |s.counting| ==> !s.counting[p]) ==> (Contains(s.copy, coord) <==> LeftSet(run, coord))
  {
    var s, w := After(Initial(dim1, writers), run), WordOf(coord);
    RowShaped(dim1, writers, run);
    WordInRow(s, coord);
    NumbersMean(Initial(dim1, writers), run);
    CopyMeans(dim1, writers, run, w);
    CopiedSince(dim1, writers, run, w);
    n := LastCopy(run, w);
    RowMeans(dim1, writers, run[..n], coord);
    forall i: nat | Counted(run, i) ensures i < n {
      var j :| i < j < |run| && run[j] == Count(run[i].p);
      if j >= LastFetch(run) { NoMoreCounts(run, LastFetch(run), j); }
    }
    if forall p :: 0 <= p < |s.counting| ==> !s.counting[p] {
      forall i | n <= i < |run| ensures !run[i].Set? && !run[i].Clear? {
        if run[i].Set? || run[i].Clear? {
          CountedAll(dim1, writers, run, i);
          assert Counted(run, i);
        }
      }
      LeftSetSame(run, n, coord);
    }
  }

  lemma LeftSetSame(run: seq<Action>, n: nat, coord: nat)
    requires n <= |run| && forall i :: n <= i < |run| ==> !run[i].Set? && !run[i].Clear?
    ensures LeftSet(run, coord) <==> LeftSet(run[..n], coord)
  {
    var r := run[..n];
    if LeftSet(run, coord) {
      var i :| 0 <= i < |run| && SetsBit(run[i], coord) && forall j :: i < j < |run| ==> !ClearsBit(run[j], coord);
      assert SetsBit(r[i], coord) && forall j :: i < j < n ==> r[j] == run[j];
    }
    if LeftSet(r, coord) {
      var i :| 0 <= i < n && SetsBit(r[i], coord) && forall j :: i < j < n ==> !ClearsBit(r[j], coord);
      assert SetsBit(run[i], coord) && forall j :: i < j < |run| ==> (j < n && run[j] == r[j]) || !run[j].Clear?;
    }
  }

  // ----- bits that two coordinates share -----

  /** The last change of this very coordinate was a set. */
  predicate OwnLeftSet(run: seq<Action>, coord: nat) {
    exists i :: 0 <= i < |run| && run[i].Set? && run[i].coord == coord
      && forall j :: i < j < |run| ==> !(run[j].Clear? && run[j].coord == coord)
  }

  /** The row says of each coordinate what its own changes made of it. */
  ghost predicate RowExact(dim1: nat, writers: nat, run: seq<Action>) {
    IsRun(Initial(dim1, writers), run) ==>
      forall c: nat {:trigger OwnLeftSet(run, c)} :: c < dim1 ==>
        (Contains(After(Initial(dim1, writers), run).words, c) <==> OwnLeftSet(run, c))
  }

  /** Coordinates 32 apart have one bit where a word has 64: whatever the run, the rows are right
      for up to 32 of them, and for no more. */
  lemma RowExactIff(dim1: nat)
    ensures (forall writers, run :: RowExact(dim1, writers, run)) <==> dim1 <= 32
  {
    if dim1 <= 32 {
      forall writers, run ensures RowExact(dim1, writers, run) { SmallRowExact(dim1, writers, run); }
    } else {
      assert !RowExact(dim1, 1, [Set(0, 0)]) by { SharedBit(dim1); }
    }
  }

  lemma {:induction false} CoordsBelow(dim1: nat, writers: nat, run: seq<Action>, i: nat)
    requires IsRun(Initial(dim1, writers), run) && i < |run| && (run[i].Set? || run[i].Clear?)
    ensures run[i].coord < dim1
    decreases |run|
  {
    RowShaped(dim1, writers, Before(run));
    if i < |run| - 1 { CoordsBelow(dim1, writers, Before(run), i); }
  }

  lemma SmallRowExact(dim1: nat, writers: nat, run: seq<Action>)
    requires dim1 <= 32
    ensures RowExact(dim1, writers, run)
  {
    if IsRun(Initial(dim1, writers), run) {
      forall i: nat | i < |run| && (run[i].Set? || run[i].Clear?) ensures run[i].coord < dim1 {
        CoordsBelow(dim1, writers, run, i);
      }
      forall c: nat | c < dim1
        ensures Contains(After(Initial(dim1, writers), run).words, c) <==> OwnLeftSet(run, c)
      {
        RowMeans(dim1, writers, run, c);
        NoAliases(dim1, run, c);
      }
    }
  }

  lemma NoAliases(dim1: nat, run: seq<Action>, c: nat)
    requires c < dim1 <= 32
    requires forall i: nat :: i < |run| && (run[i].Set? || run[i].Clear?) ==> run[i].coord < dim1
    ensures LeftSet(run, c) <==> OwnLeftSet(run, c)
  {
    forall i: nat | i < |run|
      ensures SetsBit(run[i], c) <==> run[i].Set? && run[i].coord == c
      ensures ClearsBit(run[i], c) <==> run[i].Clear? && run[i].coord == c
    {
    }
    if LeftSet(run, c) {
      var i :| 0 <= i < |run| && SetsBit(run[i], c) && forall j :: i < j < |run| ==> !ClearsBit(run[j], c);
      assert run[i].Set? && run[i].coord == c;
    }
  }

  /** Setting coordinate 0 sets coordinate 32. */
  lemma SharedBit(dim1: nat)
    requires dim1 > 32
    ensures IsRun(Initial(dim1, 1), [Set(0, 0)])
    ensures Contains(After(Initial(dim1, 1), [Set(0, 0)]).words, 32) && !OwnLeftSet([Set(0, 0)], 32)
  {
    var run := [Set(0, 0)];
    assert Before(run) == [] && IsRun(Initial(dim1, 1), []);
    assert Enabled(After(Initial(dim1, 1), []), run[0]);
    RowMeans(dim1, 1, run, 32);
    assert SetsBit(run[0], 32);
  }
}
