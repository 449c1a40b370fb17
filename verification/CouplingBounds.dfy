/** Whom the coupling rounds of src/hoover.cpp may bring together: nobody but those who asked for
    each other, directly or through others. */
module CouplingBounds {
  import opened Coupling

  /** All of `s` is on `e`'s side of `x`. */
  predicate OnSide(x: set<nat>, e: nat, s: set<nat>) {
    forall q :: q in s ==> (q in x <==> e in x)
  }

  predicate SameSide(x: set<nat>, a: nat, b: nat) {
    a in x <==> b in x
  }

  /** No one asks across the border of `x`. */
  predicate AsksWithin(x: set<nat>, run: seq<Action>) {
    forall i :: 0 <= i < |run| && run[i].Ask? ==> SameSide(x, run[i].p, run[i].q)
  }

  predicate PhaseWithin(x: set<nat>, p: nat, phase: Phase) {
    match phase
    case WaitAck(target, expected) => SameSide(x, p, target) && SameSide(x, p, expected)
    case Win(other, _) => SameSide(x, p, other)
    case Share(todo) => OnSide(x, p, todo)
    case _ => true
  }

  predicate PeWithin(x: set<nat>, p: nat, pe: Pe) {
    && SameSide(x, p, pe.root) && OnSide(x, p, pe.coupled) && OnSide(x, p, pe.prev) && OnSide(x, p, pe.want)
    && PhaseWithin(x, p, pe.phase)
  }

  predicate PesWithin(x: set<nat>, pes: seq<Pe>) {
    forall p {:trigger PeWithin(x, p, pes[p])} :: 0 <= p < |pes| ==> PeWithin(x, p, pes[p])
  }

  predicate RequestsWithin(x: set<nat>, requests: set<Request>) {
    forall q :: q in requests ==> SameSide(x, q.from, q.to)
  }

  predicate AcksWithin(x: set<nat>, acks: set<Ack>) {
    forall a :: a in acks ==> SameSide(x, a.from, a.to) && SameSide(x, a.from, a.root)
  }

  predicate InfosWithin(x: set<nat>, infos: set<Info>) {
    forall i :: i in infos ==> SameSide(x, i.from, i.to) && OnSide(x, i.to, i.coupled) && OnSide(x, i.to, i.want)
  }

  predicate WantsWithin(x: set<nat>, wants: set<Want>) {
    forall w :: w in wants ==> SameSide(x, w.from, w.to) && OnSide(x, w.to, w.want)
  }

  predicate FinalsWithin(x: set<nat>, finals: set<Final>) {
    forall f :: f in finals ==> SameSide(x, f.from, f.to) && OnSide(x, f.to, f.coupled)
  }

  /** Nothing a PE holds, and no message, crosses the border of `x`. */
  predicate NoneCross(x: set<nat>, s: State) {
    && PesWithin(x, s.pes) && RequestsWithin(x, s.requests) && AcksWithin(x, s.acks)
    && InfosWithin(x, s.infos) && WantsWithin(x, s.wants) && FinalsWithin(x, s.finals)
  }

  lemma KeepPeWithin(x: set<nat>, s: State, a: Action)
    requires NoneCross(x, s) && Enabled(s, a) && (a.Ask? ==> SameSide(x, a.p, a.q))
    ensures |Step(s, a).pes| == |s.pes| && PeWithin(x, a.p, Step(s, a).pes[a.p])
    ensures forall p :: 0 <= p < |s.pes| && p != a.p ==> Step(s, a).pes[p] == s.pes[p]
  {
    assert PeWithin(x, a.p, s.pes[a.p]);
  }

  lemma KeepMessagesWithin(x: set<nat>, s: State, a: Action)
    requires NoneCross(x, s) && Enabled(s, a)
    ensures RequestsWithin(x, Step(s, a).requests) && AcksWithin(x, Step(s, a).acks)
    ensures InfosWithin(x, Step(s, a).infos) && WantsWithin(x, Step(s, a).wants) && FinalsWithin(x, Step(s, a).finals)
  {
    assert PeWithin(x, a.p, s.pes[a.p]);
  }

  lemma KeepWithin(x: set<nat>, s: State, a: Action)
    requires NoneCross(x, s) && Enabled(s, a) && (a.Ask? ==> SameSide(x, a.p, a.q))
    ensures NoneCross(x, Step(s, a))
  {
    KeepPeWithin(x, s, a);
    KeepMessagesWithin(x, s, a);
    var s' := Step(s, a);
    forall p {:trigger PeWithin(x, p, s'.pes[p])} | 0 <= p < |s'.pes| ensures PeWithin(x, p, s'.pes[p]) {
      assert p != a.p ==> PeWithin(x, p, s.pes[p]);
    }
  }

  lemma {:induction false} RunWithin(x: set<nat>, s: State, run: seq<Action>)
    requires NoneCross(x, s) && IsRun(s, run) && AsksWithin(x, run)
    ensures NoneCross(x, After(s, run)) && |After(s, run).pes| == |s.pes|
    decreases run
  {
    if run != [] {
      assert run[0].Ask? ==> SameSide(x, run[0].p, run[0].q);
      KeepWithin(x, s, run[0]);
      forall i | 0 <= i < |run[1..]| && run[1..][i].Ask? ensures SameSide(x, run[1..][i].p, run[1..][i].q) {
        assert run[1..][i] == run[i + 1];
      }
      RunWithin(x, Step(s, run[0]), run[1..]);
    }
  }

  /** Whatever the interleaving: if nobody asks across the border of `x`, then every set a PE has
      adopted or works on, every set on its way and every PE's root is on its side of the border. */
  lemma NoStrangers(n: nat, run: seq<Action>, x: set<nat>)
    requires IsRun(Initial(n), run)
    requires forall i :: 0 <= i < |run| && run[i].Ask? ==> (run[i].p in x <==> run[i].q in x)
    ensures var s := After(Initial(n), run);
      && |s.pes| == n
      && (forall p, q :: 0 <= p < n && (q in s.pes[p].prev || q in s.pes[p].coupled || q == s.pes[p].root) ==>
            (q in x <==> p in x))
      && (forall i, q :: i in s.infos && q in i.coupled ==> (q in x <==> i.to in x))
      && (forall f, q :: f in s.finals && q in f.coupled ==> (q in x <==> f.to in x))
  {
    assert AsksWithin(x, run);
    assert NoneCross(x, Initial(n));
    RunWithin(x, Initial(n), run);
    var s := After(Initial(n), run);
    forall p | 0 <= p < n ensures PeWithin(x, p, s.pes[p]) {
    }
  }
}
