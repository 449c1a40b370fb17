/** Batching in front of a mailbox: one buffer per target PE
    (src/hvr_mailbox_buffer.cpp). A batch goes through the mailbox as one message,
    the bytes of its messages one after another. */
module MailboxBuffer {
  import opened Ring
  import opened Mailbox

  /** A message of the buffer's one size. */
  type Record = seq<Byte>

  function Flatten<T>(batches: seq<seq<T>>): seq<T> {
    if batches == [] then [] else Flatten(batches[..|batches| - 1]) + batches[|batches| - 1]
  }

  lemma FlattenPosted<T>(batches: seq<seq<T>>, batch: seq<T>)
    ensures Flatten(batches + [batch]) == Flatten(batches) + batch
  {
    assert (batches + [batch])[..|batches|] == batches;
  }

  predicate OfSize(records: seq<Record>, size: nat) {
    forall i :: 0 <= i < |records| ==> |records[i]| == size
  }

  /** A batch as it was before it was sent. */
  function Unpack(msg: Message, size: nat): seq<Record> {
    if size == 0 || |msg| < size then [] else Unpack(msg[..|msg| - size], size) + [msg[|msg| - size..]]
  }

  lemma UnpackLast(bytes: Message, last: Record, size: nat)
    requires |last| == size > 0
    ensures Unpack(bytes + last, size) == Unpack(bytes, size) + [last]
  {
    assert (bytes + last)[..|bytes|] == bytes && (bytes + last)[|bytes|..] == last;
  }

  /** The records of a batch come back out of its bytes. */
  lemma {:induction false} UnpackPacked(batch: seq<Record>, size: nat)
    requires size > 0 && OfSize(batch, size)
    ensures Unpack(Flatten(batch), size) == batch
  {
    if batch != [] {
      var rest, last := batch[..|batch| - 1], batch[|batch| - 1];
      UnpackPacked(rest, size);
      UnpackLast(Flatten(rest), last, size);
    }
  }

  predicate AllOfSize(batches: seq<seq<Record>>, size: nat) {
    forall i :: 0 <= i < |batches| ==> OfSize(batches[i], size)
  }

  function PackAll(batches: seq<seq<Record>>): (msgs: seq<Message>)
    ensures |msgs| == |batches|
  {
    seq(|batches|, i requires 0 <= i < |batches| => Flatten(batches[i]))
  }

  function UnpackAll(msgs: seq<Message>, size: nat): seq<Record> {
    if msgs == [] then [] else UnpackAll(msgs[..|msgs| - 1], size) + Unpack(msgs[|msgs| - 1], size)
  }

  lemma UnpackAllLast(msgs: seq<Message>, msg: Message, size: nat)
    ensures UnpackAll(msgs + [msg], size) == UnpackAll(msgs, size) + Unpack(msg, size)
  {
    assert (msgs + [msg])[..|msgs|] == msgs;
  }

  lemma {:induction false} UnpackAllPacked(batches: seq<seq<Record>>, size: nat)
    requires size > 0 && AllOfSize(batches, size)
    ensures UnpackAll(PackAll(batches), size) == Flatten(batches)
  {
    if batches != [] {
      var rest, last := batches[..|batches| - 1], batches[|batches| - 1];
      UnpackAllPacked(rest, size);
      UnpackPacked(last, size);
      UnpackAllLast(PackAll(rest), Flatten(last), size);
      assert PackAll(batches) == PackAll(rest) + [Flatten(last)];
    }
  }

  lemma {:induction false} UnpackAllJoins(a: seq<Message>, b: seq<Message>, size: nat)
    ensures UnpackAll(a + b, size) == UnpackAll(a, size) + UnpackAll(b, size)
    decreases |b|
  {
    if b == [] {
      assert a + b == a;
    } else {
      var rest, last := b[..|b| - 1], b[|b| - 1];
      UnpackAllJoins(a, rest, size);
      UnpackAllLast(a + rest, last, size);
      UnpackAllLast(rest, last, size);
      assert a + b == (a + rest) + [last] && b == rest + [last];
    }
  }

  /** What is kept of one target: nothing accepted is lost, repeated or reordered, the batches
      posted and then the buffer are the accepted messages. */
  ghost predicate TargetOk(accepted: seq<Record>, posted: seq<seq<Record>>, buffered: seq<Record>, gaveUp: bool, size: nat) {
    AllOfSize(posted, size) && OfSize(buffered, size) && (!gaveUp ==> accepted == Flatten(posted) + buffered)
  }

  lemma PostedOk(accepted: seq<Record>, posted: seq<seq<Record>>, buffered: seq<Record>, gaveUp: bool, size: nat)
    requires TargetOk(accepted, posted, buffered, gaveUp, size)
    ensures TargetOk(accepted, posted + [buffered], [], gaveUp, size)
  {
    FlattenPosted(posted, buffered);
  }

  lemma BufferedOk(accepted: seq<Record>, posted: seq<seq<Record>>, buffered: seq<Record>, gaveUp: bool, size: nat,
                   msg: Record)
    requires TargetOk(accepted, posted, buffered, gaveUp, size) && |msg| == size
    ensures TargetOk(accepted + [msg], posted, buffered + [msg], gaveUp, size)
  {
  }

  /** What is answered for a target on the `i`-th try of a flush: by the mailbox, or by the callback before it. */
  type Answers = (nat, nat) -> bool

  /** The loop for target `p` ends with its `i`-th try at the latest. */
  predicate Ends(posts: Answers, aborts: Answers, p: nat, i: nat) {
    posts(p, i) || (i > 0 && aborts(p, i))
  }

  ghost predicate FirstEnd(posts: Answers, aborts: Answers, p: nat, i: nat) {
    Ends(posts, aborts, p, i) && forall j: nat :: j < i ==> !Ends(posts, aborts, p, j)
  }

  /** The try the loop ends with is a success. */
  ghost predicate GetsThrough(posts: Answers, aborts: Answers, p: nat) {
    exists i: nat :: FirstEnd(posts, aborts, p, i) && posts(p, i)
  }

  /** A target is given up only when the callback says so and the mailbox refuses once more;
      a mailbox that takes the batch at once is never given up. */
  lemma GivesUpMeans(posts: Answers, aborts: Answers, p: nat, last: nat)
    requires Ends(posts, aborts, p, last)
    ensures GetsThrough(posts, aborts, p) <==> !exists i: nat :: FirstEnd(posts, aborts, p, i) && aborts(p, i) && !posts(p, i)
    ensures posts(p, 0) ==> GetsThrough(posts, aborts, p)
    ensures !GetsThrough(posts, aborts, p) ==> exists i :: 0 < i <= last && aborts(p, i) && !posts(p, i)
  {
    var i: nat := 0;
    while !Ends(posts, aborts, p, i)
      invariant i <= last && forall j: nat :: j < i ==> !Ends(posts, aborts, p, j)
      decreases last - i
    {
      i := i + 1;
    }
    assert FirstEnd(posts, aborts, p, i);
    forall k: nat | FirstEnd(posts, aborts, p, k) ensures k == i {
    }
  }

  class MailboxBuffer {
    const npes: nat
    const msg_size: nat
    const buffer_size_per_pe: nat
    /** Per target, room for `buffer_size_per_pe` messages and how many there are. */
    var buffers: seq<seq<Record>>
    var nbuffered_per_pe: seq<nat>
    /** Per target: the batches the mailbox took, the messages accepted, and
        whether a flush has given up on messages. */
    ghost var posted: seq<seq<seq<Record>>>
    ghost var accepted: seq<seq<Record>>
    ghost var gaveUp: seq<bool>

    ghost predicate Shaped()
      reads this
    {
      && buffer_size_per_pe > 0 && msg_size > 0
      && |buffers| == |nbuffered_per_pe| == |posted| == |accepted| == |gaveUp| == npes
      && forall p :: 0 <= p < npes ==>
           nbuffered_per_pe[p] <= buffer_size_per_pe == |buffers[p]|
    }

    /** The messages buffered for a target, in order. */
    ghost function Buffered(p: nat): (b: seq<Record>)
      requires Shaped() && p < npes
      reads this
      ensures |b| == nbuffered_per_pe[p]
    {
      buffers[p][..nbuffered_per_pe[p]]
    }

    ghost predicate Valid()
      reads this
    {
      Shaped() && forall p {:trigger TargetValid(p)} :: 0 <= p < npes ==> TargetValid(p)
    }

    ghost predicate TargetValid(p: nat)
      requires Shaped() && p < npes
      reads this
    {
      TargetOk(accepted[p], posted[p], Buffered(p), gaveUp[p], msg_size)
    }

    /** `hvr_mailbox_buffer_init` */
    constructor (npes: nat, msg_size: nat, buffer_size_per_pe: nat)
      requires msg_size > 0 && buffer_size_per_pe > 0
      ensures Valid() && this.npes == npes && this.msg_size == msg_size && this.buffer_size_per_pe == buffer_size_per_pe
      ensures forall p :: 0 <= p < npes ==> accepted[p] == [] && posted[p] == [] && !gaveUp[p]
    {
      this.npes, this.msg_size, this.buffer_size_per_pe := npes, msg_size, buffer_size_per_pe;
      nbuffered_per_pe := seq(npes, _ => 0);
      buffers := seq(npes, _ => seq(buffer_size_per_pe, _ => seq(msg_size, _ => 0)));
      posted := seq(npes, _ => []);
      accepted := seq(npes, _ => []);
      gaveUp := seq(npes, _ => false);
    }

    /** The mailbox has taken the batch. */
    method Posted(target: nat)
      requires Valid() && target < npes
      modifies `posted, `nbuffered_per_pe
      ensures Valid() && nbuffered_per_pe == old(nbuffered_per_pe)[target := 0]
      ensures posted == old(posted)[target := old(posted)[target] + [old(Buffered(target))]]
    {
      assert TargetValid(target);
      PostedOk(accepted[target], posted[target], Buffered(target), gaveUp[target], msg_size);
      posted := posted[target := posted[target] + [Buffered(target)]];
      nbuffered_per_pe := nbuffered_per_pe[target := 0];
      forall p | 0 <= p < npes ensures TargetValid(p) {
        assert old(TargetValid(p));
        assert p == target ==> Buffered(p) == [];
      }
    }

    /** `hvr_mailbox_buffer_send`; `posts` is the mailbox's answer, should it be asked. */
    method Send(msg: Record, target: nat, posts: bool) returns (success: bool)
      requires Valid() && target < npes && |msg| == msg_size
      modifies this
      ensures Valid() && gaveUp == old(gaveUp)
      ensures success <==> old(nbuffered_per_pe[target]) < buffer_size_per_pe || posts
      ensures accepted == if success then old(accepted)[target := old(accepted)[target] + [msg]] else old(accepted)
      ensures posted == (if old(nbuffered_per_pe[target]) == buffer_size_per_pe && posts
        then old(posted)[target := old(posted)[target] + [old(Buffered(target))]] else old(posted))
    {
      if nbuffered_per_pe[target] == buffer_size_per_pe {
        if !posts { return false; }
        Posted(target);
      }
      label Room:
      var n := nbuffered_per_pe[target];
      ghost var before := Buffered(target);
      assert TargetValid(target);
      BufferedOk(accepted[target], posted[target], before, gaveUp[target], msg_size, msg);
      buffers := buffers[target := buffers[target][n := msg]];
      nbuffered_per_pe := nbuffered_per_pe[target := n + 1];
      accepted := accepted[target := accepted[target] + [msg]];
      assert Buffered(target) == before + [msg];
      forall p | 0 <= p < npes ensures TargetValid(p) {
        assert old@Room(TargetValid(p));
      }
      success := true;
    }

    /** One target's part of the flush. */
    method FlushTo(p: nat, posts: Answers, aborts: Answers, ghost last: nat)
      requires Valid() && p < npes && Ends(posts, aborts, p, last)
      modifies `posted, `gaveUp, `nbuffered_per_pe
      ensures Valid() && nbuffered_per_pe == old(nbuffered_per_pe)[p := 0]
      ensures posted == if old(nbuffered_per_pe[p]) > 0 && GetsThrough(posts, aborts, p)
                then old(posted)[p := old(posted)[p] + [old(Buffered(p))]] else old(posted)
      ensures gaveUp == if old(nbuffered_per_pe[p]) > 0 && !GetsThrough(posts, aborts, p)
                then old(gaveUp)[p := true] else old(gaveUp)
    {
      if nbuffered_per_pe[p] > 0 {
        var i: nat := 0;
        var success, abort := posts(p, 0), false;
        while !success && !abort
          invariant i <= last && success == posts(p, i) && (abort <==> i > 0 && aborts(p, i))
          invariant forall j: nat :: j < i ==> !Ends(posts, aborts, p, j)
          decreases last - i
        {
          i := i + 1;
          abort := aborts(p, i);
          success := posts(p, i);
        }
        assert Ends(posts, aborts, p, i);
        if success {
          assert FirstEnd(posts, aborts, p, i);
          Posted(p);
        } else {
          assert forall k: nat :: FirstEnd(posts, aborts, p, k) ==> k == i;
          assert TargetValid(p);
          gaveUp := gaveUp[p := true];
          nbuffered_per_pe := nbuffered_per_pe[p := 0];
          forall q | 0 <= q < npes ensures TargetValid(q) {
            assert old(TargetValid(q));
            assert q == p ==> Buffered(q) == [];
          }
        }
      }
    }

    /** `hvr_mailbox_buffer_flush`: each buffered batch is posted, once, but for the targets on
        which the callback gives up before the mailbox takes it. */
    method Flush(posts: Answers, aborts: Answers, ghost last: nat -> nat)
      requires Valid() && forall p: nat :: Ends(posts, aborts, p, last(p))
      modifies `posted, `gaveUp, `nbuffered_per_pe
      ensures Valid() && accepted == old(accepted)
      ensures forall p :: 0 <= p < npes ==> nbuffered_per_pe[p] == 0
      ensures forall p :: 0 <= p < npes ==>
        posted[p] == if old(nbuffered_per_pe)[p] > 0 && GetsThrough(posts, aborts, p)
                     then old(posted)[p] + [old(Buffered(p))] else old(posted)[p]
      ensures forall p :: 0 <= p < npes ==>
        (gaveUp[p] <==> old(gaveUp)[p] || (old(nbuffered_per_pe)[p] > 0 && !GetsThrough(posts, aborts, p)))
      ensures forall p :: 0 <= p < npes && !gaveUp[p] ==> accepted[p] == Flatten(posted[p])
    {
      var p := 0;
      while p < npes
        invariant 0 <= p <= npes && Valid()
        invariant forall q :: 0 <= q < p ==> nbuffered_per_pe[q] == 0
        invariant forall q :: 0 <= q < p ==>
          posted[q] == if old(nbuffered_per_pe)[q] > 0 && GetsThrough(posts, aborts, q)
                       then old(posted)[q] + [old(Buffered(q))] else old(posted)[q]
        invariant forall q :: 0 <= q < p ==>
          (gaveUp[q] <==> old(gaveUp)[q] || (old(nbuffered_per_pe)[q] > 0 && !GetsThrough(posts, aborts, q)))
        invariant forall q :: p <= q < npes ==>
          nbuffered_per_pe[q] == old(nbuffered_per_pe)[q] && posted[q] == old(posted)[q] && gaveUp[q] == old(gaveUp)[q]
      {
        FlushTo(p, posts, aborts, last(p));
        p := p + 1;
      }
      forall q | 0 <= q < npes && !gaveUp[q] ensures accepted[q] == Flatten(posted[q]) {
        assert TargetValid(q);
      }
    }
  }

  /** For any interleaving at a target's mailbox in which PE `p`'s sends are the batches this buffer has
      posted: what the target has received from `p`, then what `p` has in the ring, then what is still
      buffered are, record for record, what was accepted for the target, in order. */
  lemma AcceptedInOrder(b: MailboxBuffer, target: nat, cap: nat, n: nat, run: seq<Action>, p: nat)
    requires b.Valid() && target < b.npes && !b.gaveUp[target]
    requires GoodCapacity(cap) && IsRun(Initial(cap, n), run)
    requires ReservationsBy(Initial(cap, n), run, p) == PackAll(b.posted[target])
    ensures b.accepted[target] ==
      UnpackAll(DeliveredFrom(cap, n, run, p), b.msg_size) + UnpackAll(OutstandingFrom(cap, n, run, p), b.msg_size)
      + b.Buffered(target)
  {
    assert b.TargetValid(target);
    SenderInOrder(cap, n, run, p);
    UnpackAllJoins(DeliveredFrom(cap, n, run, p), OutstandingFrom(cap, n, run, p), b.msg_size);
    UnpackAllPacked(b.posted[target], b.msg_size);
  }
}
