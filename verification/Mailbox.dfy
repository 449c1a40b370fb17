/** The mailbox of src/hvr_mailbox.cpp: any number of senders and one receiver
    sharing a byte ring, as a machine whose steps interleave freely.

    A step is one remote operation: an atomic fetch or compare-and-swap of the
    packed index word, the arrival of one byte of a put (the bytes of a put may
    arrive in any order), the publication of the aligned sentinel word, or one
    byte of the receiver's clearing. `shmem_quiet` is the condition that no
    byte is still under way. */
module Mailbox {
  import opened Ring

  const SENTINEL: nat := 0xdeed
  const HEADER: nat := SENTINEL_SIZE + LENGTH_SIZE

  type Message = seq<Byte>

  /** `full_msg_len` */
  function FullLen(msg: Message): nat {
    HEADER + |msg|
  }

  /** The two assertions at the top of `hvr_mailbox_send`. */
  predicate Sendable(msg: Message, cap: nat) {
    |msg| % SENTINEL_SIZE == 0 && FullLen(msg) < cap
  }

  /** A message as it lies in the ring once published. */
  function Encode(msg: Message): (s: seq<Byte>)
    ensures |s| == FullLen(msg)
  {
    Bytes(SENTINEL, SENTINEL_SIZE) + Bytes(|msg|, LENGTH_SIZE) + msg
  }

  datatype Sender =
    | Idle
    | Trying(msg: Message, seen: nat)
    | Writing(msg: Message, start: nat, todo: set<nat>)

  datatype Receiver =
    | Ready
    | Waiting(curr: nat)
    | Clearing(curr: nat, msg: Message, todo: set<nat>)
    | Releasing(curr: nat, msg: Message)

  /** Everything the program holds: the ring, the packed index word, the local
      state of every sender, the receiver's cached copy of the index word, and
      the messages `hvr_mailbox_recv` has returned. */
  datatype Machine = Machine(
    cap: nat,
    indices: nat,
    buf: seq<Byte>,
    senders: seq<Sender>,
    cached: nat,
    receiver: Receiver,
    delivered: seq<Message>)

  datatype Action =
    | Fetch(p: nat, msg: Message)
    | Try(p: nat)
    | GiveUp(p: nat)
    | PutByte(p: nat, offset: nat)
    | Publish(p: nat)
    | Poll
    | Take
    | WipeByte(offset: nat)
    | WipeSentinel
    | Release

  predicate Shaped(m: Machine) {
    && 0 < m.cap < WORD_32 && m.cap % SENTINEL_SIZE == 0 && |m.buf| == m.cap
    && ReadIndex(m.indices) < m.cap && WriteIndex(m.indices) < m.cap
    && ReadIndex(m.cached) < m.cap && WriteIndex(m.cached) < m.cap
    && (m.receiver.Waiting? || m.receiver.Clearing? || m.receiver.Releasing? ==>
          ReadIndex(m.receiver.curr) < m.cap && WriteIndex(m.receiver.curr) < m.cap)
    && forall p :: 0 <= p < |m.senders| && m.senders[p].Trying? ==>
          ReadIndex(m.senders[p].seen) < m.cap && WriteIndex(m.senders[p].seen) < m.cap
  }

  /** The aligned word at an index, as `shmem_uint_wait_until` reads it. */
  function WordAt(m: Machine, i: nat): nat
    requires i + SENTINEL_SIZE <= |m.buf|
  {
    Word(m.buf[i..i + SENTINEL_SIZE])
  }

  /** `len` bytes from `offset` places past `start`, round the end if need be. */
  function Gather(m: Machine, start: nat, offset: nat, len: nat): (s: seq<Byte>)
    requires 0 < m.cap == |m.buf|
    ensures |s| == len
  {
    seq(len, k requires 0 <= k < len => m.buf[Index(start + offset + k, m.cap)])
  }

  function RecvLen(m: Machine, start: nat): nat
    requires 0 < m.cap == |m.buf|
  {
    Word(Gather(m, start, SENTINEL_SIZE, LENGTH_SIZE))
  }

  predicate Enabled(m: Machine, a: Action) {
    && Shaped(m)
    && match a
       case Fetch(p, msg) => p < |m.senders| && m.senders[p].Idle? && Sendable(msg, m.cap)
       case Try(p) => p < |m.senders| && m.senders[p].Trying?
       case GiveUp(p) => p < |m.senders| && m.senders[p].Trying?
       case PutByte(p, i) => p < |m.senders| && m.senders[p].Writing? && i in m.senders[p].todo
                          && i < FullLen(m.senders[p].msg)
       case Publish(p) => p < |m.senders| && m.senders[p].Writing? && m.senders[p].todo == {}
                          && m.senders[p].start + SENTINEL_SIZE <= m.cap
       case Poll => m.receiver.Ready?
       case Take => m.receiver.Waiting?
                    && ReadIndex(m.receiver.curr) + SENTINEL_SIZE <= m.cap
                    && WordAt(m, ReadIndex(m.receiver.curr)) == SENTINEL
       case WipeByte(i) => m.receiver.Clearing? && i in m.receiver.todo
       case WipeSentinel => m.receiver.Clearing? && m.receiver.todo == {}
                            && ReadIndex(m.receiver.curr) + SENTINEL_SIZE <= m.cap
       case Release => m.receiver.Releasing?
  }

  /** The byte offsets a sender has to put before its `shmem_quiet`. */
  function BodyOffsets(msg: Message): set<nat> {
    Span(SENTINEL_SIZE, FullLen(msg))
  }

  function Span(lo: nat, hi: nat): (s: set<nat>)
    ensures forall i :: i in s <==> lo <= i < hi
  {
    if hi <= lo then {} else Span(lo, hi - 1) + {hi - 1}
  }

  function PutWord(buf: seq<Byte>, i: nat, word: nat): (r: seq<Byte>)
    requires i + SENTINEL_SIZE <= |buf|
    ensures |r| == |buf|
  {
    buf[..i] + Bytes(word, SENTINEL_SIZE) + buf[i + SENTINEL_SIZE..]
  }

  /** There is room by the word last read, and the compare-and-swap finds that
      word unchanged. Otherwise the sender carries on with the current word. */
  predicate Wins(m: Machine, p: nat)
    requires Enabled(m, Try(p))
  {
    var msg, seen := m.senders[p].msg, m.senders[p].seen;
    && m.cap - UsedBytes(ReadIndex(seen), WriteIndex(seen), m.cap) > FullLen(msg)
    && m.indices == seen
  }

  function Step(m: Machine, a: Action): Machine
    requires Enabled(m, a)
  {
    match a
    case Fetch(p, msg) => m.(senders := m.senders[p := Trying(msg, m.indices)])
    case Try(p) =>
      var msg, seen := m.senders[p].msg, m.senders[p].seen;
      var read, write := ReadIndex(seen), WriteIndex(seen);
      if Wins(m, p) then
        m.(indices := Pack(read, Index(write + FullLen(msg), m.cap)),
           senders := m.senders[p := Writing(msg, write, BodyOffsets(msg))])
      else
        m.(senders := m.senders[p := Trying(msg, m.indices)])
    case GiveUp(p) => m.(senders := m.senders[p := Idle])
    case PutByte(p, i) =>
      var s := m.senders[p];
      m.(buf := m.buf[Index(s.start + i, m.cap) := Encode(s.msg)[i]],
         senders := m.senders[p := s.(todo := s.todo - {i})])
    case Publish(p) =>
      m.(buf := PutWord(m.buf, m.senders[p].start, SENTINEL), senders := m.senders[p := Idle])
    case Poll =>
      if UsedBytes(ReadIndex(m.cached), WriteIndex(m.cached), m.cap) > 0 then m.(receiver := Waiting(m.cached))
      else if m.indices != m.cached then m.(receiver := Waiting(m.indices))
      else m
    case Take =>
      var start := ReadIndex(m.receiver.curr);
      var msg := Gather(m, start, HEADER, RecvLen(m, start));
      m.(receiver := Clearing(m.receiver.curr, msg, BodyOffsets(msg)))
    case WipeByte(i) =>
      var r := m.receiver;
      m.(buf := m.buf[Index(ReadIndex(r.curr) + i, m.cap) := 0], receiver := r.(todo := r.todo - {i}))
    case WipeSentinel =>
      m.(buf := PutWord(m.buf, ReadIndex(m.receiver.curr), 0),
         receiver := Releasing(m.receiver.curr, m.receiver.msg))
    case Release =>
      var curr, msg := m.receiver.curr, m.receiver.msg;
      if m.indices == curr then
        var word := Pack(Index(ReadIndex(curr) + FullLen(msg), m.cap), WriteIndex(curr));
        m.(indices := word, cached := word, receiver := Ready, delivered := m.delivered + [msg])
      else
        m.(receiver := Releasing(m.indices, msg))
  }

  // ----- bookkeeping: what the machine's bytes stand for -----

  /** A reserved stretch of the ring: the message it is for, the absolute
      position it starts at, the offsets that hold their byte (the others hold
      zero), and the sender still writing it, if any. */
  datatype Slot = Slot(msg: Message, start: nat, present: set<nat>, writer: int)

  const NOBODY: int := -1

  /** `base` and `end` are the absolute positions of the read and write
      indices; `seen` is that of the receiver's last view of the write index;
      `reserved` lists the messages in the order their reservations succeeded. */
  datatype Log = Log(base: nat, end: nat, seen: nat, slots: seq<Slot>, reserved: seq<Message>)

  function Note(m: Machine, g: Log, a: Action): Log
    requires Enabled(m, a)
  {
    match a
    case Try(p) =>
      if Wins(m, p) then
        var msg := m.senders[p].msg;
        g.(end := g.end + FullLen(msg),
           slots := g.slots + [Slot(msg, g.end, {}, p)],
           reserved := g.reserved + [msg])
      else g
    case PutByte(p, i) => Present(g, p, {i}, false)
    case Publish(p) => Present(g, p, Span(0, SENTINEL_SIZE), true)
    case Poll =>
      if UsedBytes(ReadIndex(m.cached), WriteIndex(m.cached), m.cap) == 0 then g.(seen := g.end) else g
    case WipeByte(i) => Absent(g, {i})
    case WipeSentinel => Absent(g, Span(0, SENTINEL_SIZE))
    case Release =>
      if m.indices == m.receiver.curr && g.slots != [] then
        g.(base := g.base + FullLen(g.slots[0].msg), seen := g.end, slots := g.slots[1..])
      else g.(seen := g.end)
    case _ => g
  }

  /** The slot sender `p` is writing, or `|slots|`. */
  function SlotOf(slots: seq<Slot>, p: int): (k: nat)
    ensures k <= |slots|
    ensures k < |slots| ==> slots[k].writer == p
    ensures forall j :: 0 <= j < k ==> slots[j].writer != p
  {
    SlotFrom(slots, p, 0)
  }

  function SlotFrom(slots: seq<Slot>, p: int, from: nat): (k: nat)
    requires from <= |slots|
    ensures from <= k <= |slots|
    ensures k < |slots| ==> slots[k].writer == p
    ensures forall j :: from <= j < k ==> slots[j].writer != p
    decreases |slots| - from
  {
    if from == |slots| || slots[from].writer == p then from else SlotFrom(slots, p, from + 1)
  }

  function Present(g: Log, p: nat, offsets: set<nat>, done: bool): Log {
    var k := SlotOf(g.slots, p);
    if k == |g.slots| then g
    else
      var s := g.slots[k];
      g.(slots := g.slots[k := s.(present := s.present + offsets, writer := if done then NOBODY else p)])
  }

  function Absent(g: Log, offsets: set<nat>): Log {
    if g.slots == [] then g
    else
      var s := g.slots[0];
      g.(slots := g.slots[0 := s.(present := s.present - offsets)])
  }

  /** What has been delivered, then what is still in the ring, is what has been
      reserved: all of it, once, in that order. */
  predicate History(delivered: seq<Message>, slots: seq<Slot>, reserved: seq<Message>) {
    && |reserved| == |delivered| + |slots|
    && delivered == reserved[..|delivered|]
    && forall k :: 0 <= k < |slots| ==> slots[k].msg == reserved[|delivered| + k]
  }

  // ----- the invariant -----

  /** Byte `i` of a slot: that of the encoding where present, zero elsewhere. */
  function SlotByte(s: Slot, i: nat): Byte
    requires i < FullLen(s.msg)
  {
    if i in s.present then Encode(s.msg)[i] else 0
  }

  /** The byte the ring should hold at absolute position `a`, given slots `k` on. */
  function Expected(slots: seq<Slot>, k: nat, a: nat): Byte
    requires k <= |slots|
    decreases |slots| - k
  {
    if k == |slots| || a < slots[k].start then 0
    else if a < slots[k].start + FullLen(slots[k].msg) then SlotByte(slots[k], a - slots[k].start)
    else Expected(slots, k + 1, a)
  }

  /** From slot `k`, which starts at `base`, slots follow one another up to `end`. */
  predicate Contiguous(slots: seq<Slot>, k: nat, base: nat, end: nat)
    requires k <= |slots|
    decreases |slots| - k
  {
    if k == |slots| then base == end
    else slots[k].start == base && Contiguous(slots, k + 1, base + FullLen(slots[k].msg), end)
  }

  predicate Layout(cap: nat, g: Log) {
    && g.base % SENTINEL_SIZE == 0 && g.base <= g.seen <= g.end < g.base + cap
    && Contiguous(g.slots, 0, g.base, g.end)
    && forall k :: 0 <= k < |g.slots| ==> Sendable(g.slots[k].msg, cap)
  }

  /** Over the whole turn from `base`, every byte is the expected one. */
  predicate Memory(buf: seq<Byte>, g: Log)
    requires |buf| > 0
  {
    match g case Log(base, _, _, slots, _) =>
      forall a :: base <= a < base + |buf| ==> buf[Index(a, |buf|)] == Expected(slots, 0, a)
  }

  /** A slot still being written, as its sender sees it. */
  predicate HeldBy(s: Slot, w: Sender, cap: nat)
    requires cap > 0
  {
    && w.Writing? && w.msg == s.msg && w.start == Index(s.start, cap)
    && w.todo <= BodyOffsets(s.msg) && s.present == BodyOffsets(s.msg) - w.todo
  }

  predicate Writers(senders: seq<Sender>, cap: nat, slots: seq<Slot>)
    requires cap > 0
  {
    && (forall k :: 0 <= k < |slots| && slots[k].writer != NOBODY ==>
          0 <= slots[k].writer < |senders| && HeldBy(slots[k], senders[slots[k].writer], cap))
    && (forall j, k :: 0 <= j < k < |slots| && slots[j].writer != NOBODY ==>
          slots[j].writer != slots[k].writer)
    && (forall p :: 0 <= p < |senders| && senders[p].Writing? ==> SlotOf(slots, p) < |slots|)
    && (forall p :: 0 <= p < |senders| && senders[p].Trying? ==> Sendable(senders[p].msg, cap))
  }

  /** A published slot is complete, but for what the receiver has wiped of the first. */
  predicate Published(r: Receiver, slots: seq<Slot>) {
    && (forall k :: 0 < k < |slots| && slots[k].writer == NOBODY ==>
          slots[k].present == Span(0, FullLen(slots[k].msg)))
    && match r
       case Clearing(_, msg, todo) =>
         && slots != [] && slots[0].writer == NOBODY && msg == slots[0].msg
         && todo <= BodyOffsets(msg) && slots[0].present == todo + Span(0, SENTINEL_SIZE)
       case Releasing(_, msg) =>
         && slots != [] && slots[0].writer == NOBODY && msg == slots[0].msg
         && slots[0].present == {}
       case _ =>
         slots != [] && slots[0].writer == NOBODY ==>
           slots[0].present == Span(0, FullLen(slots[0].msg))
  }

  /** The index words the program holds are those of `base`, `seen` and `end`. */
  predicate View(m: Machine, g: Log)
    requires 0 < m.cap < WORD_32
  {
    && m.indices == Pack(Index(g.base, m.cap), Index(g.end, m.cap))
    && var view := Pack(Index(g.base, m.cap), Index(g.seen, m.cap));
    if m.receiver.Ready? then m.cached == view
    else m.receiver.curr == view && g.seen > g.base
  }

  predicate Inv(m: Machine, g: Log) {
    && Shaped(m)
    && Layout(m.cap, g)
    && View(m, g)
    && Memory(m.buf, g)
    && Writers(m.senders, m.cap, g.slots)
    && Published(m.receiver, g.slots)
    && History(m.delivered, g.slots, g.reserved)
  }

  // ----- layout of the slots -----

  lemma {:induction false} ContiguousGrows(slots: seq<Slot>, k: nat, base: nat, end: nat)
    requires k <= |slots| && Contiguous(slots, k, base, end)
    ensures base <= end && (k < |slots| ==> base < end)
    decreases |slots| - k
  {
    if k < |slots| { ContiguousGrows(slots, k + 1, base + FullLen(slots[k].msg), end); }
  }

  /** Slot `k` lies between the bounds of slots `j` on, after slot `j` itself. */
  lemma {:induction false} SlotBounds(slots: seq<Slot>, j: nat, base: nat, end: nat, k: nat)
    requires j <= k < |slots| && Contiguous(slots, j, base, end)
    ensures base <= slots[k].start && slots[k].start + FullLen(slots[k].msg) <= end
    ensures if j == k then slots[k].start == base else slots[j].start + FullLen(slots[j].msg) <= slots[k].start
    ensures Contiguous(slots, k, slots[k].start, end)
    decreases |slots| - j
  {
    var base' := base + FullLen(slots[j].msg);
    if j < k { SlotBounds(slots, j + 1, base', end, k); } else { ContiguousGrows(slots, j + 1, base', end); }
  }

  lemma {:induction false} SlotAligned(slots: seq<Slot>, j: nat, base: nat, end: nat, cap: nat, k: nat)
    requires j <= k <= |slots| && Contiguous(slots, j, base, end) && base % SENTINEL_SIZE == 0
    requires forall i :: 0 <= i < |slots| ==> Sendable(slots[i].msg, cap)
    ensures (if k == |slots| then end else slots[k].start) % SENTINEL_SIZE == 0
    decreases |slots| - j
  {
    if j < k { SlotAligned(slots, j + 1, base + FullLen(slots[j].msg), end, cap, k); }
  }

  lemma {:induction false} ContiguousAppend(slots: seq<Slot>, k: nat, base: nat, end: nat, s: Slot)
    requires k <= |slots| && Contiguous(slots, k, base, end) && s.start == end
    ensures Contiguous(slots + [s], k, base, end + FullLen(s.msg))
    decreases |slots| - k
  {
    if k < |slots| {
      ContiguousAppend(slots, k + 1, base + FullLen(slots[k].msg), end, s);
    } else {
      assert Contiguous(slots + [s], k + 1, end + FullLen(s.msg), end + FullLen(s.msg));
    }
  }

  lemma {:induction false} ContiguousUpdate(slots: seq<Slot>, j: nat, base: nat, end: nat, k: nat, s: Slot)
    requires j <= |slots| && k < |slots| && Contiguous(slots, j, base, end)
    requires s.start == slots[k].start && s.msg == slots[k].msg
    ensures Contiguous(slots[k := s], j, base, end)
    decreases |slots| - j
  {
    if j < |slots| { ContiguousUpdate(slots, j + 1, base + FullLen(slots[j].msg), end, k, s); }
  }

  lemma {:induction false} ContiguousTail(slots: seq<Slot>, k: nat, base: nat, end: nat)
    requires 0 < k <= |slots| && Contiguous(slots, k, base, end)
    ensures Contiguous(slots[1..], k - 1, base, end)
    decreases |slots| - k
  {
    if k < |slots| { ContiguousTail(slots, k + 1, base + FullLen(slots[k].msg), end); }
  }

  // ----- what the ring should hold -----

  lemma {:induction false} ExpectedAt(slots: seq<Slot>, j: nat, base: nat, end: nat, k: nat, i: nat)
    requires j <= k < |slots| && Contiguous(slots, j, base, end) && i < FullLen(slots[k].msg)
    ensures Expected(slots, j, slots[k].start + i) == SlotByte(slots[k], i)
    decreases |slots| - j
  {
    if j < k {
      SlotBounds(slots, j, base, end, k);
      ExpectedAt(slots, j + 1, base + FullLen(slots[j].msg), end, k, i);
    }
  }

  lemma {:induction false} ExpectedFree(slots: seq<Slot>, k: nat, base: nat, end: nat, a: nat)
    requires k <= |slots| && Contiguous(slots, k, base, end) && a >= end
    ensures Expected(slots, k, a) == 0
    decreases |slots| - k
  {
    if k < |slots| {
      ContiguousGrows(slots, k + 1, base + FullLen(slots[k].msg), end);
      ExpectedFree(slots, k + 1, base + FullLen(slots[k].msg), end, a);
    }
  }

  lemma {:induction false} ExpectedUpdate(slots: seq<Slot>, j: nat, base: nat, end: nat, k: nat, s': Slot, a: nat)
    requires j <= k < |slots| && Contiguous(slots, j, base, end)
    requires s'.start == slots[k].start && s'.msg == slots[k].msg
    ensures Expected(slots[k := s'], j, a) ==
      if s'.start <= a < s'.start + FullLen(s'.msg) then SlotByte(s', a - s'.start) else Expected(slots, j, a)
    decreases |slots| - j
  {
    if j < k {
      SlotBounds(slots, j, base, end, k);
      ExpectedUpdate(slots, j + 1, base + FullLen(slots[j].msg), end, k, s', a);
    } else {
      ExpectedLater(slots, slots[k := s'], k + 1, a);
    }
  }

  lemma {:induction false} ExpectedLater(slots: seq<Slot>, slots': seq<Slot>, k: nat, a: nat)
    requires |slots| == |slots'| && k <= |slots|
    requires forall j :: k <= j < |slots| ==> slots[j] == slots'[j]
    ensures Expected(slots, k, a) == Expected(slots', k, a)
    decreases |slots| - k
  {
    if k < |slots| { ExpectedLater(slots, slots', k + 1, a); }
  }

  lemma {:induction false} ExpectedAppend(slots: seq<Slot>, s: Slot, k: nat, a: nat)
    requires k <= |slots| && s.present == {}
    ensures Expected(slots + [s], k, a) == Expected(slots, k, a)
    decreases |slots| - k
  {
    if k < |slots| {
      ExpectedAppend(slots, s, k + 1, a);
    } else {
      assert Expected(slots + [s], k + 1, a) == 0;
    }
  }

  lemma {:induction false} ExpectedTail(slots: seq<Slot>, k: nat, a: nat)
    requires 0 < k <= |slots|
    ensures Expected(slots[1..], k - 1, a) == Expected(slots, k, a)
    decreases |slots| - k
  {
    if k < |slots| { ExpectedTail(slots, k + 1, a); }
  }

  // ----- writes to the ring -----

  /** Positions a turn apart at most land on one index only if equal. */
  lemma SameIndex(lo: nat, a: nat, b: nat, cap: nat)
    requires cap > 0 && lo <= a < lo + cap && lo <= b < lo + cap
    ensures Index(a, cap) == Index(b, cap) ==> a == b
  {
    if Index(a, cap) == Index(b, cap) {
      if a < b { IndexInjective(a, b, cap); } else { IndexInjective(b, a, cap); }
    }
  }

  /** One byte of slot `k` is written or wiped; `present` says which offsets hold their byte now. */
  lemma WriteByte(cap: nat, buf: seq<Byte>, buf': seq<Byte>, g: Log, g': Log,
                  k: nat, i: nat, present: set<nat>, v: Byte)
    requires Layout(cap, g) && |buf| == cap > 0 && Memory(buf, g)
    requires k < |g.slots| && i < FullLen(g.slots[k].msg)
    requires forall j :: j != i ==> (j in present <==> j in g.slots[k].present)
    requires SlotReplaced(g, g', k, g.slots[k].(present := present))
    requires v == SlotByte(g'.slots[k], i) && buf' == buf[Index(g.slots[k].start + i, cap) := v]
    ensures Layout(cap, g') && Memory(buf', g')
  {
    var s, s' := g.slots[k], g'.slots[k];
    SlotBounds(g.slots, 0, g.base, g.end, k);
    ContiguousUpdate(g.slots, 0, g.base, g.end, k, s');
    forall a | g.base <= a < g.base + cap
      ensures buf'[Index(a, cap)] == Expected(g'.slots, 0, a)
    {
      SameIndex(g.base, a, s.start + i, cap);
      ExpectedUpdate(g.slots, 0, g.base, g.end, k, s', a);
      if s.start <= a < s.start + FullLen(s.msg) {
        ExpectedAt(g.slots, 0, g.base, g.end, k, a - s.start);
      }
    }
  }

  /** The sentinel word of slot `k` is written or wiped, in place and unwrapped. */
  lemma WriteWord(cap: nat, buf: seq<Byte>, buf': seq<Byte>, g: Log, g': Log, k: nat, s': Slot, word: nat)
    requires cap % 4 == 0 && Layout(cap, g) && |buf| == cap > 0 && Memory(buf, g)
    requires SlotReplaced(g, g', k, s') && s'.start == g.slots[k].start && s'.msg == g.slots[k].msg
    requires forall j :: j >= SENTINEL_SIZE ==> (j in s'.present <==> j in g.slots[k].present)
    requires forall j :: 0 <= j < SENTINEL_SIZE ==> Bytes(word, SENTINEL_SIZE)[j] == SlotByte(s', j)
    requires Index(s'.start, cap) + SENTINEL_SIZE <= cap && buf' == PutWord(buf, Index(s'.start, cap), word)
    ensures Layout(cap, g') && Memory(buf', g')
  {
    SlotBounds(g.slots, 0, g.base, g.end, k);
    SlotAligned(g.slots, 0, g.base, g.end, cap, k);
    ContiguousUpdate(g.slots, 0, g.base, g.end, k, s');
    forall a | g.base <= a < g.base + cap
      ensures buf'[Index(a, cap)] == Expected(g'.slots, 0, a)
    {
      WrittenWord(cap, buf, buf', g, g', k, s', word, a);
    }
  }

  lemma WrittenWord(cap: nat, buf: seq<Byte>, buf': seq<Byte>, g: Log, g': Log, k: nat, s': Slot, word: nat, a: nat)
    requires cap % 4 == 0 && |buf| == cap > 0 && Contiguous(g.slots, 0, g.base, g.end)
    requires SlotReplaced(g, g', k, s') && s'.start == g.slots[k].start && s'.msg == g.slots[k].msg
    requires g.base <= s'.start && s'.start + FullLen(s'.msg) <= g.base + cap && s'.start % 4 == 0
    requires forall j :: j >= SENTINEL_SIZE ==> (j in s'.present <==> j in g.slots[k].present)
    requires forall j :: 0 <= j < SENTINEL_SIZE ==> Bytes(word, SENTINEL_SIZE)[j] == SlotByte(s', j)
    requires Index(s'.start, cap) + SENTINEL_SIZE <= cap && buf' == PutWord(buf, Index(s'.start, cap), word)
    requires g.base <= a < g.base + cap && buf[Index(a, cap)] == Expected(g.slots, 0, a)
    ensures buf'[Index(a, cap)] == Expected(g'.slots, 0, a)
  {
    ExpectedUpdate(g.slots, 0, g.base, g.end, k, s', a);
    if s'.start <= a < s'.start + SENTINEL_SIZE {
      WordOffset(s'.start, a - s'.start, cap);
      assert buf'[Index(a, cap)] == Bytes(word, SENTINEL_SIZE)[a - s'.start];
    } else {
      OutsideWord(g.base, s'.start, a, cap);
      assert buf'[Index(a, cap)] == buf[Index(a, cap)];
      if s'.start <= a < s'.start + FullLen(s'.msg) {
        ExpectedAt(g.slots, 0, g.base, g.end, k, a - s'.start);
      }
    }
  }

  lemma OutsideWord(lo: nat, a: nat, b: nat, n: nat)
    requires n > 0 && n % 4 == 0 && a % 4 == 0
    requires lo <= a && a + SENTINEL_SIZE <= lo + n
    requires lo <= b < lo + n && !(a <= b < a + SENTINEL_SIZE)
    ensures !(Index(a, n) <= Index(b, n) < Index(a, n) + SENTINEL_SIZE)
  {
    var i := Index(b, n) - Index(a, n);
    if 0 <= i < SENTINEL_SIZE {
      WordOffset(a, i, n);
      if a + i < b { IndexInjective(a + i, b, n); } else { IndexInjective(b, a + i, n); }
    }
  }

  lemma WordOffset(a: nat, i: nat, cap: nat)
    requires cap > 0 && cap % 4 == 0 && a % 4 == 0 && i < SENTINEL_SIZE
    ensures Index(a + i, cap) == Index(a, cap) + i
  {
    IndexAligned(a, cap);
    IndexAdd(a, i, cap);
    WrapOnce(Index(a, cap), i, cap);
  }

  // ----- every step keeps the invariant -----

  lemma PackEqual(r: nat, w: nat, r': nat, w': nat)
    requires r < WORD_32 && w < WORD_32 && r' < WORD_32 && w' < WORD_32
    requires Pack(r, w) == Pack(r', w')
    ensures r == r' && w == w'
  {
    UnpackPack(r, w);
    UnpackPack(r', w');
  }

  /** A sender that neither had nor gets a reservation. */
  lemma OtherSender(senders: seq<Sender>, cap: nat, slots: seq<Slot>, p: nat, s: Sender)
    requires cap > 0 && Writers(senders, cap, slots)
    requires p < |senders| && !senders[p].Writing?
    requires s.Idle? || (s.Trying? && Sendable(s.msg, cap))
    ensures Writers(senders[p := s], cap, slots)
  {
  }

  lemma KeepQuiet(m: Machine, g: Log, a: Action)
    requires Inv(m, g) && Enabled(m, a)
    requires a.Fetch? || a.GiveUp? || (a.Try? && !Wins(m, a.p))
    ensures Inv(Step(m, a), Note(m, g, a))
  {
    OtherSender(m.senders, m.cap, g.slots, a.p, Step(m, a).senders[a.p]);
  }

  lemma NewWriter(senders: seq<Sender>, senders': seq<Sender>, cap: nat, slots: seq<Slot>, slots': seq<Slot>,
                  p: nat, s: Slot)
    requires cap > 0 && Writers(senders, cap, slots) && p < |senders| && senders[p].Trying?
    requires s.writer == p && s.present == {} && slots' == slots + [s]
    requires senders' == senders[p := Writing(s.msg, Index(s.start, cap), BodyOffsets(s.msg))]
    ensures Writers(senders', cap, slots')
  {
    forall q | 0 <= q < |senders'| && senders'[q].Writing?
      ensures SlotOf(slots', q) < |slots'|
    {
      assert slots'[if q == p then |slots| else SlotOf(slots, q)].writer == q;
    }
  }

  /** `g'` is `g` with slot `s` appended. */
  predicate SlotAppended(g: Log, g': Log, s: Slot) {
    && g'.slots == g.slots + [s] && s.start == g.end && s.present == {}
    && g'.base == g.base && g'.end == g.end + FullLen(s.msg) && g'.seen == g.seen
    && g'.reserved == g.reserved + [s.msg]
  }

  /** A reservation takes its slot out of the zeroed stretch, and because the
      room test is strict the ring is still not completely full. */
  lemma ReserveLayout(cap: nat, buf: seq<Byte>, g: Log, g': Log, s: Slot)
    requires Layout(cap, g) && |buf| == cap > 0 && Memory(buf, g)
    requires Sendable(s.msg, cap) && SlotAppended(g, g', s)
    requires cap - (g.end - g.base) > FullLen(s.msg)
    ensures Layout(cap, g') && Memory(buf, g')
  {
    ContiguousAppend(g.slots, 0, g.base, g.end, s);
    forall a | g.base <= a < g.base + cap
      ensures buf[Index(a, cap)] == Expected(g'.slots, 0, a)
    {
      ExpectedAppend(g.slots, s, 0, a);
    }
  }

  /** What a sender reads off an unchanged index word is the truth. */
  lemma ReadWord(cap: nat, base: nat, end: nat)
    requires 0 < cap < WORD_32 && base <= end < base + cap
    ensures var word := Pack(Index(base, cap), Index(end, cap));
      && ReadIndex(word) == Index(base, cap) && WriteIndex(word) == Index(end, cap)
      && UsedBytes(ReadIndex(word), WriteIndex(word), cap) == end - base
  {
    UnpackPack(Index(base, cap), Index(end, cap));
    UsedIsDistance(base, end, cap);
  }

  lemma ReserveView(m: Machine, g: Log, m': Machine, g': Log, s: Slot)
    requires Shaped(m) && Layout(m.cap, g) && View(m, g) && SlotAppended(g, g', s)
    requires m'.indices == Pack(Index(g.base, m.cap), Index(Index(g.end, m.cap) + FullLen(s.msg), m.cap))
    requires m'.cap == m.cap && m'.receiver == m.receiver && m'.cached == m.cached
    ensures View(m', g') && ReadIndex(m'.indices) < m.cap && WriteIndex(m'.indices) < m.cap
  {
    IndexAdd(g.end, FullLen(s.msg), m.cap);
    UnpackPack(Index(g.base, m.cap), Index(g'.end, m.cap));
  }

  lemma PublishedAppend(r: Receiver, slots: seq<Slot>, s: Slot)
    requires Published(r, slots) && s.writer != NOBODY
    ensures Published(r, slots + [s])
  {
  }

  /** What a won reservation does, in the terms of both machine and log. */
  predicate Won(m: Machine, g: Log, m': Machine, g': Log, p: nat)
    requires 0 < m.cap < WORD_32 && p < |m.senders| && m.senders[p].Trying?
  {
    var msg := m.senders[p].msg;
    && SlotAppended(g, g', Slot(msg, g.end, {}, p))
    && m'.indices == Pack(Index(g.base, m.cap), Index(Index(g.end, m.cap) + FullLen(msg), m.cap))
    && m'.senders == m.senders[p := Writing(msg, Index(g.end, m.cap), BodyOffsets(msg))]
    && m'.cap == m.cap && m'.receiver == m.receiver && m'.cached == m.cached
    && m'.buf == m.buf && m'.delivered == m.delivered
    && m.cap - (g.end - g.base) > FullLen(msg)
  }

  lemma WonMeans(m: Machine, g: Log, p: nat)
    requires Shaped(m) && Layout(m.cap, g) && View(m, g)
    requires Enabled(m, Try(p)) && Wins(m, p)
    ensures Won(m, g, Step(m, Try(p)), Note(m, g, Try(p)), p)
  {
    ReadWord(m.cap, g.base, g.end);
  }

  lemma WonKeeps(m: Machine, g: Log, m': Machine, g': Log, p: nat)
    requires Inv(m, g) && p < |m.senders| && m.senders[p].Trying? && Won(m, g, m', g', p)
    ensures Inv(m', g')
  {
    var s := Slot(m.senders[p].msg, g.end, {}, p);
    ReserveView(m, g, m', g', s);
    ReserveLayout(m.cap, m.buf, g, g', s);
    NewWriter(m.senders, m'.senders, m.cap, g.slots, g'.slots, p, s);
    PublishedAppend(m.receiver, g.slots, s);
    HistoryAppend(m.delivered, g, g', s);
  }

  lemma HistoryAppend(delivered: seq<Message>, g: Log, g': Log, s: Slot)
    requires History(delivered, g.slots, g.reserved) && SlotAppended(g, g', s)
    ensures History(delivered, g'.slots, g'.reserved)
  {
  }

  lemma KeepWonTry(m: Machine, g: Log, p: nat)
    requires Inv(m, g) && Enabled(m, Try(p)) && Wins(m, p)
    ensures Inv(Step(m, Try(p)), Note(m, g, Try(p)))
  {
    WonMeans(m, g, p);
    WonKeeps(m, g, Step(m, Try(p)), Note(m, g, Try(p)), p);
  }

  // ----- a sender fills its slot -----

  /** The sender of slot `k` has put another byte, or has finished. */
  lemma WriterProgress(senders: seq<Sender>, cap: nat, slots: seq<Slot>, p: nat, k: nat, s': Slot, w': Sender)
    requires cap > 0 && Writers(senders, cap, slots)
    requires p < |senders| && senders[p].Writing? && k == SlotOf(slots, p)
    requires if s'.writer == NOBODY then w'.Idle? else s'.writer == p && HeldBy(s', w', cap)
    ensures Writers(senders[p := w'], cap, slots[k := s'])
  {
    var senders', slots' := senders[p := w'], slots[k := s'];
    forall q | 0 <= q < |senders'| && senders'[q].Writing? ensures SlotOf(slots', q) < |slots'| {
      assert q != p ==> slots'[SlotOf(slots, q)].writer == q;
      assert q == p ==> slots'[k].writer == q;
    }
  }

  lemma PublishedUpdate(r: Receiver, slots: seq<Slot>, k: nat, s': Slot)
    requires Published(r, slots) && k < |slots| && slots[k].writer != NOBODY
    requires s'.writer != NOBODY || s'.present == Span(0, FullLen(s'.msg))
    ensures Published(r, slots[k := s'])
  {
  }

  lemma WriterSlot(senders: seq<Sender>, cap: nat, slots: seq<Slot>, p: nat)
    requires cap > 0 && Writers(senders, cap, slots)
    requires p < |senders| && senders[p].Writing?
    ensures var k := SlotOf(slots, p);
      k < |slots| && slots[k].writer == p && HeldBy(slots[k], senders[p], cap)
  {
  }

  /** `g'` is `g` with slot `k` replaced. */
  predicate SlotReplaced(g: Log, g': Log, k: nat, s': Slot) {
    && k < |g.slots| && g'.slots == g.slots[k := s']
    && g'.base == g.base && g'.end == g.end && g'.seen == g.seen && g'.reserved == g.reserved
  }

  lemma PutBuffer(cap: nat, buf: seq<Byte>, buf': seq<Byte>, g: Log, g': Log, k: nat, w: Sender, i: nat)
    requires Layout(cap, g) && |buf| == cap > 0 && Memory(buf, g)
    requires k < |g.slots| && HeldBy(g.slots[k], w, cap) && i < FullLen(w.msg)
    requires SlotReplaced(g, g', k, g.slots[k].(present := g.slots[k].present + {i}))
    requires buf' == buf[Index(w.start + i, cap) := Encode(w.msg)[i]]
    ensures Layout(cap, g') && Memory(buf', g')
  {
    var s := g.slots[k];
    IndexAdd(s.start, i, cap);
    WriteByte(cap, buf, buf', g, g', k, i, s.present + {i}, Encode(s.msg)[i]);
  }

  lemma PutOwners(senders: seq<Sender>, senders': seq<Sender>, cap: nat, r: Receiver,
                  slots: seq<Slot>, slots': seq<Slot>, p: nat, k: nat)
    requires cap > 0 && Writers(senders, cap, slots) && Published(r, slots)
    requires p < |senders| && senders[p].Writing? && k == SlotOf(slots, p) < |slots| == |slots'|
    requires |senders'| == |senders| && senders' == senders[p := senders'[p]] && slots' == slots[k := slots'[k]]
    requires slots'[k].msg == slots[k].msg
    requires if slots'[k].writer == NOBODY
      then senders'[p].Idle? && slots'[k].present == Span(0, FullLen(slots'[k].msg))
      else slots'[k].writer == p && HeldBy(slots'[k], senders'[p], cap)
    ensures Writers(senders', cap, slots') && Published(r, slots')
  {
    WriterSlot(senders, cap, slots, p);
    WriterProgress(senders, cap, slots, p, k, slots'[k], senders'[p]);
    PublishedUpdate(r, slots, k, slots'[k]);
  }

  lemma PutHeld(s: Slot, w: Sender, cap: nat, i: nat)
    requires cap > 0 && HeldBy(s, w, cap) && i in w.todo
    ensures HeldBy(s.(present := s.present + {i}), w.(todo := w.todo - {i}), cap)
  {
  }

  lemma ReplacedHistory(delivered: seq<Message>, g: Log, g': Log, k: nat, s': Slot)
    requires SlotReplaced(g, g', k, s') && s'.msg == g.slots[k].msg
    requires History(delivered, g.slots, g.reserved)
    ensures History(delivered, g'.slots, g'.reserved)
  {
  }

  /** What a put does, in the terms of both machine and log. */
  predicate Has(m: Machine, g: Log, m': Machine, g': Log, p: nat, k: nat, s': Slot, w': Sender, buf': seq<Byte>) {
    && p < |m.senders| && SlotReplaced(g, g', k, s')
    && m'.senders == m.senders[p := w'] && m'.buf == buf' && m'.cap == m.cap && m'.indices == m.indices
    && m'.receiver == m.receiver && m'.cached == m.cached && m'.delivered == m.delivered
  }

  lemma PutMeans(m: Machine, g: Log, p: nat, i: nat, k: nat, s': Slot, w': Sender, buf': seq<Byte>)
    requires Enabled(m, PutByte(p, i)) && m.cap > 0 && |m.buf| == m.cap && Writers(m.senders, m.cap, g.slots)
    requires k == SlotOf(g.slots, p) && k < |g.slots| && s' == g.slots[k].(present := g.slots[k].present + {i})
    requires w' == m.senders[p].(todo := m.senders[p].todo - {i})
    requires buf' == m.buf[Index(m.senders[p].start + i, m.cap) := Encode(m.senders[p].msg)[i]]
    ensures Has(m, g, Step(m, PutByte(p, i)), Note(m, g, PutByte(p, i)), p, k, s', w', buf')
  {
  }

  lemma KeepPut(m: Machine, g: Log, p: nat, i: nat)
    requires Inv(m, g) && Enabled(m, PutByte(p, i))
    ensures Inv(Step(m, PutByte(p, i)), Note(m, g, PutByte(p, i)))
  {
    WriterSlot(m.senders, m.cap, g.slots, p);
    var k, w := SlotOf(g.slots, p), m.senders[p];
    var s := g.slots[k];
    var s', w' := s.(present := s.present + {i}), w.(todo := w.todo - {i});
    var buf' := m.buf[Index(w.start + i, m.cap) := Encode(w.msg)[i]];
    PutMeans(m, g, p, i, k, s', w', buf');
    PutKeeps(m, g, Step(m, PutByte(p, i)), Note(m, g, PutByte(p, i)), p, i, k, s', w', buf');
  }

  lemma PutKeeps(m: Machine, g: Log, m': Machine, g': Log, p: nat, i: nat, k: nat, s': Slot, w': Sender, buf': seq<Byte>)
    requires Inv(m, g) && Has(m, g, m', g', p, k, s', w', buf') && m.senders[p].Writing? && i in m.senders[p].todo
    requires k == SlotOf(g.slots, p) && HeldBy(g.slots[k], m.senders[p], m.cap) && g.slots[k].writer == p
    requires i < FullLen(m.senders[p].msg) && s' == g.slots[k].(present := g.slots[k].present + {i})
    requires w' == m.senders[p].(todo := m.senders[p].todo - {i})
    requires buf' == m.buf[Index(m.senders[p].start + i, m.cap) := Encode(m.senders[p].msg)[i]]
    ensures Inv(m', g')
  {
    PutBuffer(m.cap, m.buf, buf', g, g', k, m.senders[p], i);
    PutHeld(g.slots[k], m.senders[p], m.cap, i);
    PutOwners(m.senders, m'.senders, m.cap, m.receiver, g.slots, g'.slots, p, k);
    ReplacedHistory(m.delivered, g, g', k, s');
  }

  lemma PublishBuffer(cap: nat, buf: seq<Byte>, buf': seq<Byte>, g: Log, g': Log, k: nat, w: Sender)
    requires cap % 4 == 0 && Layout(cap, g) && |buf| == cap > 0 && Memory(buf, g)
    requires k < |g.slots| && HeldBy(g.slots[k], w, cap) && w.todo == {}
    requires SlotReplaced(g, g', k, g.slots[k].(present := g.slots[k].present + Span(0, SENTINEL_SIZE), writer := NOBODY))
    requires w.start + SENTINEL_SIZE <= cap && buf' == PutWord(buf, w.start, SENTINEL)
    ensures g'.slots[k].present == Span(0, FullLen(w.msg))
    ensures Layout(cap, g') && Memory(buf', g')
  {
    assert g'.slots[k].present == Span(0, FullLen(w.msg));
    WriteWord(cap, buf, buf', g, g', k, g'.slots[k], SENTINEL);
  }

  lemma KeepPublish(m: Machine, g: Log, p: nat)
    requires Inv(m, g) && Enabled(m, Publish(p))
    ensures Inv(Step(m, Publish(p)), Note(m, g, Publish(p)))
  {
    var m', g' := Step(m, Publish(p)), Note(m, g, Publish(p));
    WriterSlot(m.senders, m.cap, g.slots, p);
    var k := SlotOf(g.slots, p);
    assert SlotReplaced(g, g', k, g'.slots[k]);
    PublishBuffer(m.cap, m.buf, m'.buf, g, g', k, m.senders[p]);
    PutOwners(m.senders, m'.senders, m.cap, m.receiver, g.slots, g'.slots, p, k);
    ReplacedHistory(m.delivered, g, g', k, g'.slots[k]);
  }

  // ----- the receiver -----

  /** The cached word is stale but never overestimates: what it shows in use is
      in use, and when it shows nothing a changed word shows something. */
  lemma KeepPoll(m: Machine, g: Log)
    requires Inv(m, g) && Enabled(m, Poll)
    ensures Inv(Step(m, Poll), Note(m, g, Poll))
  {
    UnpackPack(Index(g.base, m.cap), Index(g.seen, m.cap));
    UsedIsDistance(g.base, g.seen, m.cap);
    if g.seen == g.base && m.indices == m.cached {
      PackEqual(Index(g.base, m.cap), Index(g.seen, m.cap), Index(g.base, m.cap), Index(g.end, m.cap));
      IndexInjective(g.base, g.end, m.cap);
    }
  }

  /** While a slot has a writer the four bytes of its sentinel word are zero. */
  lemma SentinelDown(cap: nat, buf: seq<Byte>, g: Log, senders: seq<Sender>, k: nat)
    requires cap % 4 == 0 && Layout(cap, g) && |buf| == cap > 0 && Memory(buf, g)
    requires Writers(senders, cap, g.slots) && k < |g.slots| && g.slots[k].writer != NOBODY
    ensures var i := Index(g.slots[k].start, cap);
      i + SENTINEL_SIZE <= cap && buf[i..i + SENTINEL_SIZE] == [0, 0, 0, 0]
  {
    var start := g.slots[k].start;
    SlotAligned(g.slots, 0, g.base, g.end, cap, k);
    IndexAligned(start, cap);
    var word := buf[Index(start, cap)..Index(start, cap) + SENTINEL_SIZE];
    forall i | 0 <= i < SENTINEL_SIZE ensures word[i] == 0 {
      SlotRead(cap, buf, g, k, i);
      WordOffset(start, i, cap);
    }
  }

  /** A slot whose sentinel is up is finished. */
  lemma SentinelMeansPublished(cap: nat, buf: seq<Byte>, g: Log, senders: seq<Sender>)
    requires cap % 4 == 0 && Layout(cap, g) && |buf| == cap > 0 && Memory(buf, g)
    requires Writers(senders, cap, g.slots) && g.slots != []
    requires Index(g.base, cap) + SENTINEL_SIZE <= cap
    requires Word(buf[Index(g.base, cap)..Index(g.base, cap) + SENTINEL_SIZE]) == SENTINEL
    ensures g.slots[0].writer == NOBODY
  {
    if g.slots[0].writer != NOBODY {
      SlotBounds(g.slots, 0, g.base, g.end, 0);
      SentinelDown(cap, buf, g, senders, 0);
    }
  }

  lemma SlotRead(cap: nat, buf: seq<Byte>, g: Log, k: nat, i: nat)
    requires Layout(cap, g) && |buf| == cap > 0 && Memory(buf, g)
    requires k < |g.slots| && i < FullLen(g.slots[k].msg)
    ensures buf[Index(g.slots[k].start + i, cap)] == SlotByte(g.slots[k], i)
    ensures k == 0 ==> g.slots[k].start == g.base
  {
    SlotBounds(g.slots, 0, g.base, g.end, k);
    ExpectedAt(g.slots, 0, g.base, g.end, k, i);
  }

  lemma PublishedByte(cap: nat, buf: seq<Byte>, g: Log, i: nat)
    requires Layout(cap, g) && |buf| == cap > 0 && Memory(buf, g)
    requires g.slots != [] && i < FullLen(g.slots[0].msg) && g.slots[0].present == Span(0, FullLen(g.slots[0].msg))
    ensures buf[Index(Index(g.base, cap) + i, cap)] == Encode(g.slots[0].msg)[i]
  {
    SlotRead(cap, buf, g, 0, i);
    IndexAdd(g.base, i, cap);
  }

  /** What the receiver gathers from a published slot is its encoding. */
  lemma GatherByte(m: Machine, g: Log, offset: nat, len: nat, k: nat)
    requires Layout(m.cap, g) && |m.buf| == m.cap > 0 && Memory(m.buf, g)
    requires g.slots != [] && offset + len <= FullLen(g.slots[0].msg) && k < len
    requires g.slots[0].present == Span(0, FullLen(g.slots[0].msg))
    ensures Gather(m, Index(g.base, m.cap), offset, len)[k] == Encode(g.slots[0].msg)[offset + k]
  {
    PublishedByte(m.cap, m.buf, g, offset + k);
  }

  lemma GatherSlot(m: Machine, g: Log, offset: nat, len: nat)
    requires Layout(m.cap, g) && |m.buf| == m.cap > 0 && Memory(m.buf, g)
    requires g.slots != [] && offset + len <= FullLen(g.slots[0].msg)
    requires g.slots[0].present == Span(0, FullLen(g.slots[0].msg))
    ensures Gather(m, Index(g.base, m.cap), offset, len) == Encode(g.slots[0].msg)[offset..offset + len]
  {
    var got, code := Gather(m, Index(g.base, m.cap), offset, len), Encode(g.slots[0].msg);
    forall k | 0 <= k < len ensures got[k] == code[offset..offset + len][k] {
      GatherByte(m, g, offset, len, k);
    }
  }

  /** The receiver takes exactly the message the slot was reserved for. */
  lemma TakeReadsMessage(m: Machine, g: Log)
    requires Layout(m.cap, g) && |m.buf| == m.cap > 0 && Memory(m.buf, g) && m.cap < WORD_32
    requires g.slots != [] && g.slots[0].present == Span(0, FullLen(g.slots[0].msg))
    ensures var start := Index(g.base, m.cap);
      && RecvLen(m, start) == |g.slots[0].msg|
      && Gather(m, start, HEADER, RecvLen(m, start)) == g.slots[0].msg
  {
    var msg := g.slots[0].msg;
    var start := Index(g.base, m.cap);
    GatherSlot(m, g, SENTINEL_SIZE, LENGTH_SIZE);
    assert Encode(msg)[SENTINEL_SIZE..HEADER] == Bytes(|msg|, LENGTH_SIZE);
    assert WORD_32 <= Pow256(LENGTH_SIZE);
    WordBytes(|msg|, LENGTH_SIZE);
    GatherSlot(m, g, HEADER, |msg|);
    assert Encode(msg)[HEADER..] == msg;
  }

  lemma KeepTake(m: Machine, g: Log)
    requires Inv(m, g) && Enabled(m, Take)
    ensures Inv(Step(m, Take), Note(m, g, Take))
  {
    ReadWord(m.cap, g.base, g.seen);
    SentinelMeansPublished(m.cap, m.buf, g, m.senders);
    TakeReadsMessage(m, g);
  }

  lemma WipedFirst(r: Receiver, r': Receiver, slots: seq<Slot>, slots': seq<Slot>, senders: seq<Sender>, cap: nat)
    requires cap > 0 && Writers(senders, cap, slots) && Published(r, slots)
    requires slots != [] && slots[0].writer == NOBODY && |slots'| > 0
    requires slots' == slots[0 := slots'[0]]
    requires slots'[0].msg == slots[0].msg && slots'[0].writer == NOBODY
    requires match r'
      case Clearing(_, msg, todo) =>
        msg == slots[0].msg && todo <= BodyOffsets(msg) && slots'[0].present == todo + Span(0, SENTINEL_SIZE)
      case Releasing(_, msg) => msg == slots[0].msg && slots'[0].present == {}
      case _ => false
    ensures Writers(senders, cap, slots') && Published(r', slots')
  {
    forall p | 0 <= p < |senders| && senders[p].Writing? ensures SlotOf(slots', p) < |slots'| {
      assert slots'[SlotOf(slots, p)].writer == p;
    }
  }

  lemma WipeBuffer(cap: nat, buf: seq<Byte>, buf': seq<Byte>, g: Log, g': Log, i: nat)
    requires Layout(cap, g) && |buf| == cap > 0 && Memory(buf, g)
    requires g.slots != [] && i < FullLen(g.slots[0].msg)
    requires SlotReplaced(g, g', 0, g.slots[0].(present := g.slots[0].present - {i}))
    requires buf' == buf[Index(Index(g.base, cap) + i, cap) := 0]
    ensures Layout(cap, g') && Memory(buf', g')
  {
    SlotBounds(g.slots, 0, g.base, g.end, 0);
    IndexAdd(g.base, i, cap);
    WriteByte(cap, buf, buf', g, g', 0, i, g'.slots[0].present, 0);
  }

  lemma WipePresent(present: set<nat>, todo: set<nat>, msg: Message, i: nat)
    requires i in todo && todo <= BodyOffsets(msg) && present == todo + Span(0, SENTINEL_SIZE)
    ensures present - {i} == (todo - {i}) + Span(0, SENTINEL_SIZE) && i < FullLen(msg)
  {
  }

  lemma KeepWipe(m: Machine, g: Log, i: nat)
    requires Inv(m, g) && Enabled(m, WipeByte(i))
    ensures Inv(Step(m, WipeByte(i)), Note(m, g, WipeByte(i)))
  {
    var m', g' := Step(m, WipeByte(i)), Note(m, g, WipeByte(i));
    ReadWord(m.cap, g.base, g.seen);
    var s := g.slots[0];
    WipePresent(s.present, m.receiver.todo, s.msg, i);
    assert SlotReplaced(g, g', 0, s.(present := s.present - {i}));
    WipeBuffer(m.cap, m.buf, m'.buf, g, g', i);
    WipedFirst(m.receiver, m'.receiver, g.slots, g'.slots, m.senders, m.cap);
    ReplacedHistory(m.delivered, g, g', 0, g'.slots[0]);
  }

  lemma KeepWipeSentinel(m: Machine, g: Log)
    requires Inv(m, g) && Enabled(m, WipeSentinel)
    ensures Inv(Step(m, WipeSentinel), Note(m, g, WipeSentinel))
  {
    var m', g' := Step(m, WipeSentinel), Note(m, g, WipeSentinel);
    ReadWord(m.cap, g.base, g.seen);
    var s := g.slots[0];
    var s' := s.(present := s.present - Span(0, SENTINEL_SIZE));
    assert s'.present == {};
    assert SlotReplaced(g, g', 0, s');
    SlotBounds(g.slots, 0, g.base, g.end, 0);
    WriteWord(m.cap, m.buf, m'.buf, g, g', 0, s', 0);
    WipedFirst(m.receiver, m'.receiver, g.slots, g'.slots, m.senders, m.cap);
    ReplacedHistory(m.delivered, g, g', 0, s');
  }

  // ----- release -----

  /** `g'` is `g` without its first slot, seen up to its end. */
  predicate FirstReleased(g: Log, g': Log) {
    && g.slots != [] && g'.slots == g.slots[1..]
    && g'.base == g.base + FullLen(g.slots[0].msg) && g'.end == g.end && g'.seen == g.end
    && g'.reserved == g.reserved
  }

  /** The released stretch, all wiped, becomes the far end of the free one. */
  lemma ReleaseMemory(cap: nat, buf: seq<Byte>, g: Log, g': Log)
    requires Layout(cap, g) && |buf| == cap > 0 && Memory(buf, g)
    requires FirstReleased(g, g') && g.slots[0].present == {}
    ensures Layout(cap, g') && Memory(buf, g')
  {
    SlotBounds(g.slots, 0, g.base, g.end, 0);
    SlotAligned(g.slots, 0, g.base, g.end, cap, 1);
    ContiguousTail(g.slots, 1, g'.base, g.end);
    ContiguousGrows(g'.slots, 0, g'.base, g'.end);
    forall a | g'.base <= a < g'.base + cap
      ensures buf[Index(a, cap)] == Expected(g'.slots, 0, a)
    {
      ExpectedTail(g.slots, 1, a);
      if a >= g.base + cap {
        assert Index(a, cap) == Index(a - cap, cap);
        ExpectedAt(g.slots, 0, g.base, g.end, 0, a - cap - g.base);
        ExpectedFree(g'.slots, 0, g'.base, g'.end, a);
      }
    }
  }

  lemma ReleaseOwners(senders: seq<Sender>, cap: nat, r: Receiver, slots: seq<Slot>, slots': seq<Slot>)
    requires cap > 0 && Writers(senders, cap, slots) && Published(r, slots) && r.Releasing?
    requires slots != [] && slots' == slots[1..]
    ensures Writers(senders, cap, slots') && Published(Ready, slots')
  {
    forall p | 0 <= p < |senders| && senders[p].Writing? ensures SlotOf(slots', p) < |slots'| {
      var k := SlotOf(slots, p);
      assert k > 0 && slots'[k - 1].writer == p;
    }
    forall k | 0 <= k < |slots'| ensures slots'[k] == slots[k + 1] {
    }
  }

  /** The machine before and after a successful release. */
  predicate Freed(m: Machine, g: Log, m': Machine, g': Log)
    requires 0 < m.cap < WORD_32
  {
    && FirstReleased(g, g') && m.receiver.Releasing? && g.seen == g.end
    && m'.indices == Pack(Index(Index(g.base, m.cap) + FullLen(g.slots[0].msg), m.cap), Index(g.end, m.cap))
    && m'.cached == m'.indices && m'.receiver == Ready
    && m'.delivered == m.delivered + [g.slots[0].msg]
    && m'.cap == m.cap && m'.buf == m.buf && m'.senders == m.senders
  }

  lemma FreedView(m: Machine, g: Log, m': Machine, g': Log)
    requires 0 < m.cap < WORD_32 && Layout(m.cap, g) && Layout(m.cap, g') && Freed(m, g, m', g')
    ensures View(m', g')
    ensures ReadIndex(m'.indices) < m.cap && WriteIndex(m'.indices) < m.cap
  {
    IndexAdd(g.base, FullLen(g.slots[0].msg), m.cap);
    ReadWord(m.cap, g'.base, g'.end);
  }

  lemma FreedHistory(delivered: seq<Message>, g: Log, g': Log)
    requires FirstReleased(g, g') && History(delivered, g.slots, g.reserved)
    ensures History(delivered + [g.slots[0].msg], g'.slots, g'.reserved)
  {
  }

  lemma FreedKeeps(m: Machine, g: Log, m': Machine, g': Log)
    requires Inv(m, g) && Freed(m, g, m', g')
    ensures Inv(m', g')
  {
    ReleaseMemory(m.cap, m.buf, g, g');
    FreedView(m, g, m', g');
    ReleaseOwners(m.senders, m.cap, m.receiver, g.slots, g'.slots);
    FreedHistory(m.delivered, g, g');
  }

  lemma KeepRelease(m: Machine, g: Log)
    requires Inv(m, g) && Enabled(m, Release)
    ensures Inv(Step(m, Release), Note(m, g, Release))
  {
    ReadWord(m.cap, g.base, g.seen);
    ReadWord(m.cap, g.base, g.end);
    if m.indices == m.receiver.curr {
      SameIndex(g.base, g.seen, g.end, m.cap);
      FreedKeeps(m, g, Step(m, Release), Note(m, g, Release));
    }
  }

  /** Every step of the machine keeps the invariant. */
  lemma Keep(m: Machine, g: Log, a: Action)
    requires Inv(m, g) && Enabled(m, a)
    ensures Inv(Step(m, a), Note(m, g, a))
  {
    match a
    case Fetch(_, _) => KeepQuiet(m, g, a);
    case GiveUp(_) => KeepQuiet(m, g, a);
    case Try(p) => if Wins(m, p) { KeepWonTry(m, g, p); } else { KeepQuiet(m, g, a); }
    case PutByte(p, i) => KeepPut(m, g, p, i);
    case Publish(p) => KeepPublish(m, g, p);
    case Poll => KeepPoll(m, g);
    case Take => KeepTake(m, g);
    case WipeByte(i) => KeepWipe(m, g, i);
    case WipeSentinel => KeepWipeSentinel(m, g);
    case Release => KeepRelease(m, g);
  }

  // ----- the main results, over whole runs -----

  /** An empty mailbox with `n` idle senders, as `hvr_mailbox_init` leaves it. */
  function Initial(cap: nat, n: nat): (m: Machine)
  {
    Machine(cap, 0, seq(cap, _ => 0), seq(n, _ => Idle), 0, Ready, [])
  }

  function EmptyLog(): Log {
    Log(0, 0, 0, [], [])
  }

  /** A capacity `hvr_mailbox_init` accepts. */
  predicate GoodCapacity(cap: nat) {
    0 < cap < WORD_32 && cap % SENTINEL_SIZE == 0
  }

  lemma InitialInv(cap: nat, n: nat)
    requires GoodCapacity(cap)
    ensures Inv(Initial(cap, n), EmptyLog())
  {
  }

  /** A run: any actions, in any interleaving, each possible when it happens. */
  predicate IsRun(m: Machine, run: seq<Action>)
    decreases run
  {
    run == [] || (Enabled(m, run[0]) && IsRun(Step(m, run[0]), run[1..]))
  }

  function After(m: Machine, run: seq<Action>): Machine
    requires IsRun(m, run)
    decreases run
  {
    if run == [] then m else After(Step(m, run[0]), run[1..])
  }

  function LogAfter(m: Machine, g: Log, run: seq<Action>): Log
    requires IsRun(m, run)
    decreases run
  {
    if run == [] then g else LogAfter(Step(m, run[0]), Note(m, g, run[0]), run[1..])
  }

  /** The messages of the run's successful compare-and-swaps, in their order. */
  function Reservations(m: Machine, run: seq<Action>): seq<Message>
    requires IsRun(m, run)
    decreases run
  {
    if run == [] then [] else Reserves(m, run[0]) + Reservations(Step(m, run[0]), run[1..])
  }

  function Reserves(m: Machine, a: Action): seq<Message>
    requires Enabled(m, a)
  {
    if a.Try? && Wins(m, a.p) then [m.senders[a.p].msg] else []
  }

  lemma {:induction false} RunKeeps(m: Machine, g: Log, run: seq<Action>)
    requires Inv(m, g) && IsRun(m, run)
    ensures Inv(After(m, run), LogAfter(m, g, run))
    decreases run
  {
    if run != [] {
      Keep(m, g, run[0]);
      RunKeeps(Step(m, run[0]), Note(m, g, run[0]), run[1..]);
    }
  }

  lemma NoteReserves(m: Machine, g: Log, a: Action)
    requires Enabled(m, a)
    ensures Note(m, g, a).reserved == g.reserved + Reserves(m, a)
  {
  }

  lemma Regroup(a: seq<Message>, b: seq<Message>, c: seq<Message>)
    ensures (a + b) + c == a + (b + c)
  {
  }

  lemma {:induction false} RunReserves(m: Machine, g: Log, run: seq<Action>)
    requires IsRun(m, run)
    ensures LogAfter(m, g, run).reserved == g.reserved + Reservations(m, run)
    decreases run
  {
    if run != [] {
      NoteReserves(m, g, run[0]);
      RunReserves(Step(m, run[0]), Note(m, g, run[0]), run[1..]);
      Regroup(g.reserved, Reserves(m, run[0]), Reservations(Step(m, run[0]), run[1..]));
    }
  }

  /** What the invariant says of the state a run from an empty mailbox reaches. */
  lemma Reached(cap: nat, n: nat, run: seq<Action>) returns (g: Log)
    requires GoodCapacity(cap) && IsRun(Initial(cap, n), run)
    ensures Inv(After(Initial(cap, n), run), g)
    ensures g.reserved == Reservations(Initial(cap, n), run)
    ensures After(Initial(cap, n), run).cap == cap
  {
    InitialInv(cap, n);
    g := LogAfter(Initial(cap, n), EmptyLog(), run);
    RunKeeps(Initial(cap, n), EmptyLog(), run);
    RunReserves(Initial(cap, n), EmptyLog(), run);
    SameCapacity(Initial(cap, n), run);
  }

  /** The mailbox is a FIFO queue: whatever the interleaving of however many
      senders, what has been received is, byte for byte and without loss,
      repetition or reordering, a prefix of the messages in the order in which
      their reservations succeeded. */
  lemma ReceivedIsPrefixOfReserved(cap: nat, n: nat, run: seq<Action>)
    requires GoodCapacity(cap) && IsRun(Initial(cap, n), run)
    ensures After(Initial(cap, n), run).delivered <= Reservations(Initial(cap, n), run)
  {
    var g := Reached(cap, n, run);
  }

  /** The run-time assertions of `hvr_mailbox_recv` hold in every reachable
      state: a receiver that goes on has bytes to read, the sentinel lies whole
      inside the buffer, and the read index is the receiver's alone. */
  lemma RecvAssertionsHold(cap: nat, n: nat, run: seq<Action>)
    requires GoodCapacity(cap) && IsRun(Initial(cap, n), run)
    ensures var m := After(Initial(cap, n), run);
      && Shaped(m)
      && (!m.receiver.Ready? ==>
            && UsedBytes(ReadIndex(m.receiver.curr), WriteIndex(m.receiver.curr), m.cap) > 0
            && ReadIndex(m.receiver.curr) + SENTINEL_SIZE <= m.cap
            && ReadIndex(m.indices) == ReadIndex(m.receiver.curr))
  {
    var m := After(Initial(cap, n), run);
    var g := Reached(cap, n, run);
    ReadWord(m.cap, g.base, g.end);
    ReadWord(m.cap, g.base, g.seen);
    IndexAligned(g.base, m.cap);
  }

  lemma FreeByte(cap: nat, buf: seq<Byte>, g: Log, k: nat)
    requires Layout(cap, g) && |buf| == cap > 0 && Memory(buf, g)
    requires k < cap - (g.end - g.base)
    ensures buf[Index(Index(g.end, cap) + k, cap)] == 0
  {
    IndexAdd(g.end, k, cap);
    ExpectedFree(g.slots, 0, g.base, g.end, g.end + k);
  }

  lemma EmptyWhenAllReceived(cap: nat, delivered: seq<Message>, g: Log)
    requires Layout(cap, g) && History(delivered, g.slots, g.reserved)
    ensures g.base == g.end <==> delivered == g.reserved
  {
    ContiguousGrows(g.slots, 0, g.base, g.end);
  }

  /** Outside the stretch the index word declares in use, the ring is all
      zero; and read and write index agree exactly when every reserved message
      has been received. */
  lemma FreeStretchIsZero(cap: nat, n: nat, run: seq<Action>, k: nat)
    requires GoodCapacity(cap) && IsRun(Initial(cap, n), run)
    ensures var m := After(Initial(cap, n), run);
      && Shaped(m) && m.cap == cap && FreeByteIsZero(m, k)
      && (Used(m) == 0 <==> m.delivered == Reservations(Initial(cap, n), run))
  {
    var g := Reached(cap, n, run);
    FreeStretch(After(Initial(cap, n), run), g, k);
  }

  function Used(m: Machine): nat
    requires Shaped(m)
  {
    UsedBytes(ReadIndex(m.indices), WriteIndex(m.indices), m.cap)
  }

  predicate FreeByteIsZero(m: Machine, k: nat)
    requires Shaped(m)
  {
    k < m.cap - Used(m) ==> m.buf[Index(WriteIndex(m.indices) + k, m.cap)] == 0
  }

  lemma FreeStretch(m: Machine, g: Log, k: nat)
    requires Inv(m, g)
    ensures FreeByteIsZero(m, k) && (Used(m) == 0 <==> m.delivered == g.reserved)
  {
    UsedIsReserved(m, g);
    if k < m.cap - (g.end - g.base) { FreeByte(m.cap, m.buf, g, k); }
    EmptyWhenAllReceived(m.cap, m.delivered, g);
  }

  lemma UsedIsReserved(m: Machine, g: Log)
    requires Shaped(m) && Layout(m.cap, g) && View(m, g)
    ensures Used(m) == g.end - g.base && WriteIndex(m.indices) == Index(g.end, m.cap)
  {
    ReadWord(m.cap, g.base, g.end);
  }

  lemma {:induction false} SameCapacity(m: Machine, run: seq<Action>)
    requires IsRun(m, run)
    ensures After(m, run).cap == m.cap
    decreases run
  {
    if run != [] { SameCapacity(Step(m, run[0]), run[1..]); }
  }

  /** A message is never read half written: when the receiver sees the
      sentinel, every byte of the slot is already there. */
  lemma NeverPartlyWritten(cap: nat, n: nat, run: seq<Action>)
    requires GoodCapacity(cap) && IsRun(Initial(cap, n), run)
    requires Enabled(After(Initial(cap, n), run), Take)
    ensures var m := After(Initial(cap, n), run);
      |m.delivered| < |Reservations(Initial(cap, n), run)|
      && Step(m, Take).receiver.msg == Reservations(Initial(cap, n), run)[|m.delivered|]
  {
    var m := After(Initial(cap, n), run);
    var g := Reached(cap, n, run);
    Keep(m, g, Take);
  }

  // ----- used bytes are outstanding reservations -----

  /** The bytes of the ring the messages take up. */
  function TotalLen(msgs: seq<Message>): nat {
    if msgs == [] then 0 else FullLen(msgs[0]) + TotalLen(msgs[1..])
  }

  lemma {:induction false} SlotsTotal(slots: seq<Slot>, k: nat, base: nat, end: nat, msgs: seq<Message>)
    requires k <= |slots| && Contiguous(slots, k, base, end) && |msgs| == |slots| - k
    requires forall i :: 0 <= i < |msgs| ==> msgs[i] == slots[k + i].msg
    ensures end - base == TotalLen(msgs)
    decreases |slots| - k
  {
    if k < |slots| {
      SlotsTotal(slots, k + 1, base + FullLen(slots[k].msg), end, msgs[1..]);
    }
  }

  lemma UsedIsTotal(m: Machine, g: Log)
    requires Shaped(m) && Layout(m.cap, g) && View(m, g) && History(m.delivered, g.slots, g.reserved)
    ensures Used(m) == TotalLen(g.reserved[|m.delivered|..])
  {
    UsedIsReserved(m, g);
    SlotsTotal(g.slots, 0, g.base, g.end, g.reserved[|m.delivered|..]);
  }

  /** What `used_bytes` computes from the index word is the sum of the reservations not yet released. */
  lemma UsedIsOutstanding(cap: nat, n: nat, run: seq<Action>)
    requires GoodCapacity(cap) && IsRun(Initial(cap, n), run)
    ensures var m := After(Initial(cap, n), run);
      && Shaped(m) && |m.delivered| <= |Reservations(Initial(cap, n), run)|
      && Used(m) == TotalLen(Reservations(Initial(cap, n), run)[|m.delivered|..])
  {
    var g := Reached(cap, n, run);
    UsedIsTotal(After(Initial(cap, n), run), g);
  }

  /** A sender with a reservation can put each byte that is left, and publish when none is:
      its stretch is aligned, so the sentinel does not wrap. */
  predicate CanFinish(m: Machine, p: nat) {
    p < |m.senders| && m.senders[p].Writing? ==>
      && m.senders[p].start % SENTINEL_SIZE == 0 && m.senders[p].start + SENTINEL_SIZE <= m.cap
      && (forall i :: i in m.senders[p].todo ==> Enabled(m, PutByte(p, i)))
      && (m.senders[p].todo == {} ==> Enabled(m, Publish(p)))
  }

  lemma WriterCanFinish(m: Machine, g: Log, p: nat)
    requires Shaped(m) && Layout(m.cap, g) && Writers(m.senders, m.cap, g.slots)
    ensures CanFinish(m, p)
  {
    if p < |m.senders| && m.senders[p].Writing? {
      WriterSlot(m.senders, m.cap, g.slots, p);
      var k := SlotOf(g.slots, p);
      SlotAligned(g.slots, 0, g.base, g.end, m.cap, k);
      IndexAligned(g.slots[k].start, m.cap);
    }
  }

  /** Nobody is stopped half way, neither a sender nor the receiver with what it has taken. */
  lemma NeverStuck(cap: nat, n: nat, run: seq<Action>, p: nat)
    requires GoodCapacity(cap) && IsRun(Initial(cap, n), run)
    ensures var m := After(Initial(cap, n), run);
      CanFinish(m, p) && (m.receiver.Clearing? && m.receiver.todo == {} ==> Enabled(m, WipeSentinel))
  {
    var g := Reached(cap, n, run);
    WriterCanFinish(After(Initial(cap, n), run), g, p);
    RecvAssertionsHold(cap, n, run);
  }

  // ----- one sender's messages -----

  /** Which sender made each reservation of the run. */
  function Reservers(m: Machine, run: seq<Action>): seq<nat>
    requires IsRun(m, run)
    decreases run
  {
    if run == [] then []
    else
      (if run[0].Try? && Wins(m, run[0].p) then [run[0].p] else []) + Reservers(Step(m, run[0]), run[1..])
  }

  /** The messages of sender `p`'s own successful compare-and-swaps, in their order. */
  function ReservationsBy(m: Machine, run: seq<Action>, p: nat): seq<Message>
    requires IsRun(m, run)
    decreases run
  {
    if run == [] then []
    else
      (if run[0] == Try(p) && Wins(m, p) then [m.senders[p].msg] else []) + ReservationsBy(Step(m, run[0]), run[1..], p)
  }

  /** The messages that `who` puts down to sender `p`. */
  function From(msgs: seq<Message>, who: seq<nat>, p: nat): seq<Message>
    requires |msgs| <= |who|
  {
    if msgs == [] then [] else (if who[0] == p then [msgs[0]] else []) + From(msgs[1..], who[1..], p)
  }

  lemma {:induction false} ReservationsFrom(m: Machine, run: seq<Action>, p: nat)
    requires IsRun(m, run)
    ensures |Reservers(m, run)| == |Reservations(m, run)|
    ensures From(Reservations(m, run), Reservers(m, run), p) == ReservationsBy(m, run, p)
    decreases run
  {
    if run != [] {
      var rest, who := Reservations(Step(m, run[0]), run[1..]), Reservers(Step(m, run[0]), run[1..]);
      ReservationsFrom(Step(m, run[0]), run[1..], p);
      if run[0].Try? && Wins(m, run[0].p) {
        assert Reservations(m, run)[1..] == rest && Reservers(m, run)[1..] == who;
      } else {
        assert Reservations(m, run) == rest && Reservers(m, run) == who;
      }
    }
  }

  lemma {:induction false} FromSplits(msgs: seq<Message>, who: seq<nat>, p: nat, k: nat)
    requires k <= |msgs| <= |who|
    ensures From(msgs, who, p) == From(msgs[..k], who[..k], p) + From(msgs[k..], who[k..], p)
    ensures From(msgs[..k], who, p) == From(msgs[..k], who[..k], p)
  {
    if k > 0 {
      FromSplits(msgs[1..], who[1..], p, k - 1);
      assert msgs[..k][1..] == msgs[1..][..k - 1] && who[..k][1..] == who[1..][..k - 1];
      assert msgs[1..][k - 1..] == msgs[k..] && who[1..][k - 1..] == who[k..];
    } else {
      assert msgs[k..] == msgs && who[k..] == who;
    }
  }

  /** Sender `p`'s messages that have been received. */
  function DeliveredFrom(cap: nat, n: nat, run: seq<Action>, p: nat): seq<Message>
    requires GoodCapacity(cap) && IsRun(Initial(cap, n), run)
  {
    var delivered, who := After(Initial(cap, n), run).delivered, Reservers(Initial(cap, n), run);
    if |delivered| <= |who| then From(delivered, who, p) else []
  }

  /** Sender `p`'s messages that have a stretch of the ring. */
  function OutstandingFrom(cap: nat, n: nat, run: seq<Action>, p: nat): seq<Message>
    requires GoodCapacity(cap) && IsRun(Initial(cap, n), run)
  {
    var k := |After(Initial(cap, n), run).delivered|;
    var reserved, who := Reservations(Initial(cap, n), run), Reservers(Initial(cap, n), run);
    if k <= |reserved| <= |who| then From(reserved[k..], who[k..], p) else []
  }

  /** Each sender's messages arrive in the order it sent them, once each: what was received from it,
      then what it has in the ring, is what it reserved. */
  lemma SenderInOrder(cap: nat, n: nat, run: seq<Action>, p: nat)
    requires GoodCapacity(cap) && IsRun(Initial(cap, n), run)
    ensures |After(Initial(cap, n), run).delivered| <= |Reservers(Initial(cap, n), run)|
    ensures DeliveredFrom(cap, n, run, p) + OutstandingFrom(cap, n, run, p) == ReservationsBy(Initial(cap, n), run, p)
  {
    var m := Initial(cap, n);
    ReceivedIsPrefixOfReserved(cap, n, run);
    ReservationsFrom(m, run, p);
    var delivered, reserved, who := After(m, run).delivered, Reservations(m, run), Reservers(m, run);
    FromSplits(reserved, who, p, |delivered|);
    assert delivered == reserved[..|delivered|];
  }
}
