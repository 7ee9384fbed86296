/**
 The network stack's byte rings (network/network_stack.cpp): free-running 64-bit head and tail
 counters, indexed modulo the capacity, specified by a bounded first-in-first-out queue.
 */
module RingBuffers {
  import opened Prelude

  // ----- the queue

  /** A write is taken whole or not at all. */
  function Enqueue(q: seq<Byte>, bytes: seq<Byte>, capacity: nat): (seq<Byte>, bool) {
    if |q| + |bytes| <= capacity then (q + bytes, true) else (q, false)
  }

  /** A read takes exactly `size` bytes off the front or nothing. */
  function Dequeue(q: seq<Byte>, size: nat): (seq<Byte>, Option<seq<Byte>>) {
    if size <= |q| then (q[size..], Some(q[..size])) else (q, None)
  }

  // ----- why the counters may wrap

  /** The slot of the byte i places behind the counter value h. */
  function Slot(h: nat, i: nat, capacity: nat): (s: nat)
    requires capacity > 0
    ensures s < capacity
  {
    (h + i) % U64 % capacity
  }

  /** The slots of any `capacity` consecutive counter values are all different. */
  ghost predicate WrapSafe(capacity: nat)
    requires capacity > 0
  {
    forall h: nat, i: nat, j: nat | h < U64 && i < j < capacity :: Slot(h, i, capacity) != Slot(h, j, capacity)
  }

  lemma MultipleOutside(d: int, m: int)
    requires m > 0
    ensures d > 0 ==> d * m >= m
    ensures d < 0 ==> d * m <= -m
  {
  }

  lemma DivModUnique(x: int, q: int, r: nat, m: nat)
    requires m > 0 && x == q * m + r && r < m
    ensures x % m == r
  {
    assert x == x / m * m + x % m;
    assert (q - x / m) * m == x % m - r;
    MultipleOutside(q - x / m, m);
  }

  lemma ModOfMultiple(x: int, k: int, m: nat)
    requires m > 0
    ensures (x + k * m) % m == x % m
  {
    assert x == x / m * m + x % m;
    assert x + k * m == (x / m + k) * m + x % m;
    DivModUnique(x + k * m, x / m + k, x % m, m);
  }

  /** Reducing modulo 2^64 first does not change the slot, when the capacity divides 2^64. */
  lemma SlotIgnoresWrap(x: nat, capacity: nat)
    requires capacity > 0 && U64 % capacity == 0
    ensures x % U64 % capacity == x % capacity
  {
    var q, m := x / U64, U64 / capacity;
    assert U64 == m * capacity;
    assert q * U64 == (q * m) * capacity;
    ModOfMultiple(x % U64, q * m, capacity);
  }

  lemma DistinctResidues(x: nat, y: nat, m: nat)
    requires m > 0 && x < y < x + m
    ensures x % m != y % m
  {
    assert x == x / m * m + x % m && y == y / m * m + y % m;
    assert y - x == (y / m - x / m) * m + y % m - x % m;
    MultipleOutside(y / m - x / m, m);
  }

  lemma DivisorIsWrapSafe(h: nat, i: nat, j: nat, capacity: nat)
    requires capacity > 0 && U64 % capacity == 0 && i < j < capacity
    ensures Slot(h, i, capacity) != Slot(h, j, capacity)
  {
    SlotIgnoresWrap(h + i, capacity);
    SlotIgnoresWrap(h + j, capacity);
    DistinctResidues(h + i, h + j, capacity);
  }

  /** Otherwise the last counter value shares its slot with the one U64 % capacity places behind it. */
  lemma NonDivisorCollides(capacity: nat)
    requires 0 < capacity <= U64 && U64 % capacity != 0
    ensures Slot(U64 - 1, 0, capacity) == Slot(U64 - 1, U64 % capacity, capacity)
  {
    var r := U64 % capacity;
    assert (U64 - 1 + r) % U64 == r - 1;
    assert U64 - 1 == r - 1 + U64 / capacity * capacity;
    ModOfMultiple(r - 1, U64 / capacity, capacity);
  }

  /** Wrapping is harmless exactly when the capacity divides 2^64. */
  lemma WrapSafeExactlyForDivisors(capacity: nat)
    requires 0 < capacity <= U64
    ensures WrapSafe(capacity) <==> U64 % capacity == 0
  {
    if U64 % capacity == 0 {
      forall h: nat, i: nat, j: nat | h < U64 && i < j < capacity
        ensures Slot(h, i, capacity) != Slot(h, j, capacity)
      {
        DivisorIsWrapSafe(h, i, j, capacity);
      }
    } else {
      NonDivisorCollides(capacity);
    }
  }

  // ----- the ring as a window on its buffer

  /** tail - head, as the unsigned subtraction. */
  function Distance(head: nat, tail: nat): nat {
    (tail - head) % U64
  }

  function Next(counter: nat): nat {
    (counter + 1) % U64
  }

  lemma PushDistance(head: nat, tail: nat)
    requires head < U64 && tail < U64 && Distance(head, tail) + 1 < U64
    ensures Distance(head, Next(tail)) == Distance(head, tail) + 1
  {
  }

  lemma PopDistance(head: nat, tail: nat)
    requires head < U64 && tail < U64 && Distance(head, tail) > 0
    ensures Distance(Next(head), tail) == Distance(head, tail) - 1
  {
  }

  lemma AddAfterWrap(x: int, y: int)
    ensures (x % U64 + y) % U64 == (x + y) % U64
  {
    assert x == x / U64 * U64 + x % U64;
    ModOfMultiple(x % U64 + y, x / U64, U64);
  }

  lemma TailSlot(head: nat, tail: nat, capacity: nat)
    requires capacity > 0 && head < U64 && tail < U64
    ensures Slot(head, Distance(head, tail), capacity) == tail % capacity
  {
    AddAfterWrap(tail - head, head);
  }

  lemma NextSlot(head: nat, i: nat, capacity: nat)
    requires capacity > 0 && head < U64
    ensures Slot(Next(head), i, capacity) == Slot(head, i + 1, capacity)
  {
    AddAfterWrap(head + 1, i);
  }

  lemma HeadSlot(head: nat, capacity: nat)
    requires capacity > 0 && head < U64
    ensures Slot(head, 0, capacity) == head % capacity
  {
  }

  /** The n bytes behind the counter value `head`. */
  function Window(data: seq<Byte>, head: nat, n: nat): (q: seq<Byte>)
    requires |data| > 0
    ensures |q| == n
  {
    seq(n, i requires 0 <= i < n => data[Slot(head, i, |data|)])
  }

  lemma PushWindow(data: seq<Byte>, head: nat, n: nat, slot: nat, b: Byte)
    requires |data| > 0 && U64 % |data| == 0 && n < |data| && slot == Slot(head, n, |data|)
    ensures Window(data[slot := b], head, n + 1) == Window(data, head, n) + [b]
  {
    forall i: nat | i < n ensures Slot(head, i, |data|) != slot {
      DivisorIsWrapSafe(head, i, n, |data|);
    }
  }

  lemma PopWindow(data: seq<Byte>, head: nat, n: nat)
    requires |data| > 0 && head < U64 && n > 0
    ensures Window(data, head, n) == [data[head % |data|]] + Window(data, Next(head), n - 1)
  {
    var q, r := Window(data, head, n), Window(data, Next(head), n - 1);
    HeadSlot(head, |data|);
    forall i: nat | i < n - 1 ensures q[i + 1] == r[i] {
      NextSlot(head, i, |data|);
    }
    assert q == [q[0]] + q[1..] && q[1..] == r;
  }

  // ----- the ring as a value

  /** Buffer and counters, as the code has them. */
  datatype Ring = Ring(data: seq<Byte>, head: nat, tail: nat) {
    predicate Valid() {
      0 < |data| < U64 && head < U64 && tail < U64 && Distance(head, tail) <= |data|
    }

    function Contents(): (q: seq<Byte>)
      requires Valid()
      ensures |q| == Distance(head, tail)
    {
      Window(data, head, Distance(head, tail))
    }

    function Push(b: Byte): (r: Ring)
      requires |data| > 0
      ensures |r.data| == |data| && r.head == head
    {
      Ring(data[tail % |data| := b], head, Next(tail))
    }

    function PushAll(bytes: seq<Byte>): (r: Ring)
      requires |data| > 0
      ensures |r.data| == |data| && r.head == head
      decreases |bytes|
    {
      if bytes == [] then this
      else
        var n := |bytes| - 1;
        PushAll(bytes[..n]).Push(bytes[n])
    }

    /** The write loop, if the unsigned room is enough for all bytes. */
    function Write(bytes: seq<Byte>): (Ring, bool)
      requires |data| > 0
    {
      if (|data| - Distance(head, tail)) % U64 < |bytes| then (this, false) else (PushAll(bytes), true)
    }

    function Pop(): (Ring, Byte)
      requires |data| > 0
    {
      (Ring(data, Next(head), tail), data[head % |data|])
    }

    function PopAll(n: nat): (r: (Ring, seq<Byte>))
      requires |data| > 0
      ensures r.0.data == data && |r.1| == n
    {
      if n == 0 then (this, [])
      else
        var (r, q) := PopAll(n - 1);
        (r.Pop().0, q + [r.Pop().1])
    }

    function Read(size: nat): (Ring, Option<seq<Byte>>)
      requires |data| > 0
    {
      if Distance(head, tail) < size then (this, None)
      else
        var (r, q) := PopAll(size);
        (r, Some(q))
    }
  }

  function Empty(capacity: nat): Ring {
    Ring(seq(capacity, i => 0), 0, 0)
  }

  // ----- the ring refines the queue

  lemma PushAppends(r: Ring, b: Byte)
    requires r.Valid() && U64 % |r.data| == 0 && |r.Contents()| < |r.data|
    ensures r.Push(b).Valid() && r.Push(b).Contents() == r.Contents() + [b]
  {
    PushDistance(r.head, r.tail);
    TailSlot(r.head, r.tail, |r.data|);
    PushWindow(r.data, r.head, Distance(r.head, r.tail), r.tail % |r.data|, b);
  }

  lemma {:induction false} PushAllAppends(r: Ring, bytes: seq<Byte>)
    requires r.Valid() && U64 % |r.data| == 0 && |r.Contents()| + |bytes| <= |r.data|
    ensures r.PushAll(bytes).Valid() && r.PushAll(bytes).Contents() == r.Contents() + bytes
    decreases |bytes|
  {
    if bytes == [] {
    } else {
      var n := |bytes| - 1;
      PushAllAppends(r, bytes[..n]);
      PushAppends(r.PushAll(bytes[..n]), bytes[n]);
      assert bytes == bytes[..n] + [bytes[n]];
    }
  }

  lemma PopTakes(r: Ring)
    requires r.Valid() && r.Contents() != []
    ensures var (t, b) := r.Pop(); t.Valid() && r.Contents() == [b] + t.Contents()
  {
    PopDistance(r.head, r.tail);
    PopWindow(r.data, r.head, Distance(r.head, r.tail));
  }

  lemma {:induction false} PopAllTakes(r: Ring, n: nat)
    requires r.Valid() && n <= |r.Contents()|
    ensures var (t, q) := r.PopAll(n); t.Valid() && q + t.Contents() == r.Contents()
  {
    if n == 0 {
    } else {
      PopAllTakes(r, n - 1);
      var (t, q) := r.PopAll(n - 1);
      PopTakes(t);
      assert q + ([t.Pop().1] + t.Pop().0.Contents()) == q + [t.Pop().1] + t.Pop().0.Contents();
    }
  }

  /** The write of the ring is the write of the queue. */
  lemma WriteEnqueues(r: Ring, bytes: seq<Byte>)
    requires r.Valid() && U64 % |r.data| == 0
    ensures var (t, ok) := r.Write(bytes);
            && t.Valid() && |t.data| == |r.data|
            && (t.Contents(), ok) == Enqueue(r.Contents(), bytes, |r.data|)
  {
    NoWrap(|r.data| - Distance(r.head, r.tail), |r.data| - |r.Contents()|);
    if |r.Contents()| + |bytes| <= |r.data| { PushAllAppends(r, bytes); }
  }

  /** The read of the ring is the read of the queue, whatever its capacity. */
  lemma ReadDequeues(r: Ring, size: nat)
    requires r.Valid()
    ensures var (t, got) := r.Read(size);
            && t.Valid() && t.data == r.data
            && (t.Contents(), got) == Dequeue(r.Contents(), size)
  {
    if size <= |r.Contents()| {
      PopAllTakes(r, size);
      var (t, q) := r.PopAll(size);
      assert (q + t.Contents())[..size] == q && (q + t.Contents())[size..] == t.Contents();
    }
  }

  // ----- exactly when

  ghost predicate AppendsOnly(r: Ring, b: Byte)
    requires r.Valid()
  {
    r.Push(b).Valid() && r.Push(b).Contents() == r.Contents() + [b]
  }

  /** Appending a byte to a ring of this capacity never disturbs the bytes in it. */
  ghost predicate QueueSafe(capacity: nat) {
    forall r: Ring, b: Byte | r.Valid() && |r.data| == capacity && |r.Contents()| < capacity ::
      AppendsOnly(r, b)
  }

  /** The counters are about to wrap; the first byte queued sits in the slot that the tail comes to. */
  function Wrapping(capacity: nat): (r: Ring)
    requires 0 < capacity < U64 && U64 % capacity != 0
    ensures r.Valid() && |r.Contents()| == U64 % capacity
  {
    var n := U64 % capacity;
    assert Distance(U64 - 1, n - 1) == n;
    Ring(seq(capacity, i => 0), U64 - 1, n - 1)
  }

  lemma WrappingIsOverwritten(capacity: nat)
    requires 0 < capacity < U64 && U64 % capacity != 0
    ensures !AppendsOnly(Wrapping(capacity), 1)
  {
    var r := Wrapping(capacity);
    NonDivisorCollides(capacity);
    TailSlot(r.head, r.tail, capacity);
    var t := r.Push(1);
    assert t.data[Slot(t.head, 0, capacity)] == 1;
    PushDistance(r.head, r.tail);
    assert t.Contents()[0] == 1 && (r.Contents() + [1])[0] == 0;
  }

  /** The queue survives the wrap of the counters exactly when the capacity divides 2^64. */
  lemma QueueSafeExactlyForDivisors(capacity: nat)
    requires 0 < capacity < U64
    ensures QueueSafe(capacity) <==> U64 % capacity == 0
  {
    if U64 % capacity == 0 {
      forall r: Ring, b: Byte | r.Valid() && |r.data| == capacity && |r.Contents()| < capacity
        ensures AppendsOnly(r, b)
      {
        PushAppends(r, b);
      }
    } else {
      WrappingIsOverwritten(capacity);
    }
  }

  // ----- whole runs

  datatype Op = WriteOp(bytes: seq<Byte>) | ReadOp(size: nat)

  /** A ring with all the bytes it has accepted and delivered. */
  datatype History = History(ring: Ring, accepted: seq<Byte>, delivered: seq<Byte>)

  function Step(h: History, op: Op): History
    requires |h.ring.data| > 0
  {
    match op
    case WriteOp(bytes) =>
      var (r, ok) := h.ring.Write(bytes);
      if ok then History(r, h.accepted + bytes, h.delivered) else h.(ring := r)
    case ReadOp(size) =>
      var (r, got) := h.ring.Read(size);
      if got.Some? then History(r, h.accepted, h.delivered + got.value) else h.(ring := r)
  }

  ghost predicate IsRun(states: seq<History>, ops: seq<Op>) {
    && |states| == |ops| + 1
    && forall i | 0 <= i < |ops| :: |states[i].ring.data| > 0 && states[i + 1] == Step(states[i], ops[i])
  }

  /** What was accepted is what was delivered, followed by what is in the ring. */
  ghost predicate Faithful(h: History) {
    && h.ring.Valid() && U64 % |h.ring.data| == 0
    && h.delivered + h.ring.Contents() == h.accepted
  }

  lemma StepKeepsFaithful(h: History, op: Op)
    requires Faithful(h)
    ensures Faithful(Step(h, op)) && h.accepted <= Step(h, op).accepted
  {
    match op
    case WriteOp(bytes) => WriteEnqueues(h.ring, bytes);
    case ReadOp(size) => ReadDequeues(h.ring, size);
  }

  /**
   A write is taken exactly if its bytes fit beside those accepted and not yet delivered, and a
   read answers exactly if so many bytes are left; it then delivers just the next ones.
   */
  lemma StepAnswersExactly(h: History, op: Op)
    requires Faithful(h)
    ensures var t, waiting := Step(h, op), |h.accepted| - |h.delivered|;
            match op
            case WriteOp(bytes) =>
              && t.delivered == h.delivered
              && t.accepted == h.accepted + if waiting + |bytes| <= |h.ring.data| then bytes else []
            case ReadOp(size) =>
              && t.accepted == h.accepted
              && t.delivered ==
                 if size <= waiting then h.accepted[..|h.delivered| + size] else h.delivered
  {
    match op
    case WriteOp(bytes) =>
      WriteEnqueues(h.ring, bytes);
      assert h.accepted + [] == h.accepted;
    case ReadOp(size) =>
      ReadDequeues(h.ring, size);
      if size <= |h.ring.Contents()| {
        assert h.delivered + h.ring.Contents()[..size] == h.accepted[..|h.delivered| + size];
      }
  }

  /**
   Over any run of writes and reads, from any counters, near the wrap or not: what was read is a
   prefix of what was accepted, in order, the rest is in the ring, and the distance of the counters
   never exceeds the capacity.
   */
  lemma {:induction false} RunDeliversPrefix(states: seq<History>, ops: seq<Op>, k: nat)
    requires IsRun(states, ops) && Faithful(states[0]) && k < |states|
    ensures Faithful(states[k])
    ensures states[k].delivered <= states[k].accepted && states[0].accepted <= states[k].accepted
    ensures Distance(states[k].ring.head, states[k].ring.tail) <= |states[k].ring.data|
  {
    if k == 0 {
    } else {
      RunDeliversPrefix(states, ops, k - 1);
      assert states[k] == Step(states[k - 1], ops[k - 1]);
      StepKeepsFaithful(states[k - 1], ops[k - 1]);
    }
  }

  // ----- the rings themselves

  class RingBuffer {
    var data: array<Byte>
    var head: nat
    var tail: nat
    const capacity: nat

    ghost function View(): Ring
      reads this, data
    {
      Ring(data[..], head, tail)
    }

    ghost predicate Valid()
      reads this, data
    {
      data.Length == capacity && View().Valid()
    }

    constructor (size: nat)
      requires 0 < size < U64
      ensures Valid() && fresh(data) && capacity == size && View() == Empty(size) && View().Contents() == []
    {
      data := new Byte[size](i => 0);
      head, tail, capacity := 0, 0, size;
    }

    method PushByte(b: Byte)
      requires Valid() && Distance(head, tail) < capacity
      modifies this`tail, data
      ensures Valid() && View() == old(View()).Push(b)
    {
      PushDistance(head, tail);
      data[tail % capacity] := b;
      tail := Next(tail);
    }

    method PopByte() returns (b: Byte)
      requires Valid() && head != tail
      modifies this`head
      ensures Valid() && (View(), b) == old(View()).Pop()
    {
      PopDistance(head, tail);
      b := data[head % capacity];
      head := Next(head);
    }

    method PushAll(bytes: seq<Byte>)
      requires Valid() && Distance(head, tail) + |bytes| <= capacity
      modifies this`tail, data
      ensures Valid() && View() == old(View()).PushAll(bytes)
    {
      for i := 0 to |bytes|
        invariant Valid() && View() == old(View()).PushAll(bytes[..i])
        invariant Distance(head, tail) == Distance(old(head), old(tail)) + i
      {
        PushDistance(head, tail);
        PushByte(bytes[i]);
        assert bytes[..i + 1][..i] == bytes[..i];
      }
      assert bytes[..|bytes|] == bytes;
    }

    method PopMany(size: nat) returns (bytes: seq<Byte>)
      requires Valid() && size <= Distance(head, tail)
      modifies this`head
      ensures Valid() && (View(), bytes) == old(View()).PopAll(size)
    {
      bytes := [];
      ghost var start := View();
      for i := 0 to size
        invariant Valid() && (View(), bytes) == start.PopAll(i)
        invariant Distance(head, tail) == Distance(start.head, start.tail) - i
      {
        PopDistance(head, tail);
        ghost var before, taken := View(), bytes;
        var b := PopByte();
        bytes := bytes + [b];
        assert (View(), bytes) == (before.Pop().0, taken + [before.Pop().1]) == start.PopAll(i + 1);
      }
    }

    /** Takes the bytes if they fit; the room is computed in unsigned arithmetic. */
    method Write(bytes: seq<Byte>) returns (ok: bool)
      requires Valid() && |bytes| < U64
      modifies this`tail, data
      ensures Valid() && (View(), ok) == old(View()).Write(bytes)
    {
      NoWrap(capacity - Distance(head, tail), capacity - Distance(head, tail));
      if (capacity - Distance(head, tail)) % U64 < |bytes| {
        return false;
      }
      PushAll(bytes);
      return true;
    }

    /** Takes exactly `size` bytes, or refuses. */
    method Read(size: nat) returns (ok: bool, bytes: seq<Byte>)
      requires Valid() && size < U64
      modifies this`head
      ensures Valid()
      ensures (View(), if ok then Some(bytes) else None) == old(View()).Read(size)
    {
      if Distance(head, tail) < size {
        return false, [];
      }
      bytes := PopMany(size);
      return true, bytes;
    }
  }

  const RING_SIZE: nat := 1024 * 1024

  class BufferManager {
    const rxBuffer: RingBuffer
    const txBuffer: RingBuffer
    var rxOverflows: nat
    var txOverflows: nat
    var totalPacketsReceived: nat
    var totalPacketsSent: nat

    ghost predicate Valid()
      reads this, rxBuffer, txBuffer, rxBuffer.data, txBuffer.data
    {
      && rxBuffer.Valid() && txBuffer.Valid() && rxBuffer != txBuffer && rxBuffer.data != txBuffer.data
      && rxBuffer.capacity == txBuffer.capacity == RING_SIZE
    }

    constructor ()
      ensures Valid() && rxBuffer.View() == txBuffer.View() == Empty(RING_SIZE)
      ensures rxOverflows == txOverflows == totalPacketsReceived == totalPacketsSent == 0
    {
      rxBuffer := new RingBuffer(RING_SIZE);
      txBuffer := new RingBuffer(RING_SIZE);
      rxOverflows, txOverflows, totalPacketsReceived, totalPacketsSent := 0, 0, 0, 0;
    }

    /** A refused packet is counted as an overflow, an accepted one as sent. */
    method WriteToTxBuffer(bytes: seq<Byte>) returns (ok: bool)
      requires Valid() && |bytes| < U64
      modifies this`txOverflows, this`totalPacketsSent, txBuffer`tail, txBuffer.data
      ensures Valid()
      ensures (txBuffer.View(), ok) == old(txBuffer.View()).Write(bytes)
      ensures (txBuffer.View().Contents(), ok) == Enqueue(old(txBuffer.View().Contents()), bytes, RING_SIZE)
      ensures rxBuffer.View() == old(rxBuffer.View())
      ensures txOverflows == if ok then old(txOverflows) else (old(txOverflows) + 1) % U64
      ensures totalPacketsSent == if ok then (old(totalPacketsSent) + 1) % U64 else old(totalPacketsSent)
    {
      WriteEnqueues(txBuffer.View(), bytes);
      ok := txBuffer.Write(bytes);
      if ok {
        totalPacketsSent := (totalPacketsSent + 1) % U64;
      } else {
        txOverflows := (txOverflows + 1) % U64;
      }
    }

    /** The reader's vector is replaced on success and left alone on refusal. */
    method ReadFromRxBuffer(into: seq<Byte>, size: nat) returns (ok: bool, bytes: seq<Byte>)
      requires Valid() && size < U64
      modifies this`totalPacketsReceived, rxBuffer`head
      ensures Valid()
      ensures rxBuffer.View() == old(rxBuffer.View()).Read(size).0
      ensures (rxBuffer.View().Contents(), if ok then Some(bytes) else None) ==
              Dequeue(old(rxBuffer.View().Contents()), size)
      ensures !ok ==> bytes == into
      ensures txBuffer.View() == old(txBuffer.View())
      ensures totalPacketsReceived == if ok then (old(totalPacketsReceived) + 1) % U64 else old(totalPacketsReceived)
    {
      ReadDequeues(rxBuffer.View(), size);
      ok, bytes := rxBuffer.Read(size);
      if ok {
        totalPacketsReceived := (totalPacketsReceived + 1) % U64;
      } else {
        bytes := into;
      }
    }
  }
}
