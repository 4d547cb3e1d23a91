/**
 ldq.cpp and ldq.h: the per-lidar ring buffer.  Its two 32-bit indices run freely and wrap
 around; a mask picks the slot.
 */
module Ldq {
  import opened Bytes
  import opened Bits

  const WORD: nat := 0x1_0000_0000

  type Index = i: nat | i < 0x1_0000_0000

  /** Unsigned 32-bit arithmetic. */
  function Wrap(n: int): Index {
    n % WORD
  }

  // ---------------------------------------------------------------------------------------
  // Sizes
  // ---------------------------------------------------------------------------------------

  predicate IsPowerOf2(size: Index) {
    size != 0 && BitAnd(size, Wrap(size - 1)) == 0
  }

  lemma {:induction false} AndSelf(n: nat)
    ensures BitAnd(n, n) == n
  {
    if n > 0 {
      AndSelf(n / 2);
    }
  }

  /** The exponent of a power of two, for a number that shares no bit with its predecessor. */
  lemma {:induction false} NoCommonBit(n: nat) returns (k: nat)
    requires n > 0 && BitAnd(n, n - 1) == 0
    ensures n == Pow(2, k)
  {
    if n == 1 {
      k := 0;
    } else if n % 2 == 1 {
      assert (n - 1) / 2 == n / 2;
      AndSelf(n / 2);
      assert false;
    } else {
      assert (n - 1) / 2 == n / 2 - 1;
      k := NoCommonBit(n / 2);
      k := k + 1;
    }
  }

  lemma {:induction false} PowerHasOneBit(k: nat)
    ensures BitAnd(Pow(2, k), Pow(2, k) - 1) == 0
  {
    if k > 0 {
      var p := Pow(2, k - 1);
      assert Pow(2, k) == 2 * p;
      hide Pow;
      PowerHasOneBit(k - 1);
      assert (2 * p - 1) / 2 == p - 1 && (2 * p) / 2 == p && (2 * p) % 2 == 0;
    }
  }

  ghost predicate IsSize(size: nat) {
    exists k | 0 <= k < 32 :: size == Pow(2, k)
  }

  /** The bit test is exact. */
  lemma PowerOf2Test(size: Index)
    ensures IsPowerOf2(size) <==> IsSize(size)
  {
    hide BitAnd, Pow;
    if IsPowerOf2(size) {
      var k := NoCommonBit(size);
      if k >= 32 {
        PowersOfTwo();
        PowGrows(2, 32, k);
        assert false;
      }
    } else if IsSize(size) {
      var k :| 0 <= k < 32 && size == Pow(2, k);
      PowerHasOneBit(k);
    }
  }

  /**
   `RoundupPowerOf2`: the least power of two that is no smaller; but sizes over 2^31, for which
   there is none in 32 bits, are rounded down to 2^31.
   */
  method RoundupPowerOf2(size: Index) returns (power2: Index)
    ensures IsSize(power2)
    ensures size <= 0x8000_0000 ==> size <= power2 && (power2 == 1 || power2 < 2 * size)
    ensures size > 0x8000_0000 ==> power2 == 0x8000_0000
  {
    Pow31();
    power2 := 0;
    var i := 0;
    while i < 32
      invariant 0 <= i <= 32
      invariant i == 0 ==> power2 == 0
      invariant i > 0 ==> power2 == Pow(2, i - 1) && size > power2
    {
      PowGrows(2, i, 31);
      power2 := Wrap(Pow(2, i));
      assert IsSize(power2);
      if size <= power2 {
        if i > 0 {
          assert Pow(2, i) == 2 * Pow(2, i - 1);
        }
        return;
      }
      i := i + 1;
    }
  }

  lemma Pow31()
    ensures Pow(2, 31) == 0x8000_0000
  {
    PowersOfTwo();
    assert Pow(2, 32) == 2 * Pow(2, 31);
  }

  // ---------------------------------------------------------------------------------------
  // The ring
  // ---------------------------------------------------------------------------------------

  datatype Ring<P> = Ring(slots: seq<P>, rd: Index, wr: Index) {
    function Mask(): int {
      |slots| - 1
    }
  }

  ghost predicate RingValid<P>(r: Ring<P>) {
    IsSize(|r.slots|)
  }

  function Used<P>(r: Ring<P>): Index {
    Wrap(r.wr - r.rd)
  }

  function Unused<P>(r: Ring<P>): Index {
    Wrap(|r.slots| - Used(r))
  }

  predicate IsFull<P>(r: Ring<P>) {
    Wrap(r.wr - r.rd) > r.Mask()
  }

  predicate IsEmpty<P>(r: Ring<P>) {
    r.rd == r.wr
  }

  /** The slot of an index: `idx & mask`. */
  function Slot<P>(r: Ring<P>, i: Index): (s: nat)
    requires RingValid(r)
    ensures s == i % |r.slots| < |r.slots|
  {
    SizeFacts(|r.slots|);
    MaskIsModulo(i, |r.slots|);
    BitAnd(i, r.Mask())
  }

  lemma SizeFacts(size: nat)
    requires IsSize(size)
    ensures 0 < size <= 0x8000_0000 && WORD % size == 0
  {
    var k :| 0 <= k < 32 && size == Pow(2, k);
    PowGrows(2, k, 31);
    Pow31();
    PowersOfTwo();
    PowSum(2, 32 - k, k);
    assert 32 - k + k == 32;
    UniqueRemainder(WORD, size, Pow(2, 32 - k), 0);
  }

  lemma MaskIsModulo(i: nat, size: nat)
    requires IsSize(size)
    ensures size > 0 && BitAnd(i, size - 1) == i % size
  {
    var k :| 0 <= k < 32 && size == Pow(2, k);
    AndMask(i, k);
  }

  function Front<P>(r: Ring<P>): P
    requires RingValid(r)
  {
    r.slots[Slot(r, r.rd)]
  }

  function PopUpdate<P>(r: Ring<P>): Ring<P> {
    r.(rd := Wrap(r.rd + 1))
  }

  /** The write of `QueuePushAny`, before the index moves. */
  function Store<P>(r: Ring<P>, p: P): Ring<P>
    requires RingValid(r)
  {
    r.(slots := r.slots[Slot(r, r.wr) := p])
  }

  function Push<P>(r: Ring<P>, p: P): Ring<P>
    requires RingValid(r)
  {
    Store(r, p).(wr := Wrap(r.wr + 1))
  }

  // ---------------------------------------------------------------------------------------
  // The unbounded history it stands for
  // ---------------------------------------------------------------------------------------

  /** Everything ever pushed, of which the first `popped` have been popped. */
  ghost predicate Holds<P(!new)>(r: Ring<P>, history: seq<P>, popped: nat) {
    && RingValid(r) && popped <= |history| && |history| - popped <= |r.slots|
    && r.rd == popped % WORD && r.wr == |history| % WORD
    && forall k | popped <= k < |history| :: r.slots[SlotOf(|r.slots|, k)] == history[k]
  }

  function SlotOf(size: nat, k: nat): (s: nat)
    ensures size > 0 ==> s < size
  {
    if size == 0 then 0 else k % size
  }

  /** An index that has wrapped around picks the same slot. */
  lemma WrappedSlot(size: nat, k: nat)
    requires IsSize(size)
    ensures size > 0 && (k % WORD) % size == SlotOf(size, k)
  {
    SizeFacts(size);
    ModOfMultiple(k, WORD, size);
  }

  lemma ModOfMultiple(k: nat, m: nat, size: nat)
    requires size > 0 && m > 0 && m % size == 0
    ensures (k % m) % size == k % size
  {
    var q, r, c := k / m, k % m, m / size;
    assert k == q * m + r;
    assert m == c * size;
    var a, b := r / size, r % size;
    assert r == a * size + b;
    Group(q, c, a, size);
    UniqueRemainder(k, size, q * c + a, b);
  }

  lemma Group(q: nat, c: nat, a: nat, size: nat)
    ensures q * (c * size) + a * size == (q * c + a) * size
  {
    assert q * (c * size) == (q * c) * size;
  }

  /** Full, empty, used and unused are exact, however often the indices have wrapped. */
  lemma CountsAreExact<P(!new)>(r: Ring<P>, history: seq<P>, popped: nat)
    requires Holds(r, history, popped)
    ensures Used(r) == |history| - popped && Unused(r) == |r.slots| - (|history| - popped)
    ensures IsFull(r) <==> |history| - popped == |r.slots|
    ensures IsEmpty(r) <==> |history| == popped
  {
    SizeFacts(|r.slots|);
    Difference(|history|, popped);
  }

  lemma Difference(m: nat, n: nat)
    requires n <= m && m - n < WORD
    ensures Wrap(m % WORD - n % WORD) == m - n
    ensures n % WORD == m % WORD <==> m == n
  {
  }

  lemma NextIndex(n: nat)
    ensures Wrap(n % WORD + 1) == (n + 1) % WORD
  {
  }

  /** Whatever is written to the slot of the write index, a ring with room stands for the same history. */
  lemma StoreIsUnseen<P(!new)>(r: Ring<P>, history: seq<P>, popped: nat, p: P)
    requires Holds(r, history, popped) && !IsFull(r)
    ensures Holds(Store(r, p), history, popped)
  {
    CountsAreExact(r, history, popped);
    var size, n := |r.slots|, |history|;
    WrappedSlot(size, n);
    forall k | popped <= k < n
      ensures SlotOf(size, k) != SlotOf(size, n)
    {
      DistinctSlots(size, k, n);
    }
  }

  /** Moving the write index makes what its slot holds the newest packet. */
  lemma BumpAppends<P(!new)>(r: Ring<P>, history: seq<P>, popped: nat)
    requires Holds(r, history, popped) && !IsFull(r)
    ensures Holds(r.(wr := Wrap(r.wr + 1)), history + [r.slots[Slot(r, r.wr)]], popped)
  {
    CountsAreExact(r, history, popped);
    WrappedSlot(|r.slots|, |history|);
    NextIndex(|history|);
  }

  /** A guarded push appends. */
  lemma PushAppends<P(!new)>(r: Ring<P>, history: seq<P>, popped: nat, p: P)
    requires Holds(r, history, popped) && !IsFull(r)
    ensures Holds(Push(r, p), history + [p], popped)
  {
    StoreIsUnseen(r, history, popped, p);
    BumpAppends(Store(r, p), history, popped);
  }

  lemma DistinctSlots(size: nat, k: nat, n: nat)
    requires k < n < k + size
    ensures SlotOf(size, k) != SlotOf(size, n)
  {
    var q, r, d := k / size, k % size, n - k;
    assert k == q * size + r;
    if r + d < size {
      UniqueRemainder(n, size, q, r + d);
    } else {
      assert n == (q + 1) * size + (r + d - size);
      UniqueRemainder(n, size, q + 1, r + d - size);
    }
  }

  /** A pop yields the oldest packet not yet popped. */
  lemma PopTakesOldest<P(!new)>(r: Ring<P>, history: seq<P>, popped: nat)
    requires Holds(r, history, popped) && !IsEmpty(r)
    ensures popped < |history| && Front(r) == history[popped]
    ensures Holds(PopUpdate(r), history, popped + 1)
  {
    CountsAreExact(r, history, popped);
    WrappedSlot(|r.slots|, popped);
    NextIndex(popped);
  }

  /** The slot being read is never the slot being written. */
  lemma ReadIsNotWritten<P(!new)>(r: Ring<P>, history: seq<P>, popped: nat)
    requires Holds(r, history, popped) && !IsEmpty(r) && !IsFull(r)
    ensures Slot(r, r.rd) != Slot(r, r.wr)
  {
    CountsAreExact(r, history, popped);
    WrappedSlot(|r.slots|, popped);
    WrappedSlot(|r.slots|, |history|);
    DistinctSlots(|r.slots|, popped, |history|);
  }

  // ---------------------------------------------------------------------------------------
  // Runs
  // ---------------------------------------------------------------------------------------

  /** A push is dropped when the queue is full. */
  datatype Operation<P> = Offer(packet: P) | Take

  /** What the ring answers to a run of operations: whether it took each packet, or what it gave. */
  function RingRun<P>(r: Ring<P>, ops: seq<Operation<P>>): (answers: seq<Option<P>>)
    requires RingValid(r)
    decreases |ops|
  {
    if ops == [] then []
    else match ops[0]
      case Offer(p) =>
        if IsFull(r) then [None] + RingRun(r, ops[1..]) else [Some(p)] + RingRun(Push(r, p), ops[1..])
      case Take =>
        if IsEmpty(r) then [None] + RingRun(r, ops[1..])
        else [Some(Front(r))] + RingRun(PopUpdate(r), ops[1..])
  }

  /** The same run on a first-in first-out queue of at most `size` packets. */
  function FifoRun<P>(queue: seq<P>, size: nat, ops: seq<Operation<P>>): (answers: seq<Option<P>>)
    decreases |ops|
  {
    if ops == [] then []
    else match ops[0]
      case Offer(p) =>
        if |queue| >= size then [None] + FifoRun(queue, size, ops[1..])
        else [Some(p)] + FifoRun(queue + [p], size, ops[1..])
      case Take =>
        if queue == [] then [None] + FifoRun(queue, size, ops[1..])
        else [Some(queue[0])] + FifoRun(queue[1..], size, ops[1..])
  }

  /** In every run, of any length, the ring answers as the queue does. */
  lemma {:induction false} RingIsFifo<P(!new)>(r: Ring<P>, history: seq<P>, popped: nat, ops: seq<Operation<P>>)
    requires Holds(r, history, popped)
    ensures RingRun(r, ops) == FifoRun(history[popped..], |r.slots|, ops)
    decreases |ops|
  {
    if ops != [] {
      CountsAreExact(r, history, popped);
      hide Holds, IsFull, IsEmpty, Front, Push, PopUpdate;
      var queue := history[popped..];
      match ops[0] {
        case Offer(p) =>
          if IsFull(r) {
            RingIsFifo(r, history, popped, ops[1..]);
          } else {
            PushAppends(r, history, popped, p);
            PushKeepsSize(r, p);
            RingIsFifo(Push(r, p), history + [p], popped, ops[1..]);
            assert (history + [p])[popped..] == queue + [p];
          }
        case Take =>
          if IsEmpty(r) {
            RingIsFifo(r, history, popped, ops[1..]);
          } else {
            PopTakesOldest(r, history, popped);
            PushKeepsSize(r, Front(r));
            RingIsFifo(PopUpdate(r), history, popped + 1, ops[1..]);
            assert history[popped + 1..] == queue[1..];
          }
      }
    }
  }

  lemma PushKeepsSize<P>(r: Ring<P>, p: P)
    requires RingValid(r)
    ensures |Push(r, p).slots| == |PopUpdate(r).slots| == |r.slots|
    ensures RingValid(Push(r, p)) && RingValid(PopUpdate(r))
  {
  }

  // ---------------------------------------------------------------------------------------
  // The class
  // ---------------------------------------------------------------------------------------

  /** A decoded point: what it carries, the laser line it is from, and its time. */
  datatype Point = Point(payload: int, line: nat, offsetTime: nat)

  /** `StoragePacket`. */
  datatype Packet = Packet(baseTime: nat, points: seq<Point>)

  class LidarDataQueue {
    var storagePacket: array?<Packet>
    var rdIdx: Index
    var wrIdx: Index
    var mask: Index
    var size: Index

    constructor ()
      ensures storagePacket == null
    {
      storagePacket := null;
    }

    ghost predicate Valid()
      reads this
    {
      storagePacket != null && IsSize(size) && size == storagePacket.Length && mask == size - 1
    }

    ghost function View(): Ring<Packet>
      requires Valid()
      reads this, storagePacket
    {
      Ring(storagePacket[..], rdIdx, wrIdx)
    }

    /** `InitQueue`; the allocation succeeds. */
    method Init(queueSize: Index) returns (ok: bool)
      modifies this
      ensures ok && Valid() && fresh(storagePacket) && Holds(View(), [], 0)
      ensures IsSize(queueSize) ==> size == queueSize
      ensures queueSize <= 0x8000_0000 ==> queueSize <= size && (size == 1 || size < 2 * queueSize)
    {
      PowerOf2Test(queueSize);
      var realSize := queueSize;
      if !IsPowerOf2(queueSize) {
        realSize := RoundupPowerOf2(queueSize);
      }
      SizeFacts(realSize);
      storagePacket := new Packet[realSize](_ => Packet(0, []));
      rdIdx, wrIdx := 0, 0;
      size := realSize;
      mask := realSize - 1;
      ok := true;
    }

    method IsEmptyQueue() returns (empty: bool)
      requires Valid()
      ensures empty == IsEmpty(View())
    {
      empty := rdIdx == wrIdx;
    }

    method IsFullQueue() returns (full: bool)
      requires Valid()
      ensures full == IsFull(View())
    {
      full := Wrap(wrIdx - rdIdx) > mask;
    }

    method UsedSize() returns (used: Index)
      requires Valid()
      ensures used == Used(View())
    {
      used := Wrap(wrIdx - rdIdx);
    }

    method UnusedSize() returns (unused: Index)
      requires Valid()
      ensures unused == Unused(View())
    {
      var used := UsedSize();
      unused := Wrap(size - used);
    }

    /** `QueuePrePop`: copies the oldest packet out and leaves the queue as it is. */
    method PrePop() returns (ok: bool, packet: Packet)
      requires Valid()
      ensures ok == !IsEmpty(View())
      ensures ok ==> packet == Front(View())
    {
      var empty := IsEmptyQueue();
      if empty {
        return false, Packet(0, []);
      }
      MaskIsModulo(rdIdx, size);
      var slot := BitAnd(rdIdx, mask);
      var stored := storagePacket[slot];
      packet := Packet(stored.baseTime, stored.points);
      ok := true;
    }

    method PopUpdateQueue()
      requires Valid()
      modifies `rdIdx
      ensures Valid() && View() == PopUpdate(old(View()))
    {
      rdIdx := Wrap(rdIdx + 1);
    }

    method Pop() returns (ok: bool, packet: Packet)
      requires Valid()
      modifies `rdIdx
      ensures Valid() && ok == !IsEmpty(old(View()))
      ensures ok ==> packet == Front(old(View())) && View() == PopUpdate(old(View()))
      ensures !ok ==> View() == old(View())
    {
      ok, packet := PrePop();
      if ok {
        PopUpdateQueue();
      }
    }

    /** `QueuePushAny`, which does not test for room. */
    method PushAny(points: seq<Point>, baseTime: nat) returns (count: Index)
      requires Valid()
      modifies `wrIdx, storagePacket
      ensures Valid() && count == 1 && View() == Push(old(View()), Packet(baseTime, points))
    {
      MaskIsModulo(wrIdx, size);
      var slot := BitAnd(wrIdx, mask);
      storagePacket[slot] := Packet(baseTime, points);
      wrIdx := Wrap(wrIdx + 1);
      count := 1;
    }
  }
}
