/**
 lds.cpp, lddc.cpp and semaphore.cpp as their threads run them: storing a frame, and one round of
 delivery.  How the two interleave is the subject of module Pipeline.
 */
module Lds {
  import opened Bytes
  import opened Ldq
  import PubHandler

  const MAX_SOURCE_LIDAR: nat := 32

  class Semaphore {
    var count: int

    constructor (count: int)
      ensures this.count == count
    {
      this.count := count;
    }

    method Signal()
      modifies this
      ensures count == old(count) + 1
    {
      count := count + 1;
    }

    /** Returns once the count is positive. */
    method Wait()
      requires count > 0
      modifies this
      ensures count == old(count) - 1
    {
      count := count - 1;
    }

    method GetCount() returns (n: int)
      ensures n == count
    {
      n := count;
    }
  }

  /** A queue that has not been initialised has no slots. */
  ghost predicate QueueOk(r: Ring<Packet>) {
    if r.slots == [] then r.rd == 0 && r.wr == 0 else IsSize(|r.slots|)
  }

  /** `InitQueue`, as a value. */
  function Ready(r: Ring<Packet>, size: nat): (q: Ring<Packet>)
    requires QueueOk(r) && IsSize(size)
    ensures q.slots != [] && RingValid(q)
  {
    SizeFacts(size);
    if r.slots == [] then Ring(seq(size, _ => Packet(0, [])), 0, 0) else r
  }

  /** A frame offered to a queue: taken, or dropped whole when there is no room. */
  function OfferTo(r: Ring<Packet>, size: nat, p: Packet): (q: Ring<Packet>)
    requires QueueOk(r) && IsSize(size)
    ensures q.slots != [] && QueueOk(q)
  {
    if IsFull(Ready(r, size)) then Ready(r, size)
    else
      SizeFacts(|Ready(r, size).slots|);
      Push(Ready(r, size), p)
  }

  /** A push into a ring with room leaves it non-empty. */
  lemma PushedIsNotEmpty(r: Ring<Packet>, p: Packet)
    requires RingValid(r) && !IsFull(r)
    ensures !IsEmpty(Push(r, p))
  {
    SizeFacts(|r.slots|);
    if Wrap(r.wr + 1) == r.rd {
      OneBehind(r.wr, r.rd);
    }
  }

  lemma OneBehind(a: Index, b: Index)
    requires Wrap(a + 1) == b
    ensures Wrap(a - b) == WORD - 1
  {
    if a + 1 < WORD {
      assert b == a + 1;
    } else {
      assert b == 0;
    }
  }

  /** `r` has been given `history` and has yielded the first `popped` of it; before the first push, nothing. */
  ghost predicate Has(r: Ring<Packet>, history: seq<Packet>, popped: nat) {
    if r.slots == [] then r.rd == 0 && r.wr == 0 && history == [] && popped == 0
    else Holds(r, history, popped)
  }

  /** A packet joins the queue if that is shorter than the ring, and is dropped otherwise. */
  lemma OfferIsFifo(r: Ring<Packet>, size: nat, history: seq<Packet>, popped: nat, p: Packet)
    requires QueueOk(r) && IsSize(size) && Has(r, history, popped)
    ensures |OfferTo(r, size, p).slots| == if r.slots == [] then size else |r.slots|
    ensures popped <= |history|
    ensures Holds(OfferTo(r, size, p),
                  if |history| - popped < |OfferTo(r, size, p).slots| then history + [p] else history, popped)
  {
    SizeFacts(size);
    var q := Ready(r, size);
    CountsAreExact(q, history, popped);
    if !IsFull(q) {
      PushAppends(q, history, popped, p);
      PushKeepsSize(q, p);
    }
  }

  /** `cache_index_`: the index of a lidar. */
  type IndexMap = map<nat, nat>

  function OfferFrame(rings: seq<Ring<Packet>>, size: nat, index: IndexMap, f: PubHandler.Frame): (r: seq<Ring<Packet>>)
    requires IsSize(size) && forall q <- rings :: QueueOk(q)
    ensures |r| == |rings| && forall q <- r :: QueueOk(q)
  {
    if f.handle in index && index[f.handle] < |rings| then
      rings[index[f.handle] := OfferTo(rings[index[f.handle]], size, f.packet)]
    else rings
  }

  function OfferAll(rings: seq<Ring<Packet>>, size: nat, index: IndexMap, frames: seq<PubHandler.Frame>): (r: seq<Ring<Packet>>)
    requires IsSize(size) && forall q <- rings :: QueueOk(q)
    ensures |r| == |rings| && forall q <- r :: QueueOk(q)
    decreases |frames|
  {
    if frames == [] then rings
    else OfferFrame(OfferAll(rings, size, index, frames[..|frames| - 1]), size, index, frames[|frames| - 1])
  }

  /** The semaphore after a frame is offered: up, if it was not. */
  function Raised(count: int): int {
    if count <= 0 then count + 1 else count
  }

  function CountAfter(count: int, index: IndexMap, frames: seq<PubHandler.Frame>): (n: int)
    decreases |frames|
  {
    if frames == [] then count
    else
      var before := CountAfter(count, index, frames[..|frames| - 1]);
      if frames[|frames| - 1].handle in index then Raised(before) else before
  }

  /** Only the lidars of the frames are touched. */
  lemma {:induction false} OthersUntouched(rings: seq<Ring<Packet>>, size: nat, index: IndexMap,
                                           frames: seq<PubHandler.Frame>, i: nat)
    requires IsSize(size) && (forall q <- rings :: QueueOk(q)) && i < |rings|
    requires forall f <- frames :: f.handle in index ==> index[f.handle] != i
    ensures OfferAll(rings, size, index, frames)[i] == rings[i]
    decreases |frames|
  {
    if frames != [] {
      assert frames[|frames| - 1] in frames;
      OthersUntouched(rings, size, index, frames[..|frames| - 1], i);
    }
  }

  /** The packets a ring gives until it is empty. */
  function Drain(r: Ring<Packet>): seq<Packet>
    requires QueueOk(r)
    decreases Used(r)
  {
    if IsEmpty(r) then []
    else
      assert Used(PopUpdate(r)) < Used(r) by {
        assert r.slots != [];
        UsedAfterPop(r);
      }
      [Front(r)] + Drain(PopUpdate(r))
  }

  /** A ring with all its packets popped. */
  function Emptied<P>(r: Ring<P>): (q: Ring<P>)
    ensures IsEmpty(q)
  {
    r.(rd := r.wr)
  }

  /** What is popped is published, unless it is empty. */
  lemma DrainNext(r: Ring<Packet>)
    requires QueueOk(r)
    ensures IsEmpty(r) ==> NonEmpty(Drain(r)) == []
    ensures !IsEmpty(r) ==>
              r.slots != [] && NonEmpty(Drain(r)) == NonEmpty([Front(r)]) + NonEmpty(Drain(PopUpdate(r)))
  {
    if !IsEmpty(r) {
      NonEmptyFirst(Front(r), Drain(PopUpdate(r)));
      NonEmptyFirst(Front(r), []);
    }
  }

  lemma PopEmptied(r: Ring<Packet>)
    ensures Emptied(PopUpdate(r)) == Emptied(r) && PopUpdate(r).slots == r.slots
    ensures QueueOk(r) && !IsEmpty(r) ==> QueueOk(PopUpdate(r))
  {
  }

  lemma NonEmptyOne(p: Packet)
    ensures NonEmpty([p]) == if p.points == [] then [] else [p]
  {
    NonEmptyFirst(p, []);
  }

  lemma UsedAfterPop(r: Ring<Packet>)
    requires !IsEmpty(r)
    ensures Used(PopUpdate(r)) == Used(r) - 1
  {
  }

  /** Draining gives what the history holds beyond the packets popped. */
  lemma {:induction false} DrainIsHistory(r: Ring<Packet>, history: seq<Packet>, popped: nat)
    requires QueueOk(r) && Holds(r, history, popped)
    ensures Drain(r) == history[popped..]
    decreases |history| - popped
  {
    CountsAreExact(r, history, popped);
    if popped < |history| {
      PopTakesOldest(r, history, popped);
      UsedAfterPop(r);
      DrainIsHistory(PopUpdate(r), history, popped + 1);
    }
  }

  class Lds {
    const rings: array<Ring<Packet>>
    /** The inertial data queues, plain lists. */
    const imu: array<seq<int>>
    const sampling: array<bool>
    const pcdSemaphore: Semaphore
    const imuSemaphore: Semaphore
    const queueSize: nat
    var index: IndexMap

    ghost predicate Valid()
      reads this, rings
    {
      && rings.Length == imu.Length == sampling.Length == MAX_SOURCE_LIDAR && IsSize(queueSize)
      && pcdSemaphore != imuSemaphore
      && (forall h | h in index :: index[h] < MAX_SOURCE_LIDAR)
      && forall q <- rings[..] :: QueueOk(q)
    }

    constructor (queueSize: nat)
      requires IsSize(queueSize)
      ensures Valid() && fresh(rings) && fresh(imu) && fresh(pcdSemaphore) && fresh(imuSemaphore)
      ensures pcdSemaphore.count == 0 && imuSemaphore.count == 0 && index == map[]
    {
      rings := new Ring<Packet>[MAX_SOURCE_LIDAR](_ => Ring([], 0, 0));
      sampling := new bool[MAX_SOURCE_LIDAR](_ => false);
      imu := new seq<int>[MAX_SOURCE_LIDAR](_ => []);
      pcdSemaphore := new Semaphore(0);
      imuSemaphore := new Semaphore(0);
      this.queueSize := queueSize;
      index := map[];
    }

    /** `PushLidarData`: whether the packet is taken or dropped, the semaphore is up afterwards. */
    method PushLidarData(p: Packet, i: nat)
      requires Valid() && i < MAX_SOURCE_LIDAR
      modifies rings, pcdSemaphore
      ensures Valid() && rings[..] == old(rings[..])[i := OfferTo(old(rings[i]), queueSize, p)]
      ensures pcdSemaphore.count == if old(pcdSemaphore.count) <= 0 then old(pcdSemaphore.count) + 1
                                    else old(pcdSemaphore.count)
    {
      assert rings[i] in rings[..];
      if rings[i].slots == [] {
        rings[i] := Ready(rings[i], queueSize);
      }
      if !IsFull(rings[i]) {
        PushedIsNotEmpty(rings[i], p);
        rings[i] := Push(rings[i], p);
        if !IsEmpty(rings[i]) {
          var count := pcdSemaphore.GetCount();
          if count <= 0 {
            pcdSemaphore.Signal();
          }
        }
      } else {
        var count := pcdSemaphore.GetCount();
        if count <= 0 {
          pcdSemaphore.Signal();
        }
      }
    }

    /** `StoragePointData`: a frame of a lidar without an index is skipped. */
    method StoragePointData(frames: seq<PubHandler.Frame>)
      requires Valid()
      modifies rings, pcdSemaphore
      ensures Valid() && rings[..] == OfferAll(old(rings[..]), queueSize, index, frames)
      ensures pcdSemaphore.count == CountAfter(old(pcdSemaphore.count), index, frames)
      ensures old(pcdSemaphore.count) >= 0 && (exists f <- frames :: f.handle in index) ==> pcdSemaphore.count > 0
    {
      var k := 0;
      while k < |frames|
        invariant 0 <= k <= |frames| && Valid()
        invariant rings[..] == OfferAll(old(rings[..]), queueSize, index, frames[..k])
        invariant pcdSemaphore.count == CountAfter(old(pcdSemaphore.count), index, frames[..k])
        invariant old(pcdSemaphore.count) >= 0 ==> pcdSemaphore.count >= 0
        invariant old(pcdSemaphore.count) >= 0 && (exists j | 0 <= j < k :: frames[j].handle in index) ==>
                    pcdSemaphore.count > 0
      {
        assert frames[..k + 1][..k] == frames[..k];
        if frames[k].handle in index {
          PushLidarData(frames[k].packet, index[frames[k].handle]);
        }
        k := k + 1;
      }
      assert frames[..k] == frames;
    }

    /** `StorageImuData`. */
    method StorageImuData(handle: nat, data: int)
      requires Valid()
      modifies imu, imuSemaphore
      ensures handle !in index ==> imu[..] == old(imu[..]) && imuSemaphore.count == old(imuSemaphore.count)
      ensures handle in index ==>
                && imu[..] == old(imu[..])[index[handle] := old(imu[index[handle]]) + [data]]
                && imuSemaphore.count == if old(imuSemaphore.count) <= 0 then old(imuSemaphore.count) + 1
                                         else old(imuSemaphore.count)
    {
      if handle !in index {
        return;
      }
      var i := index[handle];
      imu[i] := imu[i] + [data];
      if imu[i] != [] {
        var count := imuSemaphore.GetCount();
        if count <= 0 {
          imuSemaphore.Signal();
        }
      }
    }

    /** One round of `DistributeImuData`. */
    method DistributeImuData() returns (published: seq<seq<int>>)
      requires Valid() && imuSemaphore.count > 0
      modifies imu, imuSemaphore
      ensures imuSemaphore.count == old(imuSemaphore.count) - 1 && |published| == MAX_SOURCE_LIDAR
      ensures forall i | 0 <= i < MAX_SOURCE_LIDAR ::
                if sampling[i] then imu[i] == [] && published[i] == old(imu[i])
                else imu[i] == old(imu[i]) && published[i] == []
    {
      imuSemaphore.Wait();
      published := [];
      var i := 0;
      while i < MAX_SOURCE_LIDAR
        invariant 0 <= i <= MAX_SOURCE_LIDAR && |published| == i
        invariant imuSemaphore.count == old(imuSemaphore.count) - 1
        invariant forall j | i <= j < MAX_SOURCE_LIDAR :: imu[j] == old(imu[j])
        invariant forall j | 0 <= j < i :: if sampling[j] then imu[j] == [] && published[j] == old(imu[j])
                                           else imu[j] == old(imu[j]) && published[j] == []
      {
        var delivered := [];
        if sampling[i] {
          while imu[i] != []
            invariant delivered + imu[i] == old(imu[i])
            invariant forall j | i < j < MAX_SOURCE_LIDAR :: imu[j] == old(imu[j])
            invariant forall j | 0 <= j < i :: if sampling[j] then imu[j] == [] && published[j] == old(imu[j])
                                               else imu[j] == old(imu[j]) && published[j] == []
            invariant imuSemaphore.count == old(imuSemaphore.count) - 1
            decreases |imu[i]|
          {
            delivered := delivered + [imu[i][0]];
            imu[i] := imu[i][1..];
          }
        }
        published := published + [delivered];
        i := i + 1;
      }
    }

    /** `QueuePop` of a lidar's queue that is not empty. */
    method PopFrom(i: nat) returns (packet: Packet)
      requires Valid() && i < MAX_SOURCE_LIDAR && !IsEmpty(rings[i])
      modifies rings
      ensures Valid() && QueueOk(old(rings[i])) && old(rings[i]).slots != [] && packet == Front(old(rings[i]))
      ensures rings[..] == old(rings[..])[i := PopUpdate(old(rings[i]))]
    {
      hide Front;
      assert rings[i] in rings[..];
      packet := Front(rings[i]);
      rings[i] := PopUpdate(rings[i]);
    }

    /** The loops of `PollingLidarPointCloudData` and `PublishPointcloud2`. */
    method PollingLidarPointCloudData(i: nat, published0: seq<Packet>) returns (published: seq<Packet>)
      requires Valid() && i < MAX_SOURCE_LIDAR
      modifies rings
      ensures Valid() && rings[..] == old(rings[..])[i := Emptied(old(rings[i]))]
      ensures published == published0 + NonEmpty(Drain(old(QueueAt(i))))
    {
      hide Drain, Front, Used, NonEmpty, PopUpdate;
      published := published0;
      ghost var was := QueueAt(i);
      DrainNext(was);
      assert rings[i] == was;
      if rings[i].slots == [] {
        return;
      }
      while !IsEmpty(rings[i])
        invariant Valid() && rings[..] == old(rings[..])[i := rings[i]]
        invariant QueueOk(rings[i]) && Emptied(rings[i]) == Emptied(was)
        invariant published + NonEmpty(Drain(rings[i])) == published0 + NonEmpty(Drain(was))
        decreases Used(rings[i])
      {
        ghost var before := rings[i];
        UsedAfterPop(before);
        DrainNext(before);
        PopEmptied(before);
        var packet := PopFrom(i);
        NonEmptyOne(packet);
        assert rings[i] == PopUpdate(before);
        if |packet.points| == 0 {
          continue;
        }
        published := published + [packet];
      }
      DrainNext(rings[i]);
    }

    function QueueAt(i: nat): (r: Ring<Packet>)
      requires i < rings.Length && forall q <- rings[..] :: QueueOk(q)
      reads rings
      ensures QueueOk(r)
    {
      assert rings[i] in rings[..];
      rings[i]
    }

    /** One round of `DistributePointCloudData`: every sampling lidar's queue is emptied. */
    method DistributePointCloudData() returns (published: seq<seq<Packet>>)
      requires Valid() && pcdSemaphore.count > 0
      modifies rings, pcdSemaphore
      ensures Valid() && pcdSemaphore.count == old(pcdSemaphore.count) - 1 && |published| == MAX_SOURCE_LIDAR
      ensures forall i | 0 <= i < MAX_SOURCE_LIDAR ::
                if sampling[i] then rings[i] == Emptied(old(rings[i])) && published[i] == NonEmpty(Drain(old(QueueAt(i))))
                else rings[i] == old(rings[i]) && published[i] == []
    {
      pcdSemaphore.Wait();
      published := [];
      var i := 0;
      while i < MAX_SOURCE_LIDAR
        invariant 0 <= i <= MAX_SOURCE_LIDAR && Valid() && |published| == i
        invariant pcdSemaphore.count == old(pcdSemaphore.count) - 1
        invariant forall j | i <= j < MAX_SOURCE_LIDAR :: rings[j] == old(rings[j])
        invariant forall j | 0 <= j < i ::
                    if sampling[j] then rings[j] == Emptied(old(rings[j])) && published[j] == NonEmpty(Drain(old(QueueAt(j))))
                    else rings[j] == old(rings[j]) && published[j] == []
      {
        if !sampling[i] {
          published := published + [[]];
          i := i + 1;
          continue;
        }
        var delivered := PollingLidarPointCloudData(i, []);
        published := published + [delivered];
        i := i + 1;
      }
    }
  }

  /** Empty packets are popped but not published. */
  function NonEmpty(packets: seq<Packet>): seq<Packet> {
    if packets == [] then []
    else (if packets[0].points == [] then [] else [packets[0]]) + NonEmpty(packets[1..])
  }

  /** Nothing is left out of packets that all hold points. */
  lemma {:induction false} AllNonEmpty(packets: seq<Packet>)
    requires forall p <- packets :: p.points != []
    ensures NonEmpty(packets) == packets
    decreases |packets|
  {
    if packets != [] {
      assert packets[0] in packets && forall p <- packets[1..] :: p in packets;
      AllNonEmpty(packets[1..]);
    }
  }

  lemma NonEmptyFirst(p: Packet, rest: seq<Packet>)
    ensures NonEmpty([p] + rest) == (if p.points == [] then [] else [p]) + NonEmpty(rest)
  {
  }
}
