/**
 The threads' own methods as runs of module Pipeline: one round of `RawDataProcess`, with the frames that
 it publishes stored in the rings, is a run of the producer's steps, and one round of
 `DistributePointCloudData` is a run of the consumer's.
 */
module Threads {
  import opened Ldq
  import opened Pipeline
  import H = PubHandler
  import L = Lds

  /** Points by lidar. */
  type PointMap = map<nat, seq<Point>>

  /** From `s` the steps can be taken, and lead to `t`. */
  ghost predicate Leads(c: Setting, s: State, steps: seq<Step>, t: State) {
    IsRun(c, s, steps) && After(c, s, steps) == t
  }

  lemma LeadsNowhere(c: Setting, s: State)
    ensures Leads(c, s, [], s)
  {
  }

  lemma LeadsFirst(c: Setting, s: State, step: Step, steps: seq<Step>, t: State)
    requires Enabled(c, s, step) && Leads(c, Next(c, s, step), steps, t)
    ensures Leads(c, s, [step] + steps, t)
  {
    hide Enabled, Next;
    assert ([step] + steps)[1..] == steps;
  }

  lemma {:induction false} LeadsOn(c: Setting, s: State, first: seq<Step>, t: State, second: seq<Step>, u: State)
    requires Leads(c, s, first, t) && Leads(c, t, second, u)
    ensures Leads(c, s, first + second, u)
    decreases |first|
  {
    hide Enabled, Next;
    if first == [] {
      assert first + second == second;
    } else {
      LeadsOn(c, Next(c, s, first[0]), first[1..], t, second, u);
      LeadsFirst(c, s, first[0], first[1..] + second, u);
      assert first + second == [first[0]] + (first[1..] + second);
    }
  }

  // ---------------------------------------------------------------------------------------
  // A push
  // ---------------------------------------------------------------------------------------

  function Up(count: nat): nat {
    if count > 0 then count else 1
  }

  ghost predicate HeadReady(c: Setting, s: State) {
    && IsSize(c.size) && s.producer.Working? && s.pending != [] && s.pending[0].lidar < |s.lidars|
    && L.QueueOk(s.lidars[s.pending[0].lidar].ring)
  }

  /** The first frame on its way is offered to its ring. */
  ghost function Offered(c: Setting, s: State): State
    requires HeadReady(c, s)
  {
    var i, p := s.pending[0].lidar, s.pending[0].packet;
    var l := s.lidars[i];
    var accepted := !IsFull(L.Ready(l.ring, c.size));
    s.(lidars := s.lidars[i := Hand(l.(ring := L.OfferTo(l.ring, c.size, p)), p, accepted)],
       pending := s.pending[1..], count := Up(s.count))
  }

  lemma TestLeads(c: Setting, s: State, i: nat) returns (steps: seq<Step>)
    requires s.producer == Testing(i)
    ensures Leads(c, s, steps, s.(producer := Working, count := Up(s.count)))
    ensures forall step <- steps :: step.Produce?
  {
    var t := AfterProduce(c, s);
    if s.count > 0 {
      steps := [Produce];
      LeadsNowhere(c, t);
      LeadsFirst(c, s, Produce, [], t);
    } else {
      var u := AfterProduce(c, t);
      LeadsNowhere(c, u);
      LeadsFirst(c, t, Produce, [], u);
      LeadsFirst(c, s, Produce, [Produce], u);
      steps := [Produce] + [Produce];
    }
  }

  /** A full ring: the frame is dropped. */
  lemma DropLeads(c: Setting, s: State) returns (steps: seq<Step>)
    requires HeadReady(c, s) && s.lidars[s.pending[0].lidar].ring.slots != []
    requires IsFull(s.lidars[s.pending[0].lidar].ring)
    ensures Leads(c, s, steps, Offered(c, s)) && forall step <- steps :: step.Produce?
  {
    hide Leads;
    var t := AfterProduce(c, s);
    var rest := TestLeads(c, t, s.pending[0].lidar);
    steps := [Produce] + rest;
    LeadsFirst(c, s, Produce, rest, Offered(c, s));
  }

  /** The two writes of a push put the packet into the slot. */
  lemma TwoStores(r: Ring<Packet>, p: Packet)
    requires RingValid(r)
    ensures var half := Store(r, Packet(p.baseTime, r.slots[Slot(r, r.wr)].points));
            RingValid(half) && half.wr == r.wr && half.rd == r.rd && |half.slots| == |r.slots|
            && Store(half, Packet(half.slots[Slot(half, half.wr)].baseTime, p.points)) == Store(r, p)
  {
  }

  lemma StoreLeads(c: Setting, s: State) returns (steps: seq<Step>)
    requires HeadReady(c, s) && s.lidars[s.pending[0].lidar].ring.slots != []
    requires !IsFull(s.lidars[s.pending[0].lidar].ring)
    ensures var i := s.pending[0].lidar;
            RingValid(s.lidars[i].ring)
            && Leads(c, s, steps,
                     s.(lidars := s.lidars[i := s.lidars[i].(ring := Store(s.lidars[i].ring, s.pending[0].packet))],
                        producer := Stored))
    ensures forall step <- steps :: step.Produce?
  {
    var i, p := s.pending[0].lidar, s.pending[0].packet;
    TwoStores(s.lidars[i].ring, p);
    hide Store, Slot, Leads;
    var t1 := AfterProduce(c, s);
    assert t1 == s.(producer := Checked);
    var t2 := AfterProduce(c, t1);
    var t3 := AfterProduce(c, t2);
    assert t3 == s.(lidars := s.lidars[i := s.lidars[i].(ring := Store(s.lidars[i].ring, p))], producer := Stored);
    LeadsNowhere(c, t3);
    LeadsFirst(c, t2, Produce, [], t3);
    LeadsFirst(c, t1, Produce, [Produce], t3);
    LeadsFirst(c, s, Produce, [Produce] + [Produce], t3);
    steps := [Produce] + ([Produce] + [Produce]);
  }

  /** A ring with room: the frame is written, the index moves, and the count is tested. */
  lemma RoomLeads(c: Setting, s: State) returns (steps: seq<Step>)
    requires HeadReady(c, s) && s.lidars[s.pending[0].lidar].ring.slots != []
    requires !IsFull(s.lidars[s.pending[0].lidar].ring)
    ensures Leads(c, s, steps, Offered(c, s)) && forall step <- steps :: step.Produce?
  {
    var i, p := s.pending[0].lidar, s.pending[0].packet;
    var r := s.lidars[i].ring;
    var first := StoreLeads(c, s);
    L.PushedIsNotEmpty(r, p);
    hide Leads, Store, Slot;
    var t3 := s.(lidars := s.lidars[i := s.lidars[i].(ring := Store(r, p))], producer := Stored);
    var t4 := AfterProduce(c, t3);
    assert t4.lidars[i].ring == Push(r, p);
    var t5 := AfterProduce(c, t4);
    assert t5.producer == Testing(i);
    var rest := TestLeads(c, t5, i);
    var u := Offered(c, s);
    assert u == t5.(producer := Working, count := Up(s.count));
    LeadsFirst(c, t4, Produce, rest, u);
    LeadsFirst(c, t3, Produce, [Produce] + rest, u);
    LeadsOn(c, s, first, t3, [Produce] + ([Produce] + rest), u);
    steps := first + ([Produce] + ([Produce] + rest));
  }

  /** `PushLidarData` by the steps of the producer alone. */
  lemma PushIsARun(c: Setting, s: State) returns (steps: seq<Step>)
    requires HeadReady(c, s)
    ensures Leads(c, s, steps, Offered(c, s)) && forall step <- steps :: step.Produce?
  {
    var r := s.lidars[s.pending[0].lidar].ring;
    if r.slots == [] {
      var t := AfterProduce(c, s);
      var rest := PushReady(c, t);
      OfferedAllocated(c, s);
      LeadsFirst(c, s, Produce, rest, Offered(c, s));
      steps := [Produce] + rest;
    } else {
      steps := PushReady(c, s);
    }
  }

  lemma PushReady(c: Setting, s: State) returns (steps: seq<Step>)
    requires HeadReady(c, s) && s.lidars[s.pending[0].lidar].ring.slots != []
    ensures Leads(c, s, steps, Offered(c, s)) && forall step <- steps :: step.Produce?
  {
    hide Leads, Offered;
    if IsFull(s.lidars[s.pending[0].lidar].ring) {
      steps := DropLeads(c, s);
    } else {
      steps := RoomLeads(c, s);
    }
  }

  /** The first push allocates the ring, and then is like any other. */
  lemma OfferedAllocated(c: Setting, s: State)
    requires HeadReady(c, s) && s.lidars[s.pending[0].lidar].ring.slots == []
    ensures HeadReady(c, AfterProduce(c, s)) && Offered(c, AfterProduce(c, s)) == Offered(c, s)
    ensures AfterProduce(c, s).lidars[s.pending[0].lidar].ring.slots != []
  {
    SizeFacts(c.size);
  }

  // ---------------------------------------------------------------------------------------
  // A frame list
  // ---------------------------------------------------------------------------------------

  /** Lidars have distinct places. */
  predicate IndexOk(index: L.IndexMap, n: nat) {
    && (forall h <- index :: index[h] < n)
    && forall h, k | h in index && k in index && index[h] == index[k] :: h == k
  }

  function Places(index: L.IndexMap, ids: seq<nat>): seq<nat> {
    if ids == [] then []
    else
      var id := ids[|ids| - 1];
      Places(index, ids[..|ids| - 1]) + if id in index then [index[id]] else []
  }

  /** The frames that go to a ring; the others are skipped. */
  function Routed(index: L.IndexMap, frames: seq<H.Frame>): seq<Frame> {
    if frames == [] then []
    else
      var f := frames[|frames| - 1];
      Routed(index, frames[..|frames| - 1]) + if f.handle in index then [Frame(index[f.handle], f.packet)] else []
  }

  function Rings(lidars: seq<Lidar>): (rings: seq<Ring<Packet>>)
    ensures |rings| == |lidars| && forall i | 0 <= i < |lidars| :: rings[i] == lidars[i].ring
  {
    seq(|lidars|, i requires 0 <= i < |lidars| => lidars[i].ring)
  }

  predicate SameBuffers(s: State, t: State) {
    && |t.lidars| == |s.lidars|
    && forall i | 0 <= i < |s.lidars| ::
         t.lidars[i].buffered == s.lidars[i].buffered && t.lidars[i].decoded == s.lidars[i].decoded
  }

  ghost predicate QueuesOk(rings: seq<Ring<Packet>>) {
    forall r <- rings :: L.QueueOk(r)
  }

  /** What offering a frame does to the rings and the semaphore. */
  lemma OfferedRings(c: Setting, s: State)
    requires HeadReady(c, s)
    ensures var i, t := s.pending[0].lidar, Offered(c, s);
            && Rings(t.lidars) == Rings(s.lidars)[i := L.OfferTo(s.lidars[i].ring, c.size, s.pending[0].packet)]
            && SameBuffers(s, t) && t.consumer == s.consumer && t.producer.Working? && t.pending == s.pending[1..]
  {
  }

  /** `StoragePointData`: the frames at the head of the line are offered to their rings in turn. */
  lemma {:induction false} FramesAreStored(c: Setting, s: State, index: L.IndexMap, frames: seq<H.Frame>, rest: seq<Frame>)
    returns (steps: seq<Step>, t: State)
    requires IsSize(c.size) && IndexOk(index, |s.lidars|) && QueuesOk(Rings(s.lidars))
    requires s.producer.Working? && s.pending == Routed(index, frames) + rest
    ensures Leads(c, s, steps, t) && forall step <- steps :: step.Produce?
    ensures Rings(t.lidars) == L.OfferAll(Rings(s.lidars), c.size, index, frames)
    ensures t.count == L.CountAfter(s.count, index, frames)
    ensures SameBuffers(s, t) && t.consumer == s.consumer && t.producer.Working? && t.pending == rest
    decreases |frames|
  {
    if frames == [] {
      LeadsNowhere(c, s);
      steps, t := [], s;
    } else {
      var n := |frames| - 1;
      var f := frames[n];
      var next := if f.handle in index then [Frame(index[f.handle], f.packet)] else [];
      assert s.pending == Routed(index, frames[..n]) + (next + rest);
      var first, u := FramesAreStored(c, s, index, frames[..n], next + rest);
      if f.handle in index {
        hide Leads;
        assert u.pending[0] == next[0] && u.pending[1..] == rest;
        assert Rings(u.lidars)[index[f.handle]] in Rings(u.lidars);
        var push := PushIsARun(c, u);
        OfferedRings(c, u);
        t := Offered(c, u);
        LeadsOn(c, s, first, u, push, t);
        steps := first + push;
      } else {
        assert next + rest == rest;
        steps, t := first, u;
      }
    }
  }

  // ---------------------------------------------------------------------------------------
  // A round
  // ---------------------------------------------------------------------------------------

  /** The lidars' buffers are those of the handlers. */
  ghost predicate Buffers(s: State, index: L.IndexMap, buffers: PointMap, decoded: PointMap) {
    forall h <- index ::
      && index[h] < |s.lidars|
      && s.lidars[index[h]].buffered == H.BufferOf(buffers, h)
      && s.lidars[index[h]].decoded == H.BufferOf(decoded, h)
  }

  /** Nothing but buffers and frames on their way. */
  ghost predicate SameRings(s: State, t: State) {
    && Rings(t.lidars) == Rings(s.lidars) && t.count == s.count && t.consumer == s.consumer
    && t.producer == s.producer
  }

  lemma {:induction false} PublishKeepsSize(s: State, ids: seq<nat>)
    requires forall j <- ids :: j < |s.lidars|
    ensures |AfterPublish(s, ids).lidars| == |s.lidars|
    decreases |ids|
  {
    if ids != [] {
      assert ids[0] in ids && forall j <- ids[1..] :: j in ids;
      PublishKeepsSize(HandOver(s, ids[0]), ids[1..]);
    }
  }

  lemma {:induction false} PublishLast(s: State, ids: seq<nat>, i: nat)
    requires i < |s.lidars| && forall j <- ids :: j < |s.lidars|
    ensures |AfterPublish(s, ids).lidars| == |s.lidars| && forall j <- ids + [i] :: j < |s.lidars|
    ensures AfterPublish(s, ids + [i]) == HandOver(AfterPublish(s, ids), i)
    decreases |ids|
  {
    if ids == [] {
      assert AfterPublish(s, [] + [i]) == AfterPublish(HandOver(s, i), []);
    } else {
      assert ids[0] in ids && (forall j <- ids[1..] :: j in ids) && (ids + [i])[1..] == ids[1..] + [i];
      PublishLast(HandOver(s, ids[0]), ids[1..], i);
    }
  }

  /** One lidar more: its points become a frame. */
  lemma HandOverBuffers(s: State, index: L.IndexMap, buffers: PointMap, decoded: PointMap, id: nat)
    requires IndexOk(index, |s.lidars|) && id in index && Buffers(s, index, buffers, decoded)
    ensures var t := HandOver(s, index[id]);
            && Buffers(t, index, H.EmptyBuffers(buffers, [id]), decoded) && SameRings(s, t)
            && t.pending == s.pending + Routed(index, H.FrameFor(id, H.BufferOf(buffers, id)))
  {
    RoutedOne(index, id, H.BufferOf(buffers, id));
    forall h
      ensures H.BufferOf(H.EmptyBuffers(buffers, [id]), h) == if h == id then [] else H.BufferOf(buffers, h)
    {
    }
    hide Routed, H.BufferOf, H.EmptyBuffers, H.FrameFor;
    var t := HandOver(s, index[id]);
    forall h | h in index
      ensures t.lidars[index[h]].buffered == if h == id then [] else H.BufferOf(buffers, h)
      ensures t.lidars[index[h]].decoded == H.BufferOf(decoded, h)
    {
      assert h != id ==> index[h] != index[id];
    }
  }

  lemma RoutedOne(index: L.IndexMap, id: nat, points: seq<Point>)
    requires id in index
    ensures Routed(index, H.FrameFor(id, points))
         == if points == [] then [] else [Frame(index[id], Packet(points[0].offsetTime, points))]
  {
    if points != [] {
      assert H.FrameFor(id, points)[..0] == [];
    }
  }

  lemma RoutedLast(index: L.IndexMap, frames: seq<H.Frame>, last: seq<H.Frame>)
    requires last == [] || |last| == 1
    ensures Routed(index, frames + last) == Routed(index, frames) + Routed(index, last)
  {
    if last == [] {
      assert frames + last == frames;
    } else {
      assert (frames + last)[..|frames|] == frames && last[..0] == [];
    }
  }

  /** A lidar without a place leaves no trace. */
  lemma UnplacedBuffers(s: State, index: L.IndexMap, buffers: PointMap, decoded: PointMap, id: nat)
    requires id !in index && Buffers(s, index, buffers, decoded)
    ensures Buffers(s, index, H.EmptyBuffers(buffers, [id]), decoded)
    ensures Routed(index, H.FrameFor(id, H.BufferOf(buffers, id))) == []
  {
    var last := H.FrameFor(id, H.BufferOf(buffers, id));
    if last != [] {
      assert last[..0] == [];
    }
  }

  predicate Within(ids: seq<nat>, n: nat) {
    forall i <- ids :: i < n
  }

  /** Publishing some lidars has led from `s` to `t`. */
  ghost predicate Published(s: State, t: State, index: L.IndexMap, buffers: PointMap,
                            decoded: PointMap, frames: seq<H.Frame>) {
    Buffers(t, index, buffers, decoded) && SameRings(s, t) && t.pending == s.pending + Routed(index, frames)
  }

  lemma PublishedLast(s: State, u: State, index: L.IndexMap, buffers: PointMap,
                      decoded: PointMap, frames: seq<H.Frame>, id: nat)
    requires IndexOk(index, |u.lidars|) && Published(s, u, index, buffers, decoded, frames)
    ensures Published(s, if id in index then HandOver(u, index[id]) else u, index, H.EmptyBuffers(buffers, [id]), decoded,
                      frames + H.FrameFor(id, H.BufferOf(buffers, id)))
  {
    var last := H.FrameFor(id, H.BufferOf(buffers, id));
    FrameForIsOne(id, H.BufferOf(buffers, id));
    hide Routed, Buffers, HandOver, H.EmptyBuffers, H.FrameFor, H.BufferOf;
    RoutedLast(index, frames, last);
    var before := Routed(index, frames);
    assert s.pending + before + Routed(index, last) == s.pending + (before + Routed(index, last));
    if id in index {
      HandOverBuffers(u, index, buffers, decoded, id);
    } else {
      UnplacedBuffers(u, index, buffers, decoded, id);
      assert before + [] == before;
    }
  }

  lemma PlacesLast(index: L.IndexMap, due: seq<nat>, s: State)
    requires due != [] && IndexOk(index, |s.lidars|) && Within(Places(index, due[..|due| - 1]), |s.lidars|)
    ensures Within(Places(index, due), |s.lidars|)
    ensures var u, id := AfterPublish(s, Places(index, due[..|due| - 1])), due[|due| - 1];
            && |u.lidars| == |s.lidars|
            && AfterPublish(s, Places(index, due)) == if id in index then HandOver(u, index[id]) else u
  {
    var before, id := Places(index, due[..|due| - 1]), due[|due| - 1];
    PublishKeepsSize(s, before);
    hide AfterPublish, HandOver;
    if id in index {
      PublishLast(s, before, index[id]);
    } else {
      assert Places(index, due) == before;
    }
  }

  /** `CheckTimer`: lidar after lidar. */
  lemma {:induction false} PublishBuffers(s: State, index: L.IndexMap, buffers: PointMap,
                                          decoded: PointMap, due: seq<nat>)
    requires IndexOk(index, |s.lidars|) && H.Increasing(due) && Buffers(s, index, buffers, decoded)
    ensures Within(Places(index, due), |s.lidars|)
    ensures Published(s, AfterPublish(s, Places(index, due)), index, H.EmptyBuffers(buffers, due), decoded,
                      H.FramesFor(due, buffers))
    decreases |due|
  {
    if due == [] {
      H.PublishNone([], buffers);
      assert s.pending + [] == s.pending;
    } else {
      var n := |due| - 1;
      PublishBuffers(s, index, buffers, decoded, due[..n]);
      H.FramesForSnoc(due, buffers);
      EmptyLast(buffers, due);
      hide *;
      PlacesLast(index, due, s);
      PublishedLast(s, AfterPublish(s, Places(index, due[..n])), index, H.EmptyBuffers(buffers, due[..n]), decoded,
                    H.FramesFor(due[..n], buffers), due[n]);
    }
  }

  lemma FrameForIsOne(id: nat, points: seq<Point>)
    ensures H.FrameFor(id, points) == [] || |H.FrameFor(id, points)| == 1
  {
  }

  lemma EmptyLast(buffers: PointMap, due: seq<nat>)
    requires due != [] && H.Increasing(due)
    ensures var n := |due| - 1;
            && H.EmptyBuffers(H.EmptyBuffers(buffers, due[..n]), [due[n]]) == H.EmptyBuffers(buffers, due)
            && H.BufferOf(H.EmptyBuffers(buffers, due[..n]), due[n]) == H.BufferOf(buffers, due[n])
  {
  }

  /** A packet's points join its lidar's. */
  lemma DecodeBuffers(s: State, index: L.IndexMap, buffers: PointMap, decoded: PointMap,
                      p: H.RawPacket)
    requires IndexOk(index, |s.lidars|) && Buffers(s, index, buffers, decoded) && H.PacketOk(p)
    ensures var t := if p.handle in index then AfterDecode(s, index[p.handle], H.Decoded(p)) else s;
            && Buffers(t, index, H.WithPacket(buffers, p), H.WithPacket(decoded, p)) && SameRings(s, t)
            && t.pending == s.pending
  {
    hide H.Decoded;
    var points := H.Decoded(p);
    if p.handle in index {
      var t := AfterDecode(s, index[p.handle], points);
      forall h | h in index
        ensures index[h] < |t.lidars| && t.lidars[index[h]].buffered == H.BufferOf(H.WithPacket(buffers, p), h)
        ensures t.lidars[index[h]].decoded == H.BufferOf(H.WithPacket(decoded, p), h)
      {
      }
    }
  }

  lemma DecodeIsARun(c: Setting, s: State, index: L.IndexMap, buffers: PointMap, decoded: PointMap,
                     p: H.RawPacket)
    returns (steps: seq<Step>, t: State)
    requires IndexOk(index, |s.lidars|) && Buffers(s, index, buffers, decoded) && H.PacketOk(p)
    requires s.producer.Working? && s.pending == []
    ensures Leads(c, s, steps, t) && Consume !in steps
    ensures Buffers(t, index, H.WithPacket(buffers, p), H.WithPacket(decoded, p)) && SameRings(s, t) && t.pending == []
  {
    DecodeBuffers(s, index, buffers, decoded, p);
    hide Leads, Buffers, H.WithPacket, H.Decoded;
    if p.handle in index {
      var step := Decode(index[p.handle], H.Decoded(p));
      t := Next(c, s, step);
      LeadsNowhere(c, t);
      LeadsFirst(c, s, step, [], t);
      steps := [step] + [];
    } else {
      LeadsNowhere(c, s);
      steps, t := [], s;
    }
  }

  lemma PublishIsARun(c: Setting, s: State, index: L.IndexMap, buffers: PointMap, decoded: PointMap,
                      due: seq<nat>)
    returns (steps: seq<Step>, t: State)
    requires IndexOk(index, |s.lidars|) && H.Increasing(due) && Buffers(s, index, buffers, decoded)
    requires s.producer.Working? && s.pending == []
    ensures Leads(c, s, steps, t) && Consume !in steps
    ensures Buffers(t, index, H.EmptyBuffers(buffers, due), decoded) && SameRings(s, t)
    ensures t.pending == Routed(index, H.FramesFor(due, buffers))
  {
    PublishBuffers(s, index, buffers, decoded, due);
    hide Leads, Buffers, Places, Routed, H.EmptyBuffers, H.FramesFor;
    var step := Publish(Places(index, due));
    t := Next(c, s, step);
    assert [] + Routed(index, H.FramesFor(due, buffers)) == Routed(index, H.FramesFor(due, buffers));
    LeadsNowhere(c, t);
    LeadsFirst(c, s, step, [], t);
    steps := [step] + [];
  }

  /**
   One round of the producer thread: a packet is decoded, the lidars that are due are published, and their
   frames are stored.  It takes steps of the producer alone.
   */
  lemma RoundIsARun(c: Setting, s: State, index: L.IndexMap, buffers: PointMap, decoded: PointMap,
                    p: H.RawPacket, due: seq<nat>)
    returns (steps: seq<Step>, t: State)
    requires IsSize(c.size) && IndexOk(index, |s.lidars|) && QueuesOk(Rings(s.lidars))
    requires s.producer.Working? && s.pending == [] && Buffers(s, index, buffers, decoded)
    requires H.PacketOk(p) && H.Increasing(due)
    ensures Leads(c, s, steps, t) && Consume !in steps
    ensures Buffers(t, index, H.EmptyBuffers(H.WithPacket(buffers, p), due), H.WithPacket(decoded, p))
    ensures var frames := H.FramesFor(due, H.WithPacket(buffers, p));
            && Rings(t.lidars) == L.OfferAll(Rings(s.lidars), c.size, index, frames)
            && t.count == L.CountAfter(s.count, index, frames)
    ensures t.producer.Working? && t.pending == [] && t.consumer == s.consumer && |t.lidars| == |s.lidars|
  {
    var first, u := DecodeIsARun(c, s, index, buffers, decoded, p);
    var second, v := PublishIsARun(c, u, index, H.WithPacket(buffers, p), H.WithPacket(decoded, p), due);
    var frames := H.FramesFor(due, H.WithPacket(buffers, p));
    hide Leads, Routed, H.Increasing, H.FramesFor, H.EmptyBuffers, H.WithPacket, H.BufferOf;
    assert Routed(index, frames) + [] == Routed(index, frames);
    var third;
    third, t := FramesAreStored(c, v, index, frames, []);
    BuffersStay(v, t, index, H.EmptyBuffers(H.WithPacket(buffers, p), due), H.WithPacket(decoded, p));
    LeadsOn(c, s, first, u, second, v);
    LeadsOn(c, s, first + second, v, third, t);
    steps := first + second + third;
  }

  lemma BuffersStay(s: State, t: State, index: L.IndexMap, buffers: PointMap, decoded: PointMap)
    requires SameBuffers(s, t) && Buffers(s, index, buffers, decoded)
    ensures Buffers(t, index, buffers, decoded)
  {
  }

  /** The pipeline between two rounds, as the objects of both sides have it. */
  ghost predicate Agrees(c: Setting, s: State, handler: H.PubHandler, lds: L.Lds)
    reads handler, handler.frame, lds, lds.rings, lds.pcdSemaphore
  {
    && handler.Valid() && lds.Valid() && c.size == lds.queueSize
    && |s.lidars| == L.MAX_SOURCE_LIDAR && IndexOk(lds.index, |s.lidars|)
    && Rings(s.lidars) == lds.rings[..] && s.count == lds.pcdSemaphore.count
    && Buffers(s, lds.index, handler.handlers, handler.decoded)
    && s.producer.Working? && s.pending == []
  }

  /** What the producer thread does with one packet: the frames published go to `StoragePointData`. */
  method ProcessAndStore(handler: H.PubHandler, lds: L.Lds, sync: bool, now: int, ghost c: Setting, ghost s: State)
    returns (done: bool, ghost steps: seq<Step>, ghost t: State)
    requires Agrees(c, s, handler, lds) && handler.WithinLidars()
    modifies handler, handler.frame, handler.frame.baseTime, handler.frame.lidarPoint, lds.rings, lds.pcdSemaphore
    ensures Agrees(c, t, handler, lds) && Leads(c, s, steps, t) && Consume !in steps && t.consumer == s.consumer
    ensures done == (old(handler.rawPacketQueue) != [])
    ensures done ==> handler.decoded == H.WithPacket(old(handler.decoded), old(handler.rawPacketQueue)[0])
  {
    hide Leads, Buffers, H.Conserved, H.InOrder, H.WithPacket, H.EmptyBuffers, H.FramesFor, L.OfferAll, L.CountAfter;
    ghost var queue, buffers, decoded := handler.rawPacketQueue, handler.handlers, handler.decoded;
    var already := |handler.published|;
    ghost var due;
    done, due := handler.ProcessPacket(sync, now);
    if !done {
      LeadsNowhere(c, s);
      steps, t := [], s;
      return;
    }
    var frames := handler.published[already..];
    lds.StoragePointData(frames);
    steps, t := RoundIsARun(c, s, lds.index, buffers, decoded, queue[0], due);
  }

  // ---------------------------------------------------------------------------------------
  // The consumer
  // ---------------------------------------------------------------------------------------

  /** A lidar whose ring was emptied. */
  function Drained(l: Lidar): Lidar
    requires L.QueueOk(l.ring)
  {
    l.(ring := L.Emptied(l.ring), delivered := l.delivered + L.Drain(l.ring))
  }

  function Polled(s: State, i: nat, l: Lidar, consumer: Consumer): State
    requires i < |s.lidars|
  {
    s.(lidars := s.lidars[i := l], consumer := consumer)
  }

  /** One turn of the inner loop: a packet is popped. */
  lemma PopLeads(c: Setting, s: State, i: nat)
    requires i < |s.lidars| && RingValid(s.lidars[i].ring) && !IsEmpty(s.lidars[i].ring) && s.consumer == Inner(i)
    ensures var l := s.lidars[i];
            Leads(c, s, [Consume, Consume, Consume, Consume],
                  Polled(s, i, l.(ring := PopUpdate(l.ring), delivered := l.delivered + [Front(l.ring)]), Inner(i)))
  {
    var r := s.lidars[i].ring;
    hide Leads, Slot;
    var t1 := AfterConsume(c, s);
    assert t1.consumer == Reading(i);
    var t2 := AfterConsume(c, t1);
    var t3 := AfterConsume(c, t2);
    assert t3.consumer == Read(i, Front(r));
    var t4 := AfterConsume(c, t3);
    LeadsNowhere(c, t4);
    LeadsFirst(c, t3, Consume, [], t4);
    LeadsFirst(c, t2, Consume, [Consume], t4);
    LeadsFirst(c, t1, Consume, [Consume, Consume], t4);
    LeadsFirst(c, s, Consume, [Consume, Consume, Consume], t4);
    assert [Consume] + [Consume, Consume, Consume] == [Consume, Consume, Consume, Consume];
  }

  /** The loops of `PollingLidarPointCloudData`. */
  lemma {:induction false} DrainLeads(c: Setting, s: State, i: nat) returns (steps: seq<Step>)
    requires i < |s.lidars| && RingValid(s.lidars[i].ring) && s.consumer == Inner(i)
    ensures L.QueueOk(s.lidars[i].ring) && Leads(c, s, steps, Polled(s, i, Drained(s.lidars[i]), Scanning(i + 1)))
    ensures forall step <- steps :: step.Consume?
    decreases Used(s.lidars[i].ring)
  {
    hide Leads;
    var l := s.lidars[i];
    SizeFacts(|l.ring.slots|);
    if IsEmpty(l.ring) {
      var t1 := AfterConsume(c, s);
      var t2 := AfterConsume(c, t1);
      assert l.delivered + [] == l.delivered && s.lidars[i := l] == s.lidars;
      LeadsNowhere(c, t2);
      LeadsFirst(c, t1, Consume, [], t2);
      LeadsFirst(c, s, Consume, [Consume] + [], t2);
      steps := [Consume] + ([Consume] + []);
    } else {
      var m := l.(ring := PopUpdate(l.ring), delivered := l.delivered + [Front(l.ring)]);
      var t := Polled(s, i, m, Inner(i));
      PopLeads(c, s, i);
      L.UsedAfterPop(l.ring);
      var rest := DrainLeads(c, t, i);
      assert m.delivered + L.Drain(m.ring) == l.delivered + L.Drain(l.ring);
      assert Polled(t, i, Drained(m), Scanning(i + 1)) == Polled(s, i, Drained(l), Scanning(i + 1));
      steps := [Consume, Consume, Consume, Consume] + rest;
      LeadsOn(c, s, [Consume, Consume, Consume, Consume], t, rest, Polled(s, i, Drained(l), Scanning(i + 1)));
    }
  }

  /** A lidar after a scan: emptied if it samples. */
  function Swept(c: Setting, lidars: seq<Lidar>, i: nat): Lidar
    requires i < |lidars| == |c.sampling| && L.QueueOk(lidars[i].ring)
  {
    if c.sampling[i] && lidars[i].ring.slots != [] then Drained(lidars[i]) else lidars[i]
  }

  lemma LidarIsPolled(c: Setting, s: State, i: nat) returns (steps: seq<Step>)
    requires i < |s.lidars| == |c.sampling| && L.QueueOk(s.lidars[i].ring) && s.consumer == Scanning(i)
    ensures Leads(c, s, steps, Polled(s, i, Swept(c, s.lidars, i), Scanning(i + 1)))
    ensures forall step <- steps :: step.Consume?
  {
    hide Leads, L.Drain;
    var l, t := s.lidars[i], AfterConsume(c, s);
    assert s.lidars[i := l] == s.lidars;
    if !(c.sampling[i] && l.ring.slots != []) {
      LeadsNowhere(c, t);
      LeadsFirst(c, s, Consume, [], t);
      steps := [Consume] + [];
    } else {
      var u := AfterConsume(c, t);
      var rest;
      if IsEmpty(l.ring) {
        NothingToDrain(l);
        LeadsNowhere(c, u);
        rest := [];
      } else {
        rest := DrainLeads(c, u, i);
      }
      LeadsFirst(c, t, Consume, rest, Polled(s, i, Drained(l), Scanning(i + 1)));
      LeadsFirst(c, s, Consume, [Consume] + rest, Polled(s, i, Drained(l), Scanning(i + 1)));
      steps := [Consume] + ([Consume] + rest);
    }
  }

  lemma NothingToDrain(l: Lidar)
    requires L.QueueOk(l.ring) && IsEmpty(l.ring)
    ensures Drained(l) == l
  {
    assert l.delivered + [] == l.delivered;
  }

  /** The lidars from `i` on are scanned. */
  lemma {:induction false} RestIsScanned(c: Setting, s: State, i: nat) returns (steps: seq<Step>, t: State)
    requires i <= |s.lidars| == |c.sampling| && QueuesOk(Rings(s.lidars)) && s.consumer == Scanning(i)
    ensures Leads(c, s, steps, t) && forall step <- steps :: step.Consume?
    ensures t == s.(lidars := t.lidars, consumer := Waiting) && |t.lidars| == |s.lidars|
    ensures forall j | 0 <= j < |s.lidars| ::
              L.QueueOk(s.lidars[j].ring) && t.lidars[j] == if j < i then s.lidars[j] else Swept(c, s.lidars, j)
    decreases |s.lidars| - i
  {
    hide Leads, Drained, L.QueueOk;
    forall j | 0 <= j < |s.lidars|
      ensures L.QueueOk(s.lidars[j].ring)
    {
      assert Rings(s.lidars)[j] in Rings(s.lidars);
    }
    if i == |s.lidars| {
      t := AfterConsume(c, s);
      LeadsNowhere(c, t);
      LeadsFirst(c, s, Consume, [], t);
      steps := [Consume] + [];
    } else {
      var first := LidarIsPolled(c, s, i);
      var u := Polled(s, i, Swept(c, s.lidars, i), Scanning(i + 1));
      SweptIsOk(c, s.lidars, i);
      assert forall r <- Rings(u.lidars) :: L.QueueOk(r);
      var rest;
      rest, t := RestIsScanned(c, u, i + 1);
      LeadsOn(c, s, first, u, rest, t);
      steps := first + rest;
    }
  }

  lemma SweptIsOk(c: Setting, lidars: seq<Lidar>, i: nat)
    requires i < |lidars| == |c.sampling| && L.QueueOk(lidars[i].ring)
    ensures L.QueueOk(Swept(c, lidars, i).ring)
  {
  }

  /** One round of the consumer thread, from the semaphore to the semaphore. */
  lemma ScanIsARun(c: Setting, s: State) returns (steps: seq<Step>, t: State)
    requires |s.lidars| == |c.sampling| && QueuesOk(Rings(s.lidars)) && s.consumer.Waiting? && s.count > 0
    ensures Leads(c, s, steps, t) && forall step <- steps :: step.Consume?
    ensures t == s.(lidars := t.lidars, count := s.count - 1) && |t.lidars| == |s.lidars|
    ensures forall j | 0 <= j < |s.lidars| :: L.QueueOk(s.lidars[j].ring) && t.lidars[j] == Swept(c, s.lidars, j)
  {
    hide Leads, Swept, L.QueueOk;
    var u := AfterConsume(c, s);
    var rest;
    rest, t := RestIsScanned(c, u, 0);
    LeadsFirst(c, s, Consume, rest, t);
    steps := [Consume] + rest;
  }

  lemma {:induction false} LeadsKeepsInvariant(c: Setting, s: State, steps: seq<Step>)
    requires Invariant(c, s) && IsRun(c, s, steps)
    ensures Invariant(c, After(c, s, steps))
    decreases |steps|
  {
    hide Invariant, Enabled, Next;
    if steps != [] {
      StepKeepsInvariant(c, s, steps[0]);
      LeadsKeepsInvariant(c, Next(c, s, steps[0]), steps[1..]);
    }
  }

  lemma {:induction false} AcceptedAreHanded(handed: seq<Handed>)
    ensures forall p <- Accepted(handed) :: exists h <- handed :: h.packet == p
    decreases |handed|
  {
    if handed != [] {
      var n := |handed| - 1;
      AcceptedAreHanded(handed[..n]);
      assert handed[n] in handed && forall h <- handed[..n] :: h in handed;
    }
  }

  /** Every packet delivered holds points, so none is left out of what is published. */
  lemma DeliveredIsPublished(c: Setting, s: State, i: nat, from: nat)
    requires Invariant(c, s) && i < |s.lidars| && from <= |s.lidars[i].delivered|
    ensures L.NonEmpty(s.lidars[i].delivered[from..]) == s.lidars[i].delivered[from..]
  {
    var l := s.lidars[i];
    LidarOf(c, s, i);
    hide Invariant, InFlight, Conserved;
    LidarConserves(l, InFlight(s.pending, i));
    AcceptedAreHanded(l.handed);
    hide LidarOk, Accepted, L.NonEmpty, Queue;
    forall p <- l.delivered[from..]
      ensures p.points != []
    {
      assert p in Accepted(l.handed);
    }
    L.AllNonEmpty(l.delivered[from..]);
  }

  /** What the consumer thread does each time it wakes up. */
  method Distribute(handler: H.PubHandler, lds: L.Lds, ghost c: Setting, ghost s: State)
    returns (published: seq<seq<Packet>>, ghost steps: seq<Step>, ghost t: State)
    requires Agrees(c, s, handler, lds) && c.sampling == lds.sampling[..]
    requires s.consumer.Waiting? && s.count > 0
    modifies lds.rings, lds.pcdSemaphore
    ensures Agrees(c, t, handler, lds) && Leads(c, s, steps, t) && t.consumer.Waiting?
    ensures forall step <- steps :: step.Consume?
    ensures |published| == |s.lidars| == |t.lidars| == |c.sampling|
    ensures forall i | 0 <= i < |s.lidars| ::
              && s.lidars[i].delivered <= t.lidars[i].delivered
              && published[i] == L.NonEmpty(t.lidars[i].delivered[|s.lidars[i].delivered|..])
              && (Invariant(c, s) ==> published[i] == t.lidars[i].delivered[|s.lidars[i].delivered|..])
  {
    steps, t := ScanIsARun(c, s);
    forall i | 0 <= i < |s.lidars|
      ensures t.lidars[i].ring == if lds.sampling[i] then L.Emptied(lds.rings[i]) else lds.rings[i]
      ensures t.lidars[i].delivered == s.lidars[i].delivered + if lds.sampling[i] then L.Drain(lds.QueueAt(i)) else []
      ensures t.lidars[i].buffered == s.lidars[i].buffered && t.lidars[i].decoded == s.lidars[i].decoded
    {
      assert lds.rings[i] in lds.rings[..];
    }
    published := lds.DistributePointCloudData();
    assert Rings(t.lidars) == lds.rings[..];
    if Invariant(c, s) {
      LeadsKeepsInvariant(c, s, steps);
      forall i | 0 <= i < |s.lidars| {
        DeliveredIsPublished(c, t, i, |s.lidars[i].delivered|);
      }
    }
  }
}
