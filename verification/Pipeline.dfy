/**
 The point cloud path as interleaved steps of two threads: the producer decodes packets, hands
 frames over and pushes them into the rings (pub_handler.cpp, lds.cpp, ldq.cpp); the consumer
 waits, scans the lidars and drains their rings (lddc.cpp).  A step is at most one access to
 memory both threads use.
 */
module Pipeline {
  import opened Bytes
  import opened Ldq
  import W = Wakeup

  /** A frame given to `PushLidarData`, and whether the ring had room for it. */
  datatype Handed = Handed(packet: Packet, accepted: bool)

  /**
   One lidar: its ring (no slots until the first push), the points decoded and not yet handed
   over, and what has happened so far: all points decoded, all frames handed over, all packets
   popped.
   */
  datatype Lidar = Lidar(ring: Ring<Packet>, buffered: seq<Point>,
                         decoded: seq<Point>, handed: seq<Handed>, delivered: seq<Packet>)

  datatype Frame = Frame(lidar: nat, packet: Packet)

  datatype Producer =
    | Working                   // free, or about to test whether the next frame's ring is full
    | Checked                   // it is not
    | Storing                   // the base time is written
    | Stored                    // and the points
    | Pushed(lidar: nat)        // the write index has moved
    | Testing(lidar: nat)       // about to read the count
    | Signalling(lidar: nat)

  datatype Consumer =
    | Waiting
    | Scanning(next: nat)
    | Outer(lidar: nat)         // about to test the loop of PollingLidarPointCloudData
    | Inner(lidar: nat)         // about to test the loop of PublishPointcloud2
    | Reading(lidar: nat)       // in QueuePop
    | HalfRead(lidar: nat, baseTime: nat)
    | Read(lidar: nat, packet: Packet)

  datatype State = State(lidars: seq<Lidar>, count: nat, pending: seq<Frame>, producer: Producer, consumer: Consumer)

  /** The sampling lidars, and the size of the rings. */
  datatype Setting = Setting(sampling: seq<bool>, size: nat)

  datatype Step =
    | Decode(lidar: nat, points: seq<Point>)
    | Publish(lidars: seq<nat>) // CheckTimer hands over the points of these lidars
    | Produce
    | Consume

  // ---------------------------------------------------------------------------------------
  // The steps
  // ---------------------------------------------------------------------------------------

  function AfterDecode(s: State, i: nat, points: seq<Point>): State
    requires i < |s.lidars|
  {
    var l := s.lidars[i];
    s.(lidars := s.lidars[i := l.(buffered := l.buffered + points, decoded := l.decoded + points)])
  }

  /** A lidar with points yields one frame, and its buffer is emptied. */
  function HandOver(s: State, i: nat): (r: State)
    requires i < |s.lidars|
    ensures |r.lidars| == |s.lidars|
  {
    var points := s.lidars[i].buffered;
    if points == [] then s
    else
      s.(lidars := s.lidars[i := s.lidars[i].(buffered := [])],
         pending := s.pending + [Frame(i, Packet(points[0].offsetTime, points))])
  }

  function AfterPublish(s: State, ids: seq<nat>): State
    requires forall i <- ids :: i < |s.lidars|
    decreases |ids|
  {
    if ids == [] then s
    else
      assert ids[0] in ids && forall i <- ids[1..] :: i in ids;
      AfterPublish(HandOver(s, ids[0]), ids[1..])
  }

  function Hand(l: Lidar, p: Packet, accepted: bool): Lidar {
    l.(handed := l.handed + [Handed(p, accepted)])
  }

  ghost predicate CanProduce(s: State) {
    match s.producer
    case Working => s.pending != [] && s.pending[0].lidar < |s.lidars|
    case Checked => s.pending != [] && s.pending[0].lidar < |s.lidars| && RingValid(s.lidars[s.pending[0].lidar].ring)
    case Storing => s.pending != [] && s.pending[0].lidar < |s.lidars| && RingValid(s.lidars[s.pending[0].lidar].ring)
    case Stored => s.pending != [] && s.pending[0].lidar < |s.lidars|
    case Pushed(i) => i < |s.lidars|
    case Testing(i) => true
    case Signalling(i) => true
  }

  ghost function AfterProduce(c: Setting, s: State): State
    requires CanProduce(s)
  {
    match s.producer
    case Working =>
      var i, p := s.pending[0].lidar, s.pending[0].packet;
      var l := s.lidars[i];
      if l.ring.slots == [] then
        s.(lidars := s.lidars[i := l.(ring := Ring(seq(c.size, _ => Packet(0, [])), 0, 0))])
      else if IsFull(l.ring) then
        s.(lidars := s.lidars[i := Hand(l, p, false)], pending := s.pending[1..], producer := Testing(i))
      else s.(producer := Checked)
    case Checked =>
      var i, p := s.pending[0].lidar, s.pending[0].packet;
      var r := s.lidars[i].ring;
      s.(lidars := s.lidars[i := s.lidars[i].(ring := Store(r, Packet(p.baseTime, r.slots[Slot(r, r.wr)].points)))],
         producer := Storing)
    case Storing =>
      var i, p := s.pending[0].lidar, s.pending[0].packet;
      var r := s.lidars[i].ring;
      s.(lidars := s.lidars[i := s.lidars[i].(ring := Store(r, Packet(r.slots[Slot(r, r.wr)].baseTime, p.points)))],
         producer := Stored)
    case Stored =>
      var i, p := s.pending[0].lidar, s.pending[0].packet;
      var l := s.lidars[i];
      s.(lidars := s.lidars[i := Hand(l.(ring := l.ring.(wr := Wrap(l.ring.wr + 1))), p, true)],
         pending := s.pending[1..], producer := Pushed(i))
    case Pushed(i) => s.(producer := if IsEmpty(s.lidars[i].ring) then Working else Testing(i))
    case Testing(i) => s.(producer := if s.count > 0 then Working else Signalling(i))
    case Signalling(i) => s.(count := s.count + 1, producer := Working)
  }

  ghost predicate CanConsume(c: Setting, s: State) {
    match s.consumer
    case Waiting => s.count > 0
    case Scanning(i) => i <= |s.lidars| == |c.sampling|
    case Outer(i) => i < |s.lidars|
    case Inner(i) => i < |s.lidars|
    case Reading(i) => i < |s.lidars| && RingValid(s.lidars[i].ring)
    case HalfRead(i, _) => i < |s.lidars| && RingValid(s.lidars[i].ring)
    case Read(i, _) => i < |s.lidars|
  }

  ghost function AfterConsume(c: Setting, s: State): State
    requires CanConsume(c, s)
  {
    match s.consumer
    case Waiting => s.(count := s.count - 1, consumer := Scanning(0))
    case Scanning(i) =>
      s.(consumer := if i == |s.lidars| then Waiting
                     else if c.sampling[i] && s.lidars[i].ring.slots != [] then Outer(i)
                     else Scanning(i + 1))
    case Outer(i) => s.(consumer := if IsEmpty(s.lidars[i].ring) then Scanning(i + 1) else Inner(i))
    case Inner(i) => s.(consumer := if IsEmpty(s.lidars[i].ring) then Outer(i) else Reading(i))
    case Reading(i) =>
      var r := s.lidars[i].ring;
      s.(consumer := if IsEmpty(r) then Inner(i) else HalfRead(i, r.slots[Slot(r, r.rd)].baseTime))
    case HalfRead(i, baseTime) =>
      var r := s.lidars[i].ring;
      s.(consumer := Read(i, Packet(baseTime, r.slots[Slot(r, r.rd)].points)))
    case Read(i, p) =>
      var l := s.lidars[i];
      s.(lidars := s.lidars[i := l.(ring := PopUpdate(l.ring), delivered := l.delivered + [p])], consumer := Inner(i))
  }

  ghost predicate Enabled(c: Setting, s: State, step: Step) {
    match step
    case Decode(i, _) => s.producer.Working? && s.pending == [] && i < |s.lidars|
    case Publish(ids) =>
      s.producer.Working? && s.pending == [] && forall i <- ids :: i < |s.lidars|
    case Produce => CanProduce(s)
    case Consume => CanConsume(c, s)
  }

  ghost function Next(c: Setting, s: State, step: Step): State
    requires Enabled(c, s, step)
  {
    match step
    case Decode(i, points) => AfterDecode(s, i, points)
    case Publish(ids) => AfterPublish(s, ids)
    case Produce => AfterProduce(c, s)
    case Consume => AfterConsume(c, s)
  }

  // ---------------------------------------------------------------------------------------
  // The invariant
  // ---------------------------------------------------------------------------------------

  /** The packets the ring took. */
  function Accepted(handed: seq<Handed>): seq<Packet> {
    if handed == [] then []
    else
      var h := handed[|handed| - 1];
      Accepted(handed[..|handed| - 1]) + if h.accepted then [h.packet] else []
  }

  function PointsOf(handed: seq<Handed>): seq<Point> {
    if handed == [] then [] else PointsOf(handed[..|handed| - 1]) + handed[|handed| - 1].packet.points
  }

  /** The points of lidar `i` in the frames on their way to its ring. */
  function InFlight(pending: seq<Frame>, i: nat): seq<Point> {
    if pending == [] then []
    else
      var f := pending[|pending| - 1];
      InFlight(pending[..|pending| - 1], i) + if f.lidar == i then f.packet.points else []
  }

  /** A frame's base time is the time of its first point. */
  predicate FrameOk(p: Packet) {
    p.points != [] && p.baseTime == p.points[0].offsetTime
  }

  /** The ring holds exactly the packets it took that have not been delivered, in order. */
  ghost predicate RingOk(r: Ring<Packet>, accepted: seq<Packet>, delivered: seq<Packet>) {
    if r.slots == [] then r.rd == 0 && r.wr == 0 && accepted == [] && delivered == []
    else Holds(r, accepted, |delivered|) && delivered <= accepted
  }

  /** Every point decoded is in a frame handed over, on its way there, or still buffered: in order. */
  predicate Conserved(l: Lidar, inFlight: seq<Point>) {
    l.decoded == PointsOf(l.handed) + inFlight + l.buffered
  }

  ghost predicate LidarOk(l: Lidar, inFlight: seq<Point>) {
    && RingOk(l.ring, Accepted(l.handed), l.delivered)
    && Conserved(l, inFlight)
    && forall h <- l.handed :: FrameOk(h.packet)
  }

  predicate PendingOk(pending: seq<Frame>, n: nat) {
    forall f <- pending :: f.lidar < n && FrameOk(f.packet)
  }

  ghost predicate HasRoom(r: Ring<Packet>) {
    RingValid(r) && !IsFull(r)
  }

  ghost predicate ProducerOk(s: State) {
    match s.producer
    case Working => true
    case Checked =>
      s.pending != [] && s.pending[0].lidar < |s.lidars| && HasRoom(s.lidars[s.pending[0].lidar].ring)
    case Storing =>
      && s.pending != [] && s.pending[0].lidar < |s.lidars| && HasRoom(s.lidars[s.pending[0].lidar].ring)
      && (var r := s.lidars[s.pending[0].lidar].ring;
          r.slots[Slot(r, r.wr)].baseTime == s.pending[0].packet.baseTime)
    case Stored =>
      && s.pending != [] && s.pending[0].lidar < |s.lidars| && HasRoom(s.lidars[s.pending[0].lidar].ring)
      && (var r := s.lidars[s.pending[0].lidar].ring;
          r.slots[Slot(r, r.wr)] == s.pending[0].packet)
    case Pushed(i) => i < |s.lidars| && s.lidars[i].ring.slots != []
    case Testing(i) => i < |s.lidars|
    case Signalling(i) => i < |s.lidars|
  }

  ghost predicate HasPacket(r: Ring<Packet>) {
    RingValid(r) && !IsEmpty(r)
  }

  ghost predicate ConsumerOk(c: Setting, s: State)
    requires |c.sampling| == |s.lidars|
  {
    match s.consumer
    case Waiting => true
    case Scanning(i) => i <= |s.lidars|
    case Outer(i) => i < |s.lidars| && s.lidars[i].ring.slots != [] && c.sampling[i]
    case Inner(i) => i < |s.lidars| && s.lidars[i].ring.slots != [] && c.sampling[i]
    case Reading(i) => i < |s.lidars| && HasPacket(s.lidars[i].ring) && c.sampling[i]
    case HalfRead(i, baseTime) =>
      && i < |s.lidars| && HasPacket(s.lidars[i].ring) && c.sampling[i]
      && baseTime == Front(s.lidars[i].ring).baseTime
    case Read(i, p) => i < |s.lidars| && HasPacket(s.lidars[i].ring) && c.sampling[i] && p == Front(s.lidars[i].ring)
  }

  ghost predicate Invariant(c: Setting, s: State) {
    && IsSize(c.size) && |c.sampling| == |s.lidars|
    && (forall i | 0 <= i < |s.lidars| :: LidarOk(s.lidars[i], InFlight(s.pending, i)))
    && PendingOk(s.pending, |s.lidars|)
    && ProducerOk(s) && ConsumerOk(c, s)
  }

  function Initial(n: nat): State {
    State(seq(n, _ => Lidar(Ring([], 0, 0), [], [], [], [])), 0, [], Working, Waiting)
  }

  // ---------------------------------------------------------------------------------------
  // Every step keeps it
  // ---------------------------------------------------------------------------------------

  lemma {:induction false} InFlightOfFirst(pending: seq<Frame>, i: nat)
    requires pending != []
    ensures InFlight(pending, i)
         == (if pending[0].lidar == i then pending[0].packet.points else []) + InFlight(pending[1..], i)
    decreases |pending|
  {
    var n := |pending| - 1;
    if n > 0 {
      InFlightOfFirst(pending[..n], i);
      var init, tail := pending[..n], pending[1..];
      assert init[1..] == tail[..n - 1] && init[0] == pending[0] && tail[n - 1] == pending[n];
    } else {
      assert pending[..n] == [] && pending[1..] == [];
    }
  }

  lemma HandSnoc(l: Lidar, p: Packet, accepted: bool)
    ensures PointsOf(Hand(l, p, accepted).handed) == PointsOf(l.handed) + p.points
    ensures Accepted(Hand(l, p, accepted).handed) == Accepted(l.handed) + if accepted then [p] else []
  {
    assert (l.handed + [Handed(p, accepted)])[..|l.handed|] == l.handed;
  }

  lemma LidarOf(c: Setting, s: State, i: nat)
    requires Invariant(c, s) && i < |s.lidars|
    ensures LidarOk(s.lidars[i], InFlight(s.pending, i))
  {
  }

  /** A step that changes one lidar, and of the frames on their way only those of that lidar. */
  lemma OneLidarChanges(c: Setting, s: State, t: State, i: nat)
    requires Invariant(c, s) && |t.lidars| == |s.lidars| && i < |s.lidars|
    requires forall j | 0 <= j < |s.lidars| && j != i ::
               t.lidars[j] == s.lidars[j] && InFlight(t.pending, j) == InFlight(s.pending, j)
    requires LidarOk(t.lidars[i], InFlight(t.pending, i))
    requires PendingOk(t.pending, |t.lidars|) && ProducerOk(t) && ConsumerOk(c, t)
    ensures Invariant(c, t)
  {
  }

  lemma DecodeKeeps(c: Setting, s: State, i: nat, points: seq<Point>)
    requires Invariant(c, s) && i < |s.lidars| && s.producer.Working?
    ensures Invariant(c, AfterDecode(s, i, points))
  {
    hide RingOk, PointsOf, Accepted;
    LidarOf(c, s, i);
    var l := s.lidars[i];
    assert l.decoded + points == PointsOf(l.handed) + InFlight(s.pending, i) + (l.buffered + points);
    OneLidarChanges(c, s, AfterDecode(s, i, points), i);
  }

  lemma HandOverKeeps(c: Setting, s: State, i: nat)
    requires Invariant(c, s) && i < |s.lidars| && s.producer.Working?
    ensures Invariant(c, HandOver(s, i)) && HandOver(s, i).producer.Working?
  {
    hide Invariant, RingOk, PointsOf, Accepted, InFlight;
    LidarOf(c, s, i);
    var l := s.lidars[i];
    if l.buffered != [] {
      var t, f := HandOver(s, i), Frame(i, Packet(l.buffered[0].offsetTime, l.buffered));
      forall j: nat
        ensures InFlight(t.pending, j) == InFlight(s.pending, j) + if j == i then l.buffered else []
      {
        InFlightOfLast(s.pending, f, j);
      }
      assert PointsOf(l.handed) + (InFlight(s.pending, i) + l.buffered) + []
          == PointsOf(l.handed) + InFlight(s.pending, i) + l.buffered;
      WaitingOk(c, s, f);
      OneLidarChanges(c, s, t, i);
    }
  }

  lemma InFlightOfLast(pending: seq<Frame>, f: Frame, i: nat)
    ensures InFlight(pending + [f], i) == InFlight(pending, i) + if f.lidar == i then f.packet.points else []
  {
    assert (pending + [f])[..|pending|] == pending;
  }

  /** With the producer free, a frame more is on its way. */
  lemma WaitingOk(c: Setting, s: State, f: Frame)
    requires Invariant(c, s) && f.lidar < |s.lidars| && FrameOk(f.packet)
    ensures PendingOk(s.pending + [f], |s.lidars|) && |c.sampling| == |s.lidars| && ConsumerOk(c, s)
  {
    hide LidarOk, InFlight, ProducerOk, ConsumerOk;
  }

  lemma {:induction false} PublishKeeps(c: Setting, s: State, ids: seq<nat>)
    requires Invariant(c, s) && s.producer.Working? && forall i <- ids :: i < |s.lidars|
    ensures Invariant(c, AfterPublish(s, ids))
    decreases |ids|
  {
    if ids != [] {
      assert ids[0] in ids && forall i <- ids[1..] :: i in ids;
      hide Invariant, HandOver;
      HandOverKeeps(c, s, ids[0]);
      PublishKeeps(c, HandOver(s, ids[0]), ids[1..]);
    }
  }

  /** The frame at the head of the line is given up or pushed. */
  lemma TailInFlight(s: State, i: nat)
    requires s.pending != [] && s.pending[0].lidar == i
    ensures InFlight(s.pending, i) == s.pending[0].packet.points + InFlight(s.pending[1..], i)
    ensures forall j: nat | j != i :: InFlight(s.pending[1..], j) == InFlight(s.pending, j)
  {
    InFlightOfFirst(s.pending, i);
    forall j: nat | j != i
      ensures InFlight(s.pending[1..], j) == InFlight(s.pending, j)
    {
      InFlightOfFirst(s.pending, j);
    }
  }

  lemma HandedIsConserved(l: Lidar, p: Packet, accepted: bool, rest: seq<Point>)
    requires Conserved(l, p.points + rest)
    ensures Conserved(Hand(l, p, accepted), rest)
  {
    HandSnoc(l, p, accepted);
    hide PointsOf;
    assert PointsOf(l.handed) + (p.points + rest) + l.buffered == PointsOf(l.handed) + p.points + rest + l.buffered;
  }

  // ---------------------------------------------------------------------------------------
  // The ring under both threads
  // ---------------------------------------------------------------------------------------

  lemma EmptyWhenAllDelivered(r: Ring<Packet>, accepted: seq<Packet>, delivered: seq<Packet>)
    requires RingOk(r, accepted, delivered)
    ensures |delivered| <= |accepted| && (IsEmpty(r) <==> |accepted| == |delivered|)
  {
    if r.slots != [] {
      CountsAreExact(r, accepted, |delivered|);
    }
  }

  lemma AllocatedRing(size: nat)
    requires IsSize(size)
    ensures RingOk(Ring(seq(size, _ => Packet(0, [])), 0, 0), [], [])
  {
    SizeFacts(size);
  }

  /** A write into the free slot is not seen by the consumer. */
  lemma StoreKeepsRing(r: Ring<Packet>, accepted: seq<Packet>, delivered: seq<Packet>, p: Packet)
    requires r.slots != [] && RingOk(r, accepted, delivered) && HasRoom(r)
    ensures RingOk(Store(r, p), accepted, delivered) && HasRoom(Store(r, p)) && Store(r, p).slots != []
    ensures Slot(Store(r, p), r.wr) == Slot(r, r.wr) && Store(r, p).slots[Slot(r, r.wr)] == p
    ensures HasPacket(r) ==> HasPacket(Store(r, p)) && Front(Store(r, p)) == Front(r)
  {
    StoreIsUnseen(r, accepted, |delivered|, p);
    if !IsEmpty(r) {
      ReadIsNotWritten(r, accepted, |delivered|);
    }
  }

  /** The index moves only past a whole packet. */
  lemma BumpKeepsRing(r: Ring<Packet>, accepted: seq<Packet>, delivered: seq<Packet>)
    requires r.slots != [] && RingOk(r, accepted, delivered) && HasRoom(r)
    ensures RingOk(r.(wr := Wrap(r.wr + 1)), accepted + [r.slots[Slot(r, r.wr)]], delivered)
    ensures HasPacket(r.(wr := Wrap(r.wr + 1)))
    ensures HasPacket(r) ==> Front(r.(wr := Wrap(r.wr + 1))) == Front(r)
  {
    BumpAppends(r, accepted, |delivered|);
    CountsAreExact(r.(wr := Wrap(r.wr + 1)), accepted + [r.slots[Slot(r, r.wr)]], |delivered|);
  }

  lemma PopKeepsRing(r: Ring<Packet>, accepted: seq<Packet>, delivered: seq<Packet>)
    requires RingOk(r, accepted, delivered) && HasPacket(r) && r.slots != []
    ensures RingOk(PopUpdate(r), accepted, delivered + [Front(r)])
    ensures |delivered| < |accepted| && accepted[|delivered|] == Front(r)
    ensures HasRoom(r) ==> HasRoom(PopUpdate(r))
  {
    PopTakesOldest(r, accepted, |delivered|);
    CountsAreExact(r, accepted, |delivered|);
    CountsAreExact(PopUpdate(r), accepted, |delivered| + 1);
    assert accepted[..|delivered| + 1] == accepted[..|delivered|] + [accepted[|delivered|]];
  }

  // ---------------------------------------------------------------------------------------
  // One thread's step leaves the other where it was
  // ---------------------------------------------------------------------------------------

  lemma ConsumerStays(c: Setting, s: State, t: State, i: nat)
    requires |c.sampling| == |s.lidars| == |t.lidars| && i < |s.lidars| && t.consumer == s.consumer && ConsumerOk(c, s)
    requires forall j | 0 <= j < |s.lidars| && j != i :: t.lidars[j] == s.lidars[j]
    requires s.lidars[i].ring.slots != [] ==> t.lidars[i].ring.slots != []
    requires HasPacket(s.lidars[i].ring) ==>
               HasPacket(t.lidars[i].ring) && Front(t.lidars[i].ring) == Front(s.lidars[i].ring)
    ensures ConsumerOk(c, t)
  {
    hide HasPacket, Front;
  }

  lemma ProducerStays(s: State, t: State, i: nat)
    requires |s.lidars| == |t.lidars| && i < |s.lidars| && ProducerOk(s)
    requires t.producer == s.producer && t.pending == s.pending
    requires forall j | 0 <= j < |s.lidars| && j != i :: t.lidars[j] == s.lidars[j]
    requires t.lidars[i].ring.slots == s.lidars[i].ring.slots && t.lidars[i].ring.wr == s.lidars[i].ring.wr
    requires HasRoom(s.lidars[i].ring) ==> HasRoom(t.lidars[i].ring)
    ensures ProducerOk(t)
  {
    hide IsFull;
  }

  // ---------------------------------------------------------------------------------------
  // The producer's steps
  // ---------------------------------------------------------------------------------------

  lemma AllocateKeeps(c: Setting, s: State)
    requires Invariant(c, s) && s.producer.Working? && s.pending != []
    requires s.pending[0].lidar < |s.lidars| && s.lidars[s.pending[0].lidar].ring.slots == []
    ensures Invariant(c, AfterProduce(c, s))
  {
    var i, t := s.pending[0].lidar, AfterProduce(c, s);
    LidarOf(c, s, i);
    AllocatedRing(c.size);
    assert !HasPacket(s.lidars[i].ring);
    ConsumerStays(c, s, t, i);
    OneLidarChanges(c, s, t, i);
  }

  /** The frame at the head of the line goes to its lidar's history; only that lidar changes. */
  lemma HeadLeaves(c: Setting, s: State, l: Lidar, producer: Producer)
    requires Invariant(c, s) && s.pending != [] && s.pending[0].lidar < |s.lidars|
    requires LidarOk(l, InFlight(s.pending[1..], s.pending[0].lidar)) && l.ring.slots != []
    requires HasPacket(s.lidars[s.pending[0].lidar].ring) ==>
               HasPacket(l.ring) && Front(l.ring) == Front(s.lidars[s.pending[0].lidar].ring)
    requires producer == Pushed(s.pending[0].lidar) || producer == Testing(s.pending[0].lidar)
    ensures Invariant(c, s.(lidars := s.lidars[s.pending[0].lidar := l], pending := s.pending[1..], producer := producer))
  {
    var i := s.pending[0].lidar;
    var t := s.(lidars := s.lidars[i := l], pending := s.pending[1..], producer := producer);
    TailInFlight(s, i);
    hide LidarOk, InFlight, HasRoom, HasPacket, Front;
    ConsumerStays(c, s, t, i);
    OneLidarChanges(c, s, t, i);
  }

  lemma DropKeeps(c: Setting, s: State)
    requires Invariant(c, s) && s.producer.Working? && s.pending != [] && s.pending[0].lidar < |s.lidars|
    requires s.lidars[s.pending[0].lidar].ring.slots != [] && IsFull(s.lidars[s.pending[0].lidar].ring)
    ensures Invariant(c, AfterProduce(c, s))
  {
    var i, p := s.pending[0].lidar, s.pending[0].packet;
    LidarOf(c, s, i);
    TailInFlight(s, i);
    HandSnoc(s.lidars[i], p, false);
    HandedIsConserved(s.lidars[i], p, false, InFlight(s.pending[1..], i));
    assert s.pending[0] in s.pending;
    hide Invariant, RingOk, PointsOf, Accepted, InFlight, Conserved, HasPacket, Front, ConsumerOk;
    assert Accepted(s.lidars[i].handed) + [] == Accepted(s.lidars[i].handed);
    HeadLeaves(c, s, Hand(s.lidars[i], p, false), Testing(i));
  }

  lemma StoreKeeps(c: Setting, s: State)
    requires Invariant(c, s) && (s.producer.Checked? || s.producer.Storing?)
    ensures CanProduce(s) && Invariant(c, AfterProduce(c, s))
  {
    var i, p := s.pending[0].lidar, s.pending[0].packet;
    var r := s.lidars[i].ring;
    var was := r.slots[Slot(r, r.wr)];
    var x := if s.producer.Checked? then Packet(p.baseTime, was.points) else Packet(was.baseTime, p.points);
    var t := AfterProduce(c, s);
    assert t.lidars[i] == s.lidars[i].(ring := Store(r, x));
    LidarOf(c, s, i);
    SlotsNotEmpty(r);
    StoreKeepsRing(r, Accepted(s.lidars[i].handed), s.lidars[i].delivered, x);
    hide RingOk, PointsOf, Accepted, InFlight, Store, HasRoom, HasPacket, Front;
    ConsumerStays(c, s, t, i);
    OneLidarChanges(c, s, t, i);
  }

  lemma SlotsNotEmpty(r: Ring<Packet>)
    requires RingValid(r)
    ensures r.slots != []
  {
    SizeFacts(|r.slots|);
  }

  /** A lidar whose ring takes the packet that its free slot holds. */
  lemma BumpLidar(l: Lidar, p: Packet, rest: seq<Point>)
    requires LidarOk(l, p.points + rest) && HasRoom(l.ring) && FrameOk(p)
    requires l.ring.slots[Slot(l.ring, l.ring.wr)] == p
    ensures LidarOk(Hand(l.(ring := l.ring.(wr := Wrap(l.ring.wr + 1))), p, true), rest)
    ensures HasPacket(l.ring.(wr := Wrap(l.ring.wr + 1)))
    ensures HasPacket(l.ring) ==> Front(l.ring.(wr := Wrap(l.ring.wr + 1))) == Front(l.ring)
  {
    SlotsNotEmpty(l.ring);
    BumpKeepsRing(l.ring, Accepted(l.handed), l.delivered);
    HandSnoc(l.(ring := l.ring.(wr := Wrap(l.ring.wr + 1))), p, true);
    HandedIsConserved(l, p, true, rest);
    hide RingOk, PointsOf, Accepted, HasRoom, HasPacket, Front, Wrap;
  }

  lemma BumpKeeps(c: Setting, s: State)
    requires Invariant(c, s) && s.producer.Stored?
    ensures CanProduce(s) && Invariant(c, AfterProduce(c, s))
  {
    hide LidarOk, InFlight, HasPacket, Front, Wrap, ConsumerOk, RingValid;
    var i, p := s.pending[0].lidar, s.pending[0].packet;
    var l := s.lidars[i];
    LidarOf(c, s, i);
    SlotsNotEmpty(l.ring);
    TailInFlight(s, i);
    assert s.pending[0] in s.pending;
    hide Invariant;
    BumpLidar(l, p, InFlight(s.pending[1..], i));
    HeadLeaves(c, s, Hand(l.(ring := l.ring.(wr := Wrap(l.ring.wr + 1))), p, true), Pushed(i));
  }

  lemma ProduceKeeps(c: Setting, s: State)
    requires Invariant(c, s) && CanProduce(s)
    ensures Invariant(c, AfterProduce(c, s))
  {
    if s.producer.Working? {
      var r := s.lidars[s.pending[0].lidar].ring;
      if r.slots == [] {
        AllocateKeeps(c, s);
      } else if IsFull(r) {
        DropKeeps(c, s);
      } else {
        LidarOf(c, s, s.pending[0].lidar);
      }
    } else if s.producer.Checked? || s.producer.Storing? {
      StoreKeeps(c, s);
    } else if s.producer.Stored? {
      BumpKeeps(c, s);
    } else if s.producer.Pushed? {
    }
  }

  // ---------------------------------------------------------------------------------------
  // The consumer's steps
  // ---------------------------------------------------------------------------------------

  lemma PopKeeps(c: Setting, s: State)
    requires Invariant(c, s) && s.consumer.Read?
    ensures Invariant(c, AfterConsume(c, s))
  {
    var i, t := s.consumer.lidar, AfterConsume(c, s);
    var l := s.lidars[i];
    LidarOf(c, s, i);
    SlotsNotEmpty(l.ring);
    PopKeepsRing(l.ring, Accepted(l.handed), l.delivered);
    ProducerStays(s, t, i);
    hide RingOk, PointsOf, Accepted, InFlight, HasRoom, HasPacket, Front;
    OneLidarChanges(c, s, t, i);
  }

  lemma ConsumeKeeps(c: Setting, s: State)
    requires Invariant(c, s) && CanConsume(c, s)
    ensures Invariant(c, AfterConsume(c, s))
  {
    if s.consumer.Read? {
      PopKeeps(c, s);
    } else {
      hide LidarOk, InFlight, ProducerOk;
      if s.consumer.Inner? || s.consumer.Reading? {
        LidarIsValid(c, s, s.consumer.lidar);
      }
    }
  }

  lemma LidarIsValid(c: Setting, s: State, i: nat)
    requires Invariant(c, s) && i < |s.lidars| && s.lidars[i].ring.slots != []
    ensures RingValid(s.lidars[i].ring)
  {
    LidarOf(c, s, i);
  }

  lemma StepKeepsInvariant(c: Setting, s: State, step: Step)
    requires Invariant(c, s) && Enabled(c, s, step)
    ensures Invariant(c, Next(c, s, step))
  {
    hide Invariant, CanProduce, CanConsume, AfterDecode, AfterPublish, AfterProduce, AfterConsume;
    match step {
      case Decode(i, points) => DecodeKeeps(c, s, i, points);
      case Publish(ids) => PublishKeeps(c, s, ids);
      case Produce => ProduceKeeps(c, s);
      case Consume => ConsumeKeeps(c, s);
    }
  }

  /** The producer is never stuck with work in hand, nor the consumer but at the semaphore. */
  lemma NeverStuck(c: Setting, s: State)
    requires Invariant(c, s)
    ensures !s.producer.Working? || s.pending != [] ==> Enabled(c, s, Produce)
    ensures !s.consumer.Waiting? || s.count > 0 ==> Enabled(c, s, Consume)
  {
    hide LidarOk, InFlight;
    if s.pending != [] {
      assert s.pending[0] in s.pending;
    }
  }

  // ---------------------------------------------------------------------------------------
  // It is the wakeup protocol
  // ---------------------------------------------------------------------------------------

  /** The packets in the ring of a lidar. */
  function Queue(l: Lidar): seq<Packet> {
    var accepted := Accepted(l.handed);
    if |l.delivered| <= |accepted| then accepted[|l.delivered|..] else []
  }

  function Queues(lidars: seq<Lidar>): (queues: seq<seq<Packet>>)
    ensures |queues| == |lidars| && forall i | 0 <= i < |lidars| :: queues[i] == Queue(lidars[i])
  {
    seq(|lidars|, i requires 0 <= i < |lidars| => Queue(lidars[i]))
  }

  function View(s: State): W.State<Packet> {
    W.State(Queues(s.lidars), s.count,
            match s.producer
            case Pushed(i) => W.Pushed(i)
            case Testing(i) => W.Testing(i)
            case Signalling(i) => W.Signalling(i)
            case _ => W.Ready,
            match s.consumer
            case Waiting => W.Waiting
            case Scanning(i) => W.Scanning(i)
            case Outer(i) => W.Draining(i)
            case Inner(i) => W.Draining(i)
            case Reading(i) => W.Draining(i)
            case HalfRead(i, _) => W.Draining(i)
            case Read(i, _) => W.Draining(i))
  }

  /** A step of the threads is a step of the protocol, or one that it does not see. */
  ghost predicate Simulates(c: Setting, s: State, t: State) {
    || View(t) == View(s)
    || exists w: W.Step<Packet> :: W.Enabled(c.sampling, View(s), w) && W.Next(c.sampling, View(s), w) == View(t)
  }

  lemma SimulatedBy(c: Setting, s: State, t: State, w: W.Step<Packet>)
    requires W.Enabled(c.sampling, View(s), w) && W.Next(c.sampling, View(s), w) == View(t)
    ensures Simulates(c, s, t)
  {
  }

  lemma QueueEmpty(c: Setting, s: State, i: nat)
    requires Invariant(c, s) && i < |s.lidars|
    ensures IsEmpty(s.lidars[i].ring) <==> Queue(s.lidars[i]) == []
  {
    LidarOf(c, s, i);
    EmptyWhenAllDelivered(s.lidars[i].ring, Accepted(s.lidars[i].handed), s.lidars[i].delivered);
  }

  lemma SameQueues(s: State, t: State, i: nat)
    requires |s.lidars| == |t.lidars| && i < |s.lidars|
    requires forall j | 0 <= j < |s.lidars| && j != i :: t.lidars[j] == s.lidars[j]
    ensures Queues(t.lidars) == Queues(s.lidars)[i := Queue(t.lidars[i])]
  {
  }

  lemma {:induction false} PublishIsUnseen(s: State, ids: seq<nat>)
    requires s.producer.Working? && forall i <- ids :: i < |s.lidars|
    ensures View(AfterPublish(s, ids)) == View(s)
    decreases |ids|
  {
    if ids != [] {
      assert ids[0] in ids && forall i <- ids[1..] :: i in ids;
      var t := HandOver(s, ids[0]);
      SameQueues(s, t, ids[0]);
      assert Queues(t.lidars) == Queues(s.lidars);
      PublishIsUnseen(t, ids[1..]);
    }
  }

  /** The push is the moment the write index moves. */
  lemma BumpSimulates(c: Setting, s: State)
    requires Invariant(c, s) && s.producer.Stored?
    ensures CanProduce(s) && Simulates(c, s, AfterProduce(c, s))
  {
    var i, p, t := s.pending[0].lidar, s.pending[0].packet, AfterProduce(c, s);
    var l := s.lidars[i];
    LidarOf(c, s, i);
    EmptyWhenAllDelivered(l.ring, Accepted(l.handed), l.delivered);
    HandSnoc(l.(ring := l.ring.(wr := Wrap(l.ring.wr + 1))), p, true);
    hide Accepted, InFlight, RingOk, HasRoom, ConsumerOk, Wrap;
    assert Queue(t.lidars[i]) == Queue(l) + [p];
    SameQueues(s, t, i);
    SimulatedBy(c, s, t, W.Push(i, p));
  }

  /** Until then nothing shows; a full ring is a refusal. */
  lemma PrepareSimulates(c: Setting, s: State)
    requires Invariant(c, s) && CanProduce(s) && (s.producer.Working? || s.producer.Checked? || s.producer.Storing?)
    ensures Simulates(c, s, AfterProduce(c, s))
  {
    hide Invariant, ProducerOk, ConsumerOk, Queue, Queues, Store, Slot, IsFull, RingValid;
    var i, t := s.pending[0].lidar, AfterProduce(c, s);
    PrepareKeepsQueue(c, s);
    SameQueues(s, t, i);
    assert Queues(t.lidars) == Queues(s.lidars);
    if t.producer.Testing? {
      SimulatedBy(c, s, t, W.Refuse(i));
    }
  }

  lemma PrepareKeepsQueue(c: Setting, s: State)
    requires CanProduce(s) && (s.producer.Working? || s.producer.Checked? || s.producer.Storing?)
    ensures |AfterProduce(c, s).lidars| == |s.lidars|
    ensures Queue(AfterProduce(c, s).lidars[s.pending[0].lidar]) == Queue(s.lidars[s.pending[0].lidar])
  {
    HandSnoc(s.lidars[s.pending[0].lidar], s.pending[0].packet, false);
    hide Accepted;
  }

  lemma ProduceSimulates(c: Setting, s: State)
    requires Invariant(c, s) && CanProduce(s)
    ensures Simulates(c, s, AfterProduce(c, s))
  {
    if s.producer.Pushed? {
      QueueEmpty(c, s, s.producer.lidar);
      SimulatedBy(c, s, AfterProduce(c, s),
                  if IsEmpty(s.lidars[s.producer.lidar].ring) then W.SeeEmpty else W.SeeNonEmpty);
    } else if s.producer.Testing? {
      SimulatedBy(c, s, AfterProduce(c, s), if s.count > 0 then W.SeeSignalled else W.SeeUnsignalled);
    } else if s.producer.Signalling? {
      SimulatedBy(c, s, AfterProduce(c, s), W.Signal);
    } else {
      hide Invariant, Simulates, AfterProduce;
      if s.producer.Stored? {
        BumpSimulates(c, s);
      } else {
        PrepareSimulates(c, s);
      }
    }
  }

  /** The pop is the moment the read index moves. */
  lemma PopSimulates(c: Setting, s: State)
    requires Invariant(c, s) && s.consumer.Read?
    ensures CanConsume(c, s) && Simulates(c, s, AfterConsume(c, s))
  {
    hide Accepted, LidarOk, ProducerOk, InFlight, Slot;
    var i, t := s.consumer.lidar, AfterConsume(c, s);
    QueueEmpty(c, s, i);
    SameQueues(s, t, i);
    hide Invariant;
    assert Queue(t.lidars[i]) == Queue(s.lidars[i])[1..];
    SimulatedBy(c, s, t, W.Pop);
  }

  lemma ConsumeSimulates(c: Setting, s: State)
    requires Invariant(c, s) && CanConsume(c, s)
    ensures Simulates(c, s, AfterConsume(c, s))
  {
    match s.consumer {
      case Waiting => SimulatedBy(c, s, AfterConsume(c, s), W.Wake);
      case Scanning(i) => ScanSimulates(c, s);
      case Outer(i) =>
        QueueEmpty(c, s, i);
        if IsEmpty(s.lidars[i].ring) {
          SimulatedBy(c, s, AfterConsume(c, s), W.Leave);
        }
      case Inner(i) =>
      case Reading(i) =>
      case HalfRead(i, _) =>
      case Read(i, _) => PopSimulates(c, s);
    }
  }

  lemma ScanSimulates(c: Setting, s: State)
    requires Invariant(c, s) && s.consumer.Scanning?
    ensures CanConsume(c, s) && Simulates(c, s, AfterConsume(c, s))
  {
    var i, t := s.consumer.next, AfterConsume(c, s);
    if i == |s.lidars| {
      SimulatedBy(c, s, t, W.Finish);
    } else if c.sampling[i] && s.lidars[i].ring.slots != [] {
      SimulatedBy(c, s, t, W.Enter);
    } else {
      LidarOf(c, s, i);
      SimulatedBy(c, s, t, W.Skip);
    }
  }

  lemma StepSimulates(c: Setting, s: State, step: Step)
    requires Invariant(c, s) && Enabled(c, s, step)
    ensures Simulates(c, s, Next(c, s, step))
  {
    match step {
      case Decode(i, points) =>
        SameQueues(s, Next(c, s, step), i);
        assert Queues(Next(c, s, step).lidars) == Queues(s.lidars);
      case Publish(ids) => PublishIsUnseen(s, ids);
      case Produce => ProduceSimulates(c, s);
      case Consume => ConsumeSimulates(c, s);
    }
  }

  lemma SimulationKeepsWakeup(c: Setting, s: State, t: State)
    requires Simulates(c, s, t) && W.Invariant(c.sampling, View(s))
    ensures W.Invariant(c.sampling, View(t))
  {
    hide View;
    if View(t) != View(s) {
      var w :| W.Enabled(c.sampling, View(s), w) && W.Next(c.sampling, View(s), w) == View(t);
      W.StepKeepsInvariant(c.sampling, View(s), w);
    }
  }

  // ---------------------------------------------------------------------------------------
  // Main results: every run
  // ---------------------------------------------------------------------------------------

  ghost predicate IsRun(c: Setting, s: State, steps: seq<Step>)
    decreases |steps|
  {
    steps == [] || (Enabled(c, s, steps[0]) && IsRun(c, Next(c, s, steps[0]), steps[1..]))
  }

  ghost function After(c: Setting, s: State, steps: seq<Step>): State
    requires IsRun(c, s, steps)
    decreases |steps|
  {
    if steps == [] then s else After(c, Next(c, s, steps[0]), steps[1..])
  }

  lemma {:induction false} RunKeepsInvariants(c: Setting, s: State, steps: seq<Step>)
    requires Invariant(c, s) && W.Invariant(c.sampling, View(s)) && IsRun(c, s, steps)
    ensures Invariant(c, After(c, s, steps)) && W.Invariant(c.sampling, View(After(c, s, steps)))
    decreases |steps|
  {
    if steps != [] {
      hide Invariant, Enabled, Next, View, Simulates, W.Invariant;
      StepKeepsInvariant(c, s, steps[0]);
      StepSimulates(c, s, steps[0]);
      SimulationKeepsWakeup(c, s, Next(c, s, steps[0]));
      RunKeepsInvariants(c, Next(c, s, steps[0]), steps[1..]);
    }
  }

  lemma InitialInvariants(c: Setting)
    requires IsSize(c.size)
    ensures Invariant(c, Initial(|c.sampling|)) && W.Invariant(c.sampling, View(Initial(|c.sampling|)))
  {
  }

  ghost predicate Reached(c: Setting, s: State, steps: seq<Step>) {
    IsSize(c.size) && IsRun(c, Initial(|c.sampling|), steps) && s == After(c, Initial(|c.sampling|), steps)
  }

  /**
   No wakeup is lost: while a sampling lidar's ring holds a packet, the semaphore is up, or the
   scan has yet to pass the lidar, or the producer is between its push and the end of its test.
   */
  lemma RingsAreCovered(c: Setting, s: State, steps: seq<Step>)
    requires Reached(c, s, steps)
    ensures |s.lidars| == |c.sampling| && s.count <= 1
    ensures forall i | 0 <= i < |s.lidars| && c.sampling[i] && !IsEmpty(s.lidars[i].ring) :: W.Covered(View(s), i)
  {
    InitialInvariants(c);
    RunKeepsInvariants(c, Initial(|c.sampling|), steps);
    hide IsEmpty, Invariant, W.Covered, Queue;
    assert W.Invariant(c.sampling, View(s));
    assert |s.lidars| == |c.sampling| by {
      SizesAgree(c, s);
    }
    forall i | 0 <= i < |s.lidars| && c.sampling[i] && !IsEmpty(s.lidars[i].ring)
      ensures W.Covered(View(s), i)
    {
      QueueEmpty(c, s, i);
    }
  }

  lemma SizesAgree(c: Setting, s: State)
    requires Invariant(c, s)
    ensures |s.lidars| == |c.sampling|
  {
  }

  /** What the invariant of one lidar says. */
  lemma LidarConserves(l: Lidar, inFlight: seq<Point>)
    requires LidarOk(l, inFlight)
    ensures l.decoded == PointsOf(l.handed) + inFlight + l.buffered
    ensures Accepted(l.handed) == l.delivered + Queue(l)
    ensures |Queue(l)| == Used(l.ring)
    ensures forall h <- l.handed :: h.packet.points != [] && h.packet.baseTime == h.packet.points[0].offsetTime
  {
    hide PointsOf, Accepted;
    if l.ring.slots != [] {
      CountsAreExact(l.ring, Accepted(l.handed), |l.delivered|);
    }
    assert Accepted(l.handed) == Accepted(l.handed)[..|l.delivered|] + Accepted(l.handed)[|l.delivered|..];
  }

  /**
   Points are conserved, in order: those decoded are those of the frames handed over, each whole
   frame either taken by the ring or dropped, then those in frames on their way, then those still
   buffered; and the packets taken are those delivered, then those still in the ring.  A frame's
   base time is its first point's.
   */
  lemma PointsAreConserved(c: Setting, s: State, steps: seq<Step>, i: nat)
    requires Reached(c, s, steps) && i < |c.sampling|
    ensures |s.lidars| == |c.sampling|
    ensures s.lidars[i].decoded == PointsOf(s.lidars[i].handed) + InFlight(s.pending, i) + s.lidars[i].buffered
    ensures Accepted(s.lidars[i].handed) == s.lidars[i].delivered + Queue(s.lidars[i])
    ensures |Queue(s.lidars[i])| == Used(s.lidars[i].ring)
    ensures forall h <- s.lidars[i].handed :: h.packet.points != [] && h.packet.baseTime == h.packet.points[0].offsetTime
  {
    InitialInvariants(c);
    RunKeepsInvariants(c, Initial(|c.sampling|), steps);
    SizesAgree(c, s);
    LidarOf(c, s, i);
    hide Invariant, LidarOk;
    LidarConserves(s.lidars[i], InFlight(s.pending, i));
  }

  /** The producer never writes the slot that the consumer is reading. */
  lemma NoSlotIsTorn(c: Setting, s: State, steps: seq<Step>, i: nat)
    requires Reached(c, s, steps) && i < |s.lidars|
    requires (s.producer.Checked? || s.producer.Storing?) && s.pending != [] && s.pending[0].lidar == i
    requires (s.consumer.Reading? || s.consumer.HalfRead?) && s.consumer.lidar == i
    ensures RingValid(s.lidars[i].ring)
         && Slot(s.lidars[i].ring, s.lidars[i].ring.rd) != Slot(s.lidars[i].ring, s.lidars[i].ring.wr)
  {
    InitialInvariants(c);
    RunKeepsInvariants(c, Initial(|c.sampling|), steps);
    LidarOf(c, s, i);
    var l := s.lidars[i];
    SlotsNotEmpty(l.ring);
    ReadIsNotWritten(l.ring, Accepted(l.handed), |l.delivered|);
  }

  /** The rings keep the size they are given. */
  ghost predicate Sized(c: Setting, s: State) {
    forall i | 0 <= i < |s.lidars| :: s.lidars[i].ring.slots == [] || |s.lidars[i].ring.slots| == c.size
  }

  lemma StepKeepsSizes(c: Setting, s: State, step: Step)
    requires Sized(c, s) && Enabled(c, s, step)
    ensures Sized(c, Next(c, s, step))
  {
    hide Slot;
    if step.Publish? {
      PublishOnlyEmpties(s, step.lidars);
    }
  }

  lemma {:induction false} PublishOnlyEmpties(s: State, ids: seq<nat>)
    requires forall i <- ids :: i < |s.lidars|
    ensures |AfterPublish(s, ids).lidars| == |s.lidars|
    ensures forall i | 0 <= i < |s.lidars| ::
              && AfterPublish(s, ids).lidars[i].ring == s.lidars[i].ring
              && AfterPublish(s, ids).lidars[i].handed == s.lidars[i].handed
              && AfterPublish(s, ids).lidars[i].buffered == if i in ids then [] else s.lidars[i].buffered
    decreases |ids|
  {
    if ids != [] {
      assert ids[0] in ids && forall i <- ids[1..] :: i in ids;
      assert forall i :: i in ids <==> i == ids[0] || i in ids[1..];
      PublishOnlyEmpties(HandOver(s, ids[0]), ids[1..]);
    }
  }

  lemma {:induction false} RunKeepsSizes(c: Setting, s: State, steps: seq<Step>)
    requires Sized(c, s) && IsRun(c, s, steps)
    ensures Sized(c, After(c, s, steps))
    decreases |steps|
  {
    hide Sized, Enabled, Next;
    if steps != [] {
      StepKeepsSizes(c, s, steps[0]);
      RunKeepsSizes(c, Next(c, s, steps[0]), steps[1..]);
    }
  }

  /** What `t` has handed over beyond `s`: nothing, or the frame at the head of the line, dropped only at a full ring. */
  ghost predicate HandsOver(c: Setting, s: State, t: State, i: nat)
    requires i < |s.lidars| && i < |t.lidars|
  {
    var l, m := s.lidars[i], t.lidars[i];
    || m.handed == l.handed
    || (&& s.pending != [] && s.pending[0].lidar == i && t.pending == s.pending[1..]
        && exists accepted ::
             && m.handed == l.handed + [Handed(s.pending[0].packet, accepted)]
             && (accepted <==> |Queue(l)| < c.size)
             && Queue(m) == if accepted then Queue(l) + [s.pending[0].packet] else Queue(l))
  }

  /**
   A frame is dropped only when its lidar's ring holds as many packets as it has slots, and pushed only
   when it holds fewer: in every run, whichever thread moves.
   */
  lemma OnlyFullRingsDrop(c: Setting, s: State, steps: seq<Step>, step: Step, i: nat)
    requires Reached(c, s, steps) && Enabled(c, s, step) && i < |s.lidars|
    ensures |Next(c, s, step).lidars| == |s.lidars| && HandsOver(c, s, Next(c, s, step), i)
  {
    InitialInvariants(c);
    RunKeepsInvariants(c, Initial(|c.sampling|), steps);
    RunKeepsSizes(c, Initial(|c.sampling|), steps);
    hide Reached, W.Invariant, View;
    match step {
      case Decode(_, _) =>
      case Publish(ids) => PublishOnlyEmpties(s, ids);
      case Consume => ConsumeHandsNothing(c, s, i);
      case Produce => ProduceHands(c, s, i);
    }
  }

  lemma ConsumeHandsNothing(c: Setting, s: State, i: nat)
    requires CanConsume(c, s) && i < |s.lidars|
    ensures |AfterConsume(c, s).lidars| == |s.lidars| && AfterConsume(c, s).lidars[i].handed == s.lidars[i].handed
  {
    hide Slot;
  }

  lemma ProduceHands(c: Setting, s: State, i: nat)
    requires Invariant(c, s) && Sized(c, s) && CanProduce(s) && i < |s.lidars|
    ensures |AfterProduce(c, s).lidars| == |s.lidars| && HandsOver(c, s, AfterProduce(c, s), i)
  {
    hide Slot, Store, RingOk, LidarOk, ConsumerOk, InFlight, Accepted;
    var t := AfterProduce(c, s);
    if (s.producer.Working? || s.producer.Stored?) && s.pending[0].lidar == i && t.lidars[i].handed != s.lidars[i].handed {
      var accepted := s.producer.Stored?;
      QueueOfHanded(c, s, accepted);
      assert t.lidars[i].handed == s.lidars[i].handed + [Handed(s.pending[0].packet, accepted)];
    }
  }

  /** A frame goes to the history of a lidar whose ring is full, or was found to have room. */
  lemma QueueOfHanded(c: Setting, s: State, accepted: bool)
    requires Invariant(c, s) && Sized(c, s) && s.pending != [] && s.pending[0].lidar < |s.lidars|
    requires s.lidars[s.pending[0].lidar].ring.slots != []
    requires accepted <==> !IsFull(s.lidars[s.pending[0].lidar].ring)
    ensures var l, p := s.lidars[s.pending[0].lidar], s.pending[0].packet;
            && (accepted <==> |Queue(l)| < c.size)
            && forall r :: Queue(Hand(l.(ring := r), p, accepted)) == if accepted then Queue(l) + [p] else Queue(l)
  {
    var i, p := s.pending[0].lidar, s.pending[0].packet;
    var l := s.lidars[i];
    LidarOf(c, s, i);
    CountsAreExact(l.ring, Accepted(l.handed), |l.delivered|);
    forall r
      ensures Queue(Hand(l.(ring := r), p, accepted)) == if accepted then Queue(l) + [p] else Queue(l)
    {
      HandSnoc(l.(ring := r), p, accepted);
    }
  }
}
