/**
 pub_handler.cpp: raw packets are decoded into a buffer per lidar, and a timer decides when the
 buffers become frames.  What a point carries is opaque here.
 */
module PubHandler {
  import Bits
  import opened Ldq

  const U64: nat := 0x1_0000_0000_0000_0000
  const MAX_SOURCE_LIDAR: nat := 32
  const NS_PER_MS: nat := 1000000

  datatype DataType = CartesianHigh | CartesianLow | Spherical | DoubleEcho | Unknown

  /** A raw point, already in the standard format: one echo, or two. */
  datatype RawPoint = RawPoint(first: int, second: int)

  datatype RawPacket = RawPacket(handle: nat, dataType: DataType, lineNum: nat, timeStamp: nat, interval: nat,
                                 raw: seq<RawPoint>)

  predicate PacketOk(p: RawPacket) {
    p.lineNum > 0
  }

  datatype Device = IndustrialHap | Mid360 | Mid360s | OtherDevice

  datatype TimeType = NoSync | GptpOrPtp | Gps | OtherTime

  /** `LivoxLidarEthernetPacket` with points: `dot_num` is their number. */
  datatype EthernetPacket = EthernetPacket(timeType: TimeType, stamp: nat, timeInterval: nat, dataType: DataType,
                                           points: seq<RawPoint>)

  /** `kLineNumberHAP`, `kLineNumberMid360` and `kLineNumberDefault`. */
  function LineNumber(device: Device): nat {
    match device
    case IndustrialHap => 6
    case Mid360 => 4
    case Mid360s => 4
    case OtherDevice => 1
  }

  /** `GetEthPacketTimestamp`: the packet's own stamp if the lidar's clock is synchronised. */
  function TimeStamp(data: EthernetPacket, now: nat): nat {
    if data.timeType.GptpOrPtp? || data.timeType.Gps? then data.stamp else now
  }

  /** The packet queued for what the lidar sent; its points are evenly spaced over the time it took. */
  function Received(handle: nat, device: Device, data: EthernetPacket, now: nat): (p: RawPacket)
    requires data.points != []
    ensures PacketOk(p) && p.handle == handle && p.raw == data.points
    ensures p.dataType == data.dataType
    ensures p.lineNum == match device case IndustrialHap => 6 case Mid360 => 4 case Mid360s => 4 case OtherDevice => 1
    ensures p.timeStamp == match data.timeType case GptpOrPtp => data.stamp case Gps => data.stamp
                                               case NoSync => now case OtherTime => now
    ensures p.interval * |p.raw| <= data.timeInterval * 100 < (p.interval + 1) * |p.raw|
  {
    RawPacket(handle, data.dataType, LineNumber(device), TimeStamp(data, now), data.timeInterval * 100 / |data.points|,
              data.points)
  }

  function PointAt(p: RawPacket, i: nat, payload: int): Point
    requires PacketOk(p)
  {
    Point(payload, i % p.lineNum, (p.timeStamp + i * p.interval) % U64)
  }

  /** The points of the first `n` raw points. */
  function DecodedTo(p: RawPacket, n: nat): seq<Point>
    requires PacketOk(p) && n <= |p.raw|
  {
    if n == 0 || p.dataType == Unknown then []
    else
      DecodedTo(p, n - 1) + [PointAt(p, n - 1, p.raw[n - 1].first)]
      + if p.dataType == DoubleEcho then [PointAt(p, n - 1, p.raw[n - 1].second)] else []
  }

  function Decoded(p: RawPacket): seq<Point>
    requires PacketOk(p)
  {
    DecodedTo(p, |p.raw|)
  }

  /** Every raw point yields its one or two points, in order; an unknown type yields none. */
  lemma {:induction false} DecodedPoints(p: RawPacket, n: nat, i: nat)
    requires PacketOk(p) && i < n <= |p.raw|
    ensures p.dataType == Unknown ==> DecodedTo(p, n) == []
    ensures p.dataType == DoubleEcho ==>
              && |DecodedTo(p, n)| == 2 * n
              && DecodedTo(p, n)[2 * i] == PointAt(p, i, p.raw[i].first)
              && DecodedTo(p, n)[2 * i + 1] == PointAt(p, i, p.raw[i].second)
    ensures p.dataType != Unknown && p.dataType != DoubleEcho ==>
              |DecodedTo(p, n)| == n && DecodedTo(p, n)[i] == PointAt(p, i, p.raw[i].first)
    decreases n
  {
    if n > 1 {
      DecodedPoints(p, n - 1, if i < n - 1 then i else 0);
    }
  }

  /** The point taken an interval later, in 64 bits, and on the next line, back to 0 after the last. */
  predicate Follows(p: RawPacket, before: Point, after: Point) {
    && after.offsetTime == (before.offsetTime + p.interval) % 0x1_0000_0000_0000_0000
    && after.line == if before.line == p.lineNum - 1 then 0 else before.line + 1
  }

  /**
   The points of a packet as the lidar took them: the first at the packet's time on line 0, and each next one
   after it.  The two echoes of a raw point share time and line.
   */
  ghost predicate Spaced(p: RawPacket, points: seq<Point>) {
    match p.dataType
    case Unknown => points == []
    case DoubleEcho =>
      && |points| == 2 * |p.raw|
      && (p.raw != [] ==> points[0].offsetTime == p.timeStamp % 0x1_0000_0000_0000_0000 && points[0].line == 0)
      && (forall i | 0 <= i < |p.raw| ::
            && points[2 * i].payload == p.raw[i].first
            && points[2 * i + 1] == Point(p.raw[i].second, points[2 * i].line, points[2 * i].offsetTime))
      && (forall i | 0 < i < |p.raw| :: Follows(p, points[2 * i - 2], points[2 * i]))
    case _ =>
      && |points| == |p.raw|
      && (p.raw != [] ==> points[0].offsetTime == p.timeStamp % 0x1_0000_0000_0000_0000 && points[0].line == 0)
      && (forall i | 0 <= i < |p.raw| :: points[i].payload == p.raw[i].first)
      && (forall i | 0 < i < |p.raw| :: Follows(p, points[i - 1], points[i]))
  }

  lemma NextTime(p: RawPacket, i: nat)
    requires PacketOk(p) && i > 0
    ensures (p.timeStamp + i * p.interval) % U64 == ((p.timeStamp + (i - 1) * p.interval) % U64 + p.interval) % U64
    ensures i % p.lineNum == if (i - 1) % p.lineNum == p.lineNum - 1 then 0 else (i - 1) % p.lineNum + 1
  {
    assert p.timeStamp + i * p.interval == (p.timeStamp + (i - 1) * p.interval) + p.interval;
    WrapAfterAdding(p.timeStamp + (i - 1) * p.interval, p.interval);
    NextRemainder(p.lineNum, i - 1);
  }

  lemma WrapAfterAdding(a: nat, b: nat)
    ensures (a + b) % U64 == (a % U64 + b) % U64
  {
    var q := a / U64;
    assert a + b == (a % U64 + b) + q * U64;
  }

  lemma NextRemainder(m: nat, n: nat)
    requires m > 0
    ensures (n + 1) % m == if n % m == m - 1 then 0 else n % m + 1
  {
    var q, r := n / m, n % m;
    assert n == q * m + r;
    if r == m - 1 {
      assert n + 1 == (q + 1) * m + 0;
      Bits.UniqueRemainder(n + 1, m, q + 1, 0);
    } else {
      Bits.UniqueRemainder(n + 1, m, q, r + 1);
    }
  }

  lemma PointFollows(p: RawPacket, i: nat, before: int, after: int)
    requires PacketOk(p) && i > 0
    ensures Follows(p, PointAt(p, i - 1, before), PointAt(p, i, after))
  {
    NextTime(p, i);
  }

  lemma SinglesAreSpaced(p: RawPacket)
    requires PacketOk(p) && p.dataType != Unknown && p.dataType != DoubleEcho && p.raw != []
    ensures Spaced(p, Decoded(p))
  {
    var points := Decoded(p);
    forall i: nat | i < |p.raw|
      ensures |points| == |p.raw| && points[i] == PointAt(p, i, p.raw[i].first)
    {
      DecodedPoints(p, |p.raw|, i);
    }
    hide Decoded, Follows;
    assert |points| == |p.raw| && points[0] == PointAt(p, 0, p.raw[0].first);
    forall i: nat | 0 < i < |p.raw|
      ensures Follows(p, points[i - 1], points[i])
    {
      PointFollows(p, i, p.raw[i - 1].first, p.raw[i].first);
    }
  }

  lemma PairsAreSpaced(p: RawPacket)
    requires PacketOk(p) && p.dataType == DoubleEcho && p.raw != []
    ensures Spaced(p, Decoded(p))
  {
    var points := Decoded(p);
    forall i: nat | i < |p.raw|
      ensures |points| == 2 * |p.raw| && points[2 * i] == PointAt(p, i, p.raw[i].first)
      ensures points[2 * i + 1] == PointAt(p, i, p.raw[i].second)
    {
      DecodedPoints(p, |p.raw|, i);
    }
    hide Decoded, Follows;
    assert |points| == 2 * |p.raw| && points[2 * 0] == PointAt(p, 0, p.raw[0].first);
    forall i: nat | 0 < i < |p.raw|
      ensures Follows(p, points[2 * i - 2], points[2 * i])
    {
      assert points[2 * (i - 1)] == PointAt(p, i - 1, p.raw[i - 1].first);
      PointFollows(p, i, p.raw[i - 1].first, p.raw[i].first);
    }
  }

  lemma DecodedIsSpaced(p: RawPacket)
    requires PacketOk(p)
    ensures Spaced(p, Decoded(p))
  {
    if p.raw != [] && p.dataType != Unknown {
      hide Decoded, Spaced;
      if p.dataType == DoubleEcho {
        PairsAreSpaced(p);
      } else {
        SinglesAreSpaced(p);
      }
    }
  }

  /** One lidar's buffer. */
  class LidarPubHandler {
    var pointsClouds: seq<Point>

    constructor (pointsClouds: seq<Point>)
      ensures this.pointsClouds == pointsClouds
    {
      this.pointsClouds := pointsClouds;
    }

    method GetLidarBaseTime() returns (time: nat)
      ensures time == if pointsClouds == [] then 0 else pointsClouds[0].offsetTime
    {
      if |pointsClouds| == 0 {
        return 0;
      }
      time := pointsClouds[0].offsetTime;
    }

    method GetRecentTimeStamp() returns (time: nat)
      ensures time == if pointsClouds == [] then 0 else pointsClouds[|pointsClouds| - 1].offsetTime
    {
      if |pointsClouds| == 0 {
        return 0;
      }
      time := pointsClouds[|pointsClouds| - 1].offsetTime;
    }

    /** The swap: the buffer goes out and the vector given takes its place. */
    method GetLidarPointClouds(given: seq<Point>) returns (taken: seq<Point>)
      modifies this
      ensures taken == old(pointsClouds) && pointsClouds == given
    {
      taken := pointsClouds;
      pointsClouds := given;
    }

    /** `PointCloudProcess`. */
    method PointCloudProcess(p: RawPacket)
      requires PacketOk(p)
      modifies this
      ensures pointsClouds == old(pointsClouds) + Decoded(p)
      ensures Spaced(p, pointsClouds[|old(pointsClouds)|..])
    {
      hide Spaced;
      match p.dataType {
        case CartesianHigh => ProcessSinglePoints(p);
        case CartesianLow => ProcessSinglePoints(p);
        case Spherical => ProcessSinglePoints(p);
        case DoubleEcho => ProcessDoubleEchoPoint(p);
        case Unknown =>
          assert Decoded(p) == [];
          DecodedIsSpaced(p);
      }
    }

    /** The append loop that the three single-echo formats share. */
    method ProcessSinglePoints(p: RawPacket)
      requires PacketOk(p) && p.dataType != Unknown && p.dataType != DoubleEcho
      modifies this
      ensures pointsClouds == old(pointsClouds) + Decoded(p)
      ensures Spaced(p, pointsClouds[|old(pointsClouds)|..])
    {
      hide Spaced;
      DecodedIsSpaced(p);
      var i := 0;
      while i < |p.raw|
        invariant 0 <= i <= |p.raw| && pointsClouds == old(pointsClouds) + DecodedTo(p, i)
      {
        var point := Point(p.raw[i].first, i % p.lineNum, (p.timeStamp + i * p.interval) % U64);
        pointsClouds := pointsClouds + [point];
        i := i + 1;
      }
    }

    method ProcessDoubleEchoPoint(p: RawPacket)
      requires PacketOk(p) && p.dataType == DoubleEcho
      modifies this
      ensures pointsClouds == old(pointsClouds) + Decoded(p)
      ensures Spaced(p, pointsClouds[|old(pointsClouds)|..])
    {
      hide Spaced;
      DecodedIsSpaced(p);
      var i := 0;
      while i < |p.raw|
        invariant 0 <= i <= |p.raw| && pointsClouds == old(pointsClouds) + DecodedTo(p, i)
      {
        var point1 := Point(p.raw[i].first, i % p.lineNum, (p.timeStamp + i * p.interval) % U64);
        var point2 := Point(p.raw[i].second, i % p.lineNum, (p.timeStamp + i * p.interval) % U64);
        pointsClouds := pointsClouds + [point1];
        pointsClouds := pointsClouds + [point2];
        i := i + 1;
      }
    }
  }

  // ---------------------------------------------------------------------------------------
  // Frames
  // ---------------------------------------------------------------------------------------

  /** One lidar's part of a `PointFrame`: `lidar_point[k]` and `base_time[k]`. */
  datatype Frame = Frame(handle: nat, packet: Packet)

  predicate FrameOk(f: Frame) {
    f.packet.points != [] && f.packet.baseTime == f.packet.points[0].offsetTime
  }

  /** The points of one lidar in a list of frames. */
  function PointsOf(frames: seq<Frame>, id: nat): seq<Point> {
    if frames == [] then []
    else
      var f := frames[|frames| - 1];
      PointsOf(frames[..|frames| - 1], id) + if f.handle == id then f.packet.points else []
  }

  lemma PointsOfSnoc(frames: seq<Frame>, f: Frame, id: nat)
    ensures PointsOf(frames + [f], id) == PointsOf(frames, id) + if f.handle == id then f.packet.points else []
  {
  }

  function FramesOf(baseTime: seq<nat>, lidarPoint: seq<(nat, seq<Point>)>): (frames: seq<Frame>)
    requires |baseTime| == |lidarPoint|
    ensures |frames| == |baseTime|
    ensures forall k | 0 <= k < |frames| :: frames[k] == Frame(lidarPoint[k].0, Packet(baseTime[k], lidarPoint[k].1))
  {
    seq(|baseTime|, k requires 0 <= k < |baseTime| => Frame(lidarPoint[k].0, Packet(baseTime[k], lidarPoint[k].1)))
  }

  /** The frame that a buffer becomes; none if it is empty. */
  function FrameFor(id: nat, points: seq<Point>): seq<Frame> {
    if points == [] then [] else [Frame(id, Packet(points[0].offsetTime, points))]
  }

  function BufferOf(buffers: map<nat, seq<Point>>, id: nat): seq<Point> {
    if id in buffers then buffers[id] else []
  }

  /** The frames that the buffers become, lidar by lidar. */
  function FramesFor(ids: seq<nat>, buffers: map<nat, seq<Point>>): seq<Frame> {
    if ids == [] then []
    else FramesFor(ids[..|ids| - 1], buffers) + FrameFor(ids[|ids| - 1], BufferOf(buffers, ids[|ids| - 1]))
  }

  /** A frame of a lidar has all its points and the time of the first. */
  predicate IsWhole(f: Frame, buffers: map<nat, seq<Point>>) {
    && f.handle in buffers && buffers[f.handle] != []
    && f.packet.points == buffers[f.handle] && f.packet.baseTime == buffers[f.handle][0].offsetTime
  }

  predicate HasFrame(frames: seq<Frame>, id: nat) {
    exists f <- frames :: f.handle == id
  }

  lemma {:induction false} FramesAreWhole(ids: seq<nat>, buffers: map<nat, seq<Point>>)
    ensures forall f <- FramesFor(ids, buffers) :: f.handle in ids && IsWhole(f, buffers)
    decreases |ids|
  {
    if ids != [] {
      FramesAreWhole(ids[..|ids| - 1], buffers);
    }
  }

  lemma {:induction false} PointsHaveFrame(ids: seq<nat>, buffers: map<nat, seq<Point>>, k: nat)
    requires k < |ids| && ids[k] in buffers && buffers[ids[k]] != []
    ensures HasFrame(FramesFor(ids, buffers), ids[k])
    decreases |ids|
  {
    var n := |ids| - 1;
    var init, last := FramesFor(ids[..n], buffers), FrameFor(ids[n], BufferOf(buffers, ids[n]));
    if k < n {
      PointsHaveFrame(ids[..n], buffers, k);
      var f :| f in init && f.handle == ids[k];
      assert f in init + last;
    } else {
      assert last[0] in init + last;
    }
  }

  predicate Ordered(frames: seq<Frame>) {
    forall i, j | 0 <= i < j < |frames| :: frames[i].handle < frames[j].handle
  }

  lemma {:induction false} FramesAreOrdered(ids: seq<nat>, buffers: map<nat, seq<Point>>)
    requires Increasing(ids)
    ensures Ordered(FramesFor(ids, buffers))
    decreases |ids|
  {
    if ids != [] {
      var n := |ids| - 1;
      FramesAreOrdered(ids[..n], buffers);
      FramesAreWhole(ids[..n], buffers);
      var init := FramesFor(ids[..n], buffers);
      forall f <- init
        ensures f.handle < ids[n]
      {
        assert f.handle in ids[..n];
      }
    }
  }

  /** Each lidar with points has one frame, in the order of the ids. */
  lemma OneFrameEach(ids: seq<nat>, buffers: map<nat, seq<Point>>)
    requires Increasing(ids)
    ensures forall f <- FramesFor(ids, buffers) :: f.handle in ids && IsWhole(f, buffers)
    ensures forall id <- ids | id in buffers && buffers[id] != [] :: HasFrame(FramesFor(ids, buffers), id)
    ensures Ordered(FramesFor(ids, buffers))
  {
    hide FramesFor, IsWhole, HasFrame, Ordered;
    FramesAreWhole(ids, buffers);
    FramesAreOrdered(ids, buffers);
    forall id <- ids | id in buffers && buffers[id] != []
      ensures HasFrame(FramesFor(ids, buffers), id)
    {
      var k :| 0 <= k < |ids| && ids[k] == id;
      PointsHaveFrame(ids, buffers, k);
    }
  }

  /**
   Conservation: for every lidar the points decoded are those of the frames, then those in its
   buffer, in order; and each frame's base time is its first point's.
   */
  ghost predicate Conserved(decoded: map<nat, seq<Point>>, frames: seq<Frame>, buffers: map<nat, seq<Point>>) {
    && decoded.Keys == buffers.Keys
    && (forall id | id in decoded :: decoded[id] == PointsOf(frames, id) + buffers[id])
    && (forall id | id !in decoded :: PointsOf(frames, id) == [])
    && forall f <- frames :: FrameOk(f)
  }

  lemma FrameConserves(decoded: map<nat, seq<Point>>, frames: seq<Frame>, buffers: map<nat, seq<Point>>, id: nat)
    requires Conserved(decoded, frames, buffers) && id in buffers
    ensures Conserved(decoded, frames + FrameFor(id, buffers[id]), buffers[id := []])
  {
    hide PointsOf;
    if buffers[id] == [] {
      assert buffers[id := []] == buffers && frames + [] == frames;
    } else {
      var f := FrameFor(id, buffers[id])[0];
      assert frames + FrameFor(id, buffers[id]) == frames + [f];
      forall a: nat
        ensures PointsOf(frames + [f], a) == PointsOf(frames, a) + if a == id then buffers[id] else []
      {
        PointsOfSnoc(frames, f, a);
      }
      assert PointsOf(frames + [f], id) + [] == PointsOf(frames, id) + buffers[id];
    }
  }

  predicate Increasing(ids: seq<nat>) {
    forall i, j | 0 <= i < j < |ids| :: ids[i] < ids[j]
  }

  function EmptyBuffers(buffers: map<nat, seq<Point>>, ids: seq<nat>): map<nat, seq<Point>> {
    map id | id in buffers :: if id in ids then [] else buffers[id]
  }

  /** Publishing lidar after lidar conserves the points of all. */
  lemma {:induction false} FramesConserve(decoded: map<nat, seq<Point>>, frames: seq<Frame>,
                                          buffers: map<nat, seq<Point>>, ids: seq<nat>)
    requires Conserved(decoded, frames, buffers) && Increasing(ids) && forall id <- ids :: id in buffers
    ensures Conserved(decoded, frames + FramesFor(ids, buffers), EmptyBuffers(buffers, ids))
    decreases |ids|
  {
    if ids == [] {
      assert EmptyBuffers(buffers, ids) == buffers && frames + [] == frames;
    } else {
      hide Conserved, EmptyBuffers;
      var n := |ids| - 1;
      assert ids[n] in ids && forall id <- ids[..n] :: id in ids;
      FramesConserve(decoded, frames, buffers, ids[..n]);
      FramesConserveStep(decoded, frames, buffers, ids);
    }
  }

  lemma FramesConserveStep(decoded: map<nat, seq<Point>>, frames: seq<Frame>,
                           buffers: map<nat, seq<Point>>, ids: seq<nat>)
    requires ids != [] && Increasing(ids) && ids[|ids| - 1] in buffers
    requires Conserved(decoded, frames + FramesFor(ids[..|ids| - 1], buffers), EmptyBuffers(buffers, ids[..|ids| - 1]))
    ensures Conserved(decoded, frames + FramesFor(ids, buffers), EmptyBuffers(buffers, ids))
  {
    hide Conserved, EmptyBuffers, FramesFor, Increasing, FrameFor;
    var id, done := ids[|ids| - 1], FramesFor(ids[..|ids| - 1], buffers);
    FramesForSnoc(ids, buffers);
    EmptySnoc(buffers, ids);
    FrameConserves(decoded, frames + done, EmptyBuffers(buffers, ids[..|ids| - 1]), id);
    assert frames + (done + FrameFor(id, buffers[id])) == (frames + done) + FrameFor(id, buffers[id]);
  }

  lemma FramesForSnoc(ids: seq<nat>, buffers: map<nat, seq<Point>>)
    requires ids != []
    ensures FramesFor(ids, buffers)
         == FramesFor(ids[..|ids| - 1], buffers) + FrameFor(ids[|ids| - 1], BufferOf(buffers, ids[|ids| - 1]))
  {
  }

  lemma EmptySnoc(buffers: map<nat, seq<Point>>, ids: seq<nat>)
    requires ids != [] && Increasing(ids) && ids[|ids| - 1] in buffers
    ensures ids[|ids| - 1] in EmptyBuffers(buffers, ids[..|ids| - 1])
    ensures EmptyBuffers(buffers, ids[..|ids| - 1])[ids[|ids| - 1]] == buffers[ids[|ids| - 1]]
    ensures EmptyBuffers(buffers, ids) == EmptyBuffers(buffers, ids[..|ids| - 1])[ids[|ids| - 1] := []]
  {
  }

  lemma DecodeConserves(decoded: map<nat, seq<Point>>, frames: seq<Frame>, buffers: map<nat, seq<Point>>,
                        id: nat, points: seq<Point>)
    requires Conserved(decoded, frames, buffers) && id in buffers
    ensures Conserved(decoded[id := decoded[id] + points], frames, buffers[id := buffers[id] + points])
  {
  }

  /** A packet's points join those of its lidar. */
  function WithPacket(decoded: map<nat, seq<Point>>, p: RawPacket): map<nat, seq<Point>>
    requires PacketOk(p)
  {
    decoded[p.handle := (if p.handle in decoded then decoded[p.handle] else []) + Decoded(p)]
  }

  lemma WithPacketOf(before: map<nat, seq<Point>>, after: map<nat, seq<Point>>, p: RawPacket)
    requires PacketOk(p) && p.handle in after
    requires if p.handle in before then after == before else after == before[p.handle := []]
    ensures WithPacket(before, p) == after[p.handle := after[p.handle] + Decoded(p)]
  {
  }

  lemma NewLidarConserves(decoded: map<nat, seq<Point>>, frames: seq<Frame>, buffers: map<nat, seq<Point>>, id: nat)
    requires Conserved(decoded, frames, buffers) && id !in buffers
    ensures Conserved(decoded[id := []], frames, buffers[id := []])
  {
  }

  ghost predicate InOrder(ids: seq<nat>, keys: set<nat>) {
    Increasing(ids) && forall id :: id in keys <==> id in ids
  }

  predicate PacketsOk(queue: seq<RawPacket>) {
    forall p <- queue :: PacketOk(p)
  }

  lemma PacketsOkRest(queue: seq<RawPacket>)
    requires PacketsOk(queue) && queue != []
    ensures PacketOk(queue[0]) && PacketsOk(queue[1..])
  {
  }

  lemma InsertInOrder(ids: seq<nat>, keys: set<nat>, id: nat)
    requires InOrder(ids, keys) && id !in keys
    ensures InOrder(Insert(ids, id), keys + {id}) && |Insert(ids, id)| == |ids| + 1
  {
    InsertKeeps(ids, id);
    forall a: nat
      ensures a in Insert(ids, id) <==> a in ids || a == id
    {
      InsertHas(ids, id, a);
    }
  }

  /** The keys of a map, in order. */
  function Insert(ids: seq<nat>, id: nat): seq<nat> {
    if ids == [] || id < ids[0] then [id] + ids
    else if id == ids[0] then ids
    else [ids[0]] + Insert(ids[1..], id)
  }

  lemma {:induction false} InsertHas(ids: seq<nat>, id: nat, a: nat)
    ensures a in Insert(ids, id) <==> a in ids || a == id
    decreases |ids|
  {
    if ids != [] && ids[0] < id {
      InsertHas(ids[1..], id, a);
      assert a in ids <==> a == ids[0] || a in ids[1..];
    }
  }

  lemma {:induction false} InsertKeeps(ids: seq<nat>, id: nat)
    requires Increasing(ids) && id !in ids
    ensures Increasing(Insert(ids, id)) && |Insert(ids, id)| == |ids| + 1
    decreases |ids|
  {
    if ids != [] && ids[0] < id {
      InsertKeeps(ids[1..], id);
      var rest := Insert(ids[1..], id);
      forall j | 0 <= j < |rest|
        ensures ids[0] < rest[j]
      {
        InsertHas(ids[1..], id, rest[j]);
      }
      hide Insert;
      ConsIncreasing(ids[0], rest);
    } else {
      hide Insert;
      ConsIncreasing(id, ids);
    }
  }

  lemma ConsIncreasing(first: nat, rest: seq<nat>)
    requires Increasing(rest) && (rest != [] ==> first < rest[0])
    ensures Increasing([first] + rest)
  {
  }

  /** When the synchronised timer fires: the newest point is on a tick, and a frame's worth has come. */
  predicate SyncDue(points: seq<Point>, intervalMs: nat, tolerance: nat)
    requires intervalMs > 0
  {
    && points != []
    && (var recent := points[|points| - 1].offsetTime;
        && (recent / NS_PER_MS) % intervalMs == 0 && recent / NS_PER_MS != 0
        && (recent - points[0].offsetTime) % U64 >= tolerance)
  }

  /**
   In terms of time: the newest point lies within the first millisecond of a whole multiple of the interval, and
   it was taken at least the tolerance after the oldest, on a clock of 64 bits.
   */
  lemma SyncDueMeans(points: seq<Point>, intervalMs: nat, tolerance: nat)
    requires intervalMs > 0 && points != []
    requires points[0].offsetTime < 0x1_0000_0000_0000_0000 && points[|points| - 1].offsetTime < 0x1_0000_0000_0000_0000
    ensures var oldest, newest := points[0].offsetTime, points[|points| - 1].offsetTime;
            SyncDue(points, intervalMs, tolerance)
            <==> && (exists k: nat :: k > 0 && k * intervalMs * 1_000_000 <= newest < k * intervalMs * 1_000_000 + 1_000_000)
                 && (if newest >= oldest then newest - oldest else newest + 0x1_0000_0000_0000_0000 - oldest) >= tolerance
  {
    var newest := points[|points| - 1].offsetTime;
    var ms := newest / NS_PER_MS;
    if ms % intervalMs == 0 && ms != 0 {
      var k := ms / intervalMs;
      assert ms == k * intervalMs;
      assert k > 0 && k * intervalMs * 1_000_000 <= newest < k * intervalMs * 1_000_000 + 1_000_000;
    }
    forall k: nat | k > 0 && k * intervalMs * 1_000_000 <= newest < k * intervalMs * 1_000_000 + 1_000_000
      ensures ms % intervalMs == 0 && ms != 0
    {
      assert ms == k * intervalMs;
      Bits.UniqueRemainder(ms, intervalMs, k, 0);
    }
  }

  /** `PointFrame`: room for 32 lidars, of which the first `lidarNum` are filled. */
  class PointFrame {
    const baseTime: array<nat>
    const lidarPoint: array<(nat, seq<Point>)>
    var lidarNum: nat

    ghost predicate Valid()
      reads this
    {
      baseTime.Length == MAX_SOURCE_LIDAR && lidarPoint.Length == MAX_SOURCE_LIDAR && lidarNum <= MAX_SOURCE_LIDAR
    }

    ghost function List(): seq<Frame>
      requires Valid()
      reads this, baseTime, lidarPoint
    {
      FramesOf(baseTime[..lidarNum], lidarPoint[..lidarNum])
    }

    constructor ()
      ensures Valid() && lidarNum == 0 && fresh(baseTime) && fresh(lidarPoint)
    {
      baseTime := new nat[MAX_SOURCE_LIDAR];
      lidarPoint := new (nat, seq<Point>)[MAX_SOURCE_LIDAR];
      lidarNum := 0;
    }

    method SetBaseTime(time: nat)
      requires Valid() && lidarNum < MAX_SOURCE_LIDAR
      modifies baseTime
      ensures Valid() && List() == old(List()) && baseTime[lidarNum] == time
    {
      baseTime[lidarNum] := time;
    }

    method Add(id: nat, points: seq<Point>)
      requires Valid() && lidarNum < MAX_SOURCE_LIDAR
      modifies `lidarNum, lidarPoint
      ensures Valid() && lidarNum == old(lidarNum) + 1
      ensures List() == old(List()) + [Frame(id, Packet(baseTime[old(lidarNum)], points))]
    {
      ghost var frames := List();
      lidarPoint[lidarNum] := (id, points);
      lidarNum := lidarNum + 1;
      assert List()[..|frames|] == frames;
    }

    method Clear()
      requires Valid()
      modifies `lidarNum
      ensures Valid() && lidarNum == 0 && List() == []
    {
      lidarNum := 0;
    }
  }

  /** `lidar_process_handlers_` holds each handler by its buffer. */
  class PubHandler {
    var rawPacketQueue: seq<RawPacket>
    var handlers: map<nat, seq<Point>>
    /** The keys of `handlers`, in the order of the map. */
    var ids: seq<nat>
    var points: map<nat, seq<Point>>
    const frame: PointFrame
    const publishInterval: nat
    const publishIntervalMs: nat
    const tolerance: nat
    var first: bool
    var lastPubTime: int
    /** All the frames given to the callback. */
    var published: seq<Frame>
    ghost var decoded: map<nat, seq<Point>>

    ghost predicate Shape()
      reads this, frame
    {
      && publishIntervalMs > 0 && frame.Valid()
      && InOrder(ids, handlers.Keys) && PacketsOk(rawPacketQueue)
    }

    ghost predicate Valid()
      reads this, frame
    {
      Shape() && frame.lidarNum == 0 && Conserved(decoded, published, handlers)
    }

    constructor (publishInterval: nat, tolerance: nat)
      requires publishInterval >= NS_PER_MS
      ensures Valid() && fresh(frame) && handlers == map[] && published == []
    {
      rawPacketQueue, handlers, ids, points := [], map[], [], map[];
      frame := new PointFrame();
      this.publishInterval, this.tolerance := publishInterval, tolerance;
      publishIntervalMs := publishInterval / NS_PER_MS;
      first, lastPubTime, published, decoded := true, 0, [], map[];
    }

    /**
     `OnLivoxLidarPointCloudCallback`: the packet joins the deque.  The time between its points is a
     division by their number; with no points it is a division by zero, and nothing is queued.
     */
    method OnPointCloud(handle: nat, device: Device, data: EthernetPacket, now: nat) returns (divides: bool)
      requires Valid()
      modifies `rawPacketQueue
      ensures Valid() && (divides <==> data.points != [])
      ensures rawPacketQueue == old(rawPacketQueue) + if divides then [Received(handle, device, data, now)] else []
    {
      if |data.points| == 0 {
        return false;
      }
      var lineNum := if device.IndustrialHap? then 6 else if device.Mid360? || device.Mid360s? then 4 else 1;
      var interval := data.timeInterval * 100 / |data.points|;
      var packet := RawPacket(handle, data.dataType, lineNum, TimeStamp(data, now), interval, data.points);
      assert packet == Received(handle, device, data, now);
      rawPacketQueue := rawPacketQueue + [packet];
      divides := true;
    }

    /** One lidar's buffer goes into the frame, if there is anything in it. */
    method FillFrame(id: nat)
      requires id in handlers && frame.Valid() && frame.lidarNum < MAX_SOURCE_LIDAR
      modifies `points, `handlers, frame, frame.baseTime, frame.lidarPoint
      ensures frame.Valid() && handlers == old(handlers)[id := []]
      ensures frame.lidarNum == old(frame.lidarNum) + if old(handlers)[id] == [] then 0 else 1
      ensures frame.List() == old(frame.List()) + FrameFor(id, old(handlers)[id])
    {
      var handler := new LidarPubHandler(handlers[id]);
      var base := handler.GetLidarBaseTime();
      frame.SetBaseTime(base);
      points := points[id := []];
      var taken := handler.GetLidarPointClouds(points[id]);
      points := points[id := taken];
      handlers := handlers[id := handler.pointsClouds];
      if |points[id]| != 0 {
        frame.Add(id, points[id]);
      }
    }

    method PublishPointCloud()
      requires frame.Valid()
      modifies `published
      ensures published == old(published) + frame.List()
    {
      var k := 0;
      while k < frame.lidarNum
        invariant 0 <= k <= frame.lidarNum && published == old(published) + frame.List()[..k]
      {
        published := published + [Frame(frame.lidarPoint[k].0, Packet(frame.baseTime[k], frame.lidarPoint[k].1))];
        k := k + 1;
      }
    }

    /** The synchronised branch of `CheckTimer`: this lidar alone, when its newest point is due. */
    method CheckSyncTimer(id: nat)
      requires publishIntervalMs > 0 && frame.Valid() && frame.lidarNum == 0 && id in handlers
      modifies `points, `handlers, `published, frame, frame.baseTime, frame.lidarPoint
      ensures frame.Valid() && frame.lidarNum == 0
      ensures SyncDue(old(handlers)[id], publishIntervalMs, tolerance) ==>
                published == old(published) + FrameFor(id, old(handlers)[id]) && handlers == old(handlers)[id := []]
      ensures !SyncDue(old(handlers)[id], publishIntervalMs, tolerance) ==>
                published == old(published) && handlers == old(handlers)
    {
      var handler := new LidarPubHandler(handlers[id]);
      var recent := handler.GetRecentTimeStamp();
      var recentMs := recent / NS_PER_MS;
      if recentMs % publishIntervalMs != 0 || recentMs == 0 {
        return;
      }
      var base := handler.GetLidarBaseTime();
      var diff := (recent - base) % U64;
      if diff < tolerance {
        return;
      }
      FillFrame(id);
      if frame.lidarNum != 0 {
        PublishPointCloud();
        frame.Clear();
      }
    }

    /** The other branch: every lidar, when the interval has passed. */
    method CheckFreeTimer(now: int)
      requires Shape() && frame.lidarNum == 0 && |ids| <= MAX_SOURCE_LIDAR
      modifies `points, `handlers, `published, `first, `lastPubTime, frame, frame.baseTime, frame.lidarPoint
      ensures frame.Valid() && frame.lidarNum == 0 && !first
      ensures !old(first) && now - old(lastPubTime) >= publishInterval ==>
                && (forall id | id in handlers :: handlers[id] == [])
                && published == old(published) + FramesFor(ids, old(handlers))
                && handlers == EmptyBuffers(old(handlers), ids)
                && lastPubTime == old(lastPubTime) + publishInterval
      ensures old(first) || now - old(lastPubTime) < publishInterval ==>
                published == old(published) && handlers == old(handlers)
      ensures old(first) ==> lastPubTime == now
      ensures !old(first) && now - old(lastPubTime) < publishInterval ==> lastPubTime == old(lastPubTime)
    {
      if first {
        lastPubTime := now;
        first := false;
        return;
      }
      if now - lastPubTime < publishInterval {
        return;
      }
      lastPubTime := lastPubTime + publishInterval;
      AllEmptied(ids, handlers);
      FillAll();
      PublishPointCloud();
      frame.Clear();
    }

    /** The loop over the lidars. */
    method FillAll()
      requires frame.Valid() && frame.lidarNum == 0 && |ids| <= MAX_SOURCE_LIDAR
      requires InOrder(ids, handlers.Keys)
      modifies `points, `handlers, frame, frame.baseTime, frame.lidarPoint
      ensures frame.Valid() && frame.List() == FramesFor(ids, old(handlers))
      ensures handlers == EmptyBuffers(old(handlers), ids)
    {
      ghost var buffers := handlers;
      var k := 0;
      hide EmptyBuffers, Increasing, FramesFor, InOrder;
      FillNone(ids, buffers);
      while k < |ids|
        invariant 0 <= k <= |ids| && frame.Valid() && frame.lidarNum <= k
        invariant frame.List() == FramesFor(ids[..k], buffers)
        invariant handlers == EmptyBuffers(buffers, ids[..k])
      {
        InOrderAt(ids, buffers, k);
        FillNext(k, buffers);
        k := k + 1;
      }
      assert ids[..k] == ids;
    }

    method FillNext(k: nat, ghost buffers: map<nat, seq<Point>>)
      requires k < |ids| <= MAX_SOURCE_LIDAR && Increasing(ids) && ids[k] in buffers
      requires frame.Valid() && frame.lidarNum <= k
      requires frame.List() == FramesFor(ids[..k], buffers) && handlers == EmptyBuffers(buffers, ids[..k])
      modifies `points, `handlers, frame, frame.baseTime, frame.lidarPoint
      ensures frame.Valid() && frame.lidarNum <= k + 1
      ensures frame.List() == FramesFor(ids[..k + 1], buffers) && handlers == EmptyBuffers(buffers, ids[..k + 1])
    {
      ghost var done := ids[..k + 1];
      assert done[..k] == ids[..k] && done[k] == ids[k] && Increasing(done);
      EmptySnoc(buffers, done);
      FramesForSnoc(done, buffers);
      hide EmptyBuffers, FramesFor, Increasing, FrameFor;
      FillFrame(ids[k]);
    }

    /** There are at most 32 lidars. */
    predicate WithinLidars()
      reads this
    {
      && |ids| <= MAX_SOURCE_LIDAR
      && (rawPacketQueue != [] && rawPacketQueue[0].handle !in handlers ==> |ids| < MAX_SOURCE_LIDAR)
    }

    /** A handler made on first use. */
    method AddHandler(id: nat)
      requires Valid() && id !in handlers
      modifies `handlers, `ids, `decoded
      ensures Valid() && decoded == old(decoded)[id := []] && |ids| == |old(ids)| + 1
      ensures handlers == old(handlers)[id := []]
    {
      InsertInOrder(ids, handlers.Keys, id);
      NewLidarConserves(decoded, published, handlers, id);
      hide Conserved, InOrder, Insert;
      assert handlers[id := []].Keys == handlers.Keys + {id};
      handlers := handlers[id := []];
      ids := Insert(ids, id);
      decoded := decoded[id := []];
    }

    /** The decoding half of a round: the oldest packet goes into its lidar's buffer. */
    method DecodePacket() returns (id: nat)
      requires Valid() && rawPacketQueue != [] && WithinLidars()
      modifies `rawPacketQueue, `handlers, `ids, `decoded
      ensures Valid() && id == old(rawPacketQueue)[0].handle && id in handlers && |ids| <= MAX_SOURCE_LIDAR
      ensures rawPacketQueue == old(rawPacketQueue)[1..]
      ensures decoded == WithPacket(old(decoded), old(rawPacketQueue)[0])
      ensures handlers == WithPacket(old(handlers), old(rawPacketQueue)[0])
    {
      ghost var before, buffers := decoded, handlers;
      var p := rawPacketQueue[0];
      PacketsOkRest(rawPacketQueue);
      rawPacketQueue := rawPacketQueue[1..];
      id := p.handle;
      hide Conserved, InOrder, PacketsOk, WithPacket, Decoded;
      if id !in handlers {
        AddHandler(id);
      }
      SameLidars(decoded, published, handlers);
      WithPacketOf(before, decoded, p);
      WithPacketOf(buffers, handlers, p);
      Append(id, p);
    }

    /** The packet's points go into the buffer of its lidar. */
    method Append(id: nat, p: RawPacket)
      requires Valid() && id in handlers && id in decoded && PacketOk(p)
      modifies `handlers, `decoded
      ensures Valid() && id in handlers && decoded == old(decoded)[id := old(decoded)[id] + Decoded(p)]
      ensures handlers == old(handlers)[id := old(handlers)[id] + Decoded(p)]
    {
      hide Conserved, Decoded, InOrder, PacketsOk;
      DecodeConserves(decoded, published, handlers, id, Decoded(p));
      var handler := new LidarPubHandler(handlers[id]);
      handler.PointCloudProcess(p);
      assert handlers[id := handler.pointsClouds].Keys == handlers.Keys;
      handlers := handlers[id := handler.pointsClouds];
      decoded := decoded[id := decoded[id] + Decoded(p)];
    }

    /** `CheckTimer` publishes the lidars that are `due`.  Whatever they are, nothing is lost. */
    method CheckTimer(id: nat, sync: bool, now: int) returns (ghost due: seq<nat>)
      requires Valid() && id in handlers && |ids| <= MAX_SOURCE_LIDAR
      modifies `points, `handlers, `published, `first, `lastPubTime, frame, frame.baseTime, frame.lidarPoint
      ensures Valid() && DueIn(due, old(handlers))
      ensures sync ==> due == if SyncDue(old(handlers)[id], publishIntervalMs, tolerance) then [id] else []
      ensures !sync ==> due == if !old(first) && now - old(lastPubTime) >= publishInterval then ids else []
      ensures published == old(published) + FramesFor(due, old(handlers)) && handlers == EmptyBuffers(old(handlers), due)
    {
      if sync {
        due := ConserveSync(id);
      } else {
        due := ConserveFree(now);
      }
    }

    method ConserveSync(id: nat) returns (ghost due: seq<nat>)
      requires Valid() && id in handlers
      modifies `points, `handlers, `published, frame, frame.baseTime, frame.lidarPoint
      ensures Valid() && DueIn(due, old(handlers))
      ensures due == if SyncDue(old(handlers)[id], publishIntervalMs, tolerance) then [id] else []
      ensures published == old(published) + FramesFor(due, old(handlers)) && handlers == EmptyBuffers(old(handlers), due)
    {
      hide Conserved, InOrder, PacketsOk, SyncDue, FrameFor, FramesFor, EmptyBuffers, DueIn;
      ghost var buffers := handlers;
      FrameConserves(decoded, published, handlers, id);
      PublishNone(published, handlers);
      PublishOne(handlers, id);
      due := if SyncDue(handlers[id], publishIntervalMs, tolerance) then [id] else [];
      CheckSyncTimer(id);
      assert handlers.Keys == buffers.Keys;
    }

    method ConserveFree(now: int) returns (ghost due: seq<nat>)
      requires Valid() && |ids| <= MAX_SOURCE_LIDAR
      modifies `points, `handlers, `published, `first, `lastPubTime, frame, frame.baseTime, frame.lidarPoint
      ensures Valid() && DueIn(due, old(handlers)) && due == if !old(first) && now - old(lastPubTime) >= publishInterval then ids else []
      ensures published == old(published) + FramesFor(due, old(handlers)) && handlers == EmptyBuffers(old(handlers), due)
    {
      hide Conserved, InOrder, EmptyBuffers, FramesFor;
      OrderedKeys(ids, handlers);
      FramesConserve(decoded, published, handlers, ids);
      KeysOfEmpty(handlers, ids);
      PublishNone(published, handlers);
      due := if !first && now - lastPubTime >= publishInterval then ids else [];
      CheckFreeTimer(now);
    }

    /**
     One round of `RawDataProcess`, with time synchronisation on or off.  What `Valid` says of
     conservation holds after every round.
     */
    method ProcessPacket(sync: bool, now: int) returns (done: bool, ghost due: seq<nat>)
      requires Valid() && WithinLidars()
      modifies this, frame, frame.baseTime, frame.lidarPoint
      ensures Valid() && done == (old(rawPacketQueue) != [])
      ensures !done ==> decoded == old(decoded) && published == old(published) && handlers == old(handlers)
      ensures done ==>
                var p := old(rawPacketQueue)[0];
                var buffers := WithPacket(old(handlers), p);
                && rawPacketQueue == old(rawPacketQueue)[1..] && decoded == WithPacket(old(decoded), p)
                && DueIn(due, buffers)
                && (sync ==> due == if SyncDue(buffers[p.handle], publishIntervalMs, tolerance) then [p.handle] else [])
                && (!sync ==> due == if !old(first) && now - old(lastPubTime) >= publishInterval then ids else [])
                && published == old(published) + FramesFor(due, buffers) && handlers == EmptyBuffers(buffers, due)
    {
      hide Conserved, InOrder, PacketsOk, WithPacket, Decoded, FramesFor, EmptyBuffers, DueIn, SyncDue;
      if |rawPacketQueue| == 0 {
        return false, [];
      }
      var id := DecodePacket();
      due := CheckTimer(id, sync, now);
      done := true;
    }
  }

  /** Lidars published in one go: each at most once, and of those there are. */
  predicate DueIn(due: seq<nat>, buffers: map<nat, seq<Point>>) {
    Increasing(due) && forall id <- due :: id in buffers
  }

  lemma PublishNone(frames: seq<Frame>, buffers: map<nat, seq<Point>>)
    ensures frames + FramesFor([], buffers) == frames && EmptyBuffers(buffers, []) == buffers && DueIn([], buffers)
  {
  }

  lemma PublishOne(buffers: map<nat, seq<Point>>, id: nat)
    requires id in buffers
    ensures FramesFor([id], buffers) == FrameFor(id, buffers[id]) && EmptyBuffers(buffers, [id]) == buffers[id := []]
    ensures DueIn([id], buffers)
  {
    assert [id][..0] == [];
  }

  /** The timer over all lidars leaves no point behind. */
  lemma AllEmptied(ids: seq<nat>, buffers: map<nat, seq<Point>>)
    requires InOrder(ids, buffers.Keys)
    ensures forall id | id in EmptyBuffers(buffers, ids) :: EmptyBuffers(buffers, ids)[id] == []
  {
  }

  lemma FillNone(ids: seq<nat>, buffers: map<nat, seq<Point>>)
    ensures EmptyBuffers(buffers, ids[..0]) == buffers && FramesFor(ids[..0], buffers) == []
  {
  }

  lemma InOrderAt(ids: seq<nat>, buffers: map<nat, seq<Point>>, k: nat)
    requires InOrder(ids, buffers.Keys) && k < |ids|
    ensures Increasing(ids) && ids[k] in buffers
  {
  }

  lemma KeysOfEmpty(buffers: map<nat, seq<Point>>, ids: seq<nat>)
    ensures EmptyBuffers(buffers, ids).Keys == buffers.Keys
  {
  }

  lemma OrderedKeys(ids: seq<nat>, handlers: map<nat, seq<Point>>)
    requires InOrder(ids, handlers.Keys)
    ensures Increasing(ids) && forall id <- ids :: id in handlers
  {
  }

  lemma SameLidars(decoded: map<nat, seq<Point>>, frames: seq<Frame>, buffers: map<nat, seq<Point>>)
    requires Conserved(decoded, frames, buffers)
    ensures decoded.Keys == buffers.Keys
  {
  }
}
