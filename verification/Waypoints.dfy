/**
 waypoint_manager_module.hpp: waypoints are tagged by name at the robot's current odometry pose,
 tied to the submap whose frames cover the moment of the tag, and looked up through that submap's
 current place in the map.  Poses are elements of a group given as a parameter.
 */
module Waypoints {
  import opened Bytes

  datatype Group<!P> = Group(compose: (P, P) -> P, inverse: P -> P, identity: P)

  ghost predicate IsGroup<P(!new)>(g: Group<P>) {
    && (forall a, b, c :: g.compose(g.compose(a, b), c) == g.compose(a, g.compose(b, c)))
    && (forall a :: g.compose(g.identity, a) == a && g.compose(a, g.identity) == a)
    && (forall a :: g.compose(a, g.inverse(a)) == g.identity && g.compose(g.inverse(a), a) == g.identity)
  }

  /** `SubmapReference`: a finished submap, the stamps of its frames and the odometry pose of its origin. */
  datatype Submap<P> = Submap(id: int, firstStamp: real, lastStamp: real, origin: P) {
    predicate Covers(stamp: real) {
      firstStamp <= stamp <= lastStamp
    }
  }

  /** `WaypointEntry`: the pose in the frame of its submap. */
  datatype Waypoint<P> = Waypoint(name: string, submapId: int, local: P)

  datatype Pending<P> = Pending(name: string, stamp: real, pose: P)

  datatype Frame<P> = Frame(stamp: real, pose: P)

  datatype State<P> = State(latest: Option<Frame<P>>, world: map<int, P>, submaps: seq<Submap<P>>,
                            waypoints: seq<Waypoint<P>>, pending: seq<Pending<P>>)

  datatype Event<P> =
    | NewFrame(frame: Frame<P>)
    | NewSubmap(submap: Submap<P>)
    | InsertSubmap(id: int, worldPose: P)
    | UpdateSubmaps(poses: seq<(int, P)>)
    | AddWaypoint(name: string)

  // ---------------------------------------------------------------------------------------
  // What each callback does
  // ---------------------------------------------------------------------------------------

  /** `find_submap_for_stamp_locked`: the newest submap that covers the stamp. */
  function Find<P>(submaps: seq<Submap<P>>, stamp: real): (r: Option<Submap<P>>)
    ensures r.Some? ==> r.value in submaps && r.value.Covers(stamp)
    ensures r.None? ==> forall s <- submaps :: !s.Covers(stamp)
  {
    if submaps == [] then None
    else
      var last := submaps[|submaps| - 1];
      if last.Covers(stamp) then Some(last) else Find(submaps[..|submaps| - 1], stamp)
  }

  function WithoutWaypoint<P>(waypoints: seq<Waypoint<P>>, name: string): seq<Waypoint<P>> {
    if waypoints == [] then []
    else
      var w := waypoints[|waypoints| - 1];
      WithoutWaypoint(waypoints[..|waypoints| - 1], name) + if w.name == name then [] else [w]
  }

  function WithoutPending<P>(pending: seq<Pending<P>>, name: string): seq<Pending<P>> {
    if pending == [] then []
    else
      var p := pending[|pending| - 1];
      WithoutPending(pending[..|pending| - 1], name) + if p.name == name then [] else [p]
  }

  /** `add_waypoint_locked`. */
  function Entry<P>(g: Group<P>, name: string, pose: P, submap: Submap<P>): Waypoint<P> {
    Waypoint(name, submap.id, g.compose(g.inverse(submap.origin), pose))
  }

  /** The waypoints that pending ones become now that their submap is known. */
  function Bound<P>(g: Group<P>, submaps: seq<Submap<P>>, pending: seq<Pending<P>>): seq<Waypoint<P>> {
    if pending == [] then []
    else
      var p := pending[|pending| - 1];
      Bound(g, submaps, pending[..|pending| - 1])
      + match Find(submaps, p.stamp) case None => [] case Some(s) => [Entry(g, p.name, p.pose, s)]
  }

  function StillPending<P>(submaps: seq<Submap<P>>, pending: seq<Pending<P>>): seq<Pending<P>> {
    if pending == [] then []
    else
      var p := pending[|pending| - 1];
      StillPending(submaps, pending[..|pending| - 1]) + if Find(submaps, p.stamp).None? then [p] else []
  }

  function WithPoses<P>(world: map<int, P>, poses: seq<(int, P)>): map<int, P> {
    if poses == [] then world
    else WithPoses(world, poses[..|poses| - 1])[poses[|poses| - 1].0 := poses[|poses| - 1].1]
  }

  function Add<P>(g: Group<P>, s: State<P>, name: string): State<P> {
    if s.latest.None? || name == "" then s
    else
      var f := s.latest.value;
      var waypoints, pending := WithoutWaypoint(s.waypoints, name), WithoutPending(s.pending, name);
      match Find(s.submaps, f.stamp)
      case Some(submap) => s.(waypoints := waypoints + [Entry(g, name, f.pose, submap)], pending := pending)
      case None => s.(waypoints := waypoints, pending := pending + [Pending(name, f.stamp, f.pose)])
  }

  function Next<P>(g: Group<P>, s: State<P>, e: Event<P>): State<P> {
    match e
    case NewFrame(f) => s.(latest := Some(f))
    case NewSubmap(submap) =>
      var submaps := s.submaps + [submap];
      s.(submaps := submaps, waypoints := s.waypoints + Bound(g, submaps, s.pending),
         pending := StillPending(submaps, s.pending))
    case InsertSubmap(id, pose) => s.(world := s.world[id := pose])
    case UpdateSubmaps(poses) => s.(world := WithPoses(s.world, poses))
    case AddWaypoint(name) => Add(g, s, name)
  }

  /** `get_waypoint_cb`: the pose answered, if the waypoint is found. */
  function Get<P>(g: Group<P>, s: State<P>, name: string): Option<P> {
    match IndexOf(s.waypoints, name, 0)
    case None => None
    case Some(i) =>
      var w := s.waypoints[i];
      if w.submapId in s.world then Some(g.compose(s.world[w.submapId], w.local)) else None
  }

  function IndexOf<P>(waypoints: seq<Waypoint<P>>, name: string, k: nat): (r: Option<nat>)
    requires k <= |waypoints|
    ensures r.Some? ==> k <= r.value < |waypoints| && waypoints[r.value].name == name
    ensures r.None? ==> forall i | k <= i < |waypoints| :: waypoints[i].name != name
    decreases |waypoints| - k
  {
    if k == |waypoints| then None
    else if waypoints[k].name == name then Some(k)
    else IndexOf(waypoints, name, k + 1)
  }

  // ---------------------------------------------------------------------------------------
  // The invariant
  // ---------------------------------------------------------------------------------------

  /** A tag: where the robot was, and how many submaps were known then. */
  datatype Tag<P> = Tag(frame: Frame<P>, known: nat)

  /** The last tag of every name. */
  type Tags<P> = map<string, Tag<P>>

  function TagsAfter<P>(s: State<P>, tags: Tags<P>, e: Event<P>): Tags<P> {
    if e.AddWaypoint? && s.latest.Some? && e.name != "" then tags[e.name := Tag(s.latest.value, |s.submaps|)] else tags
  }

  /** The oldest submap from `from` on that covers the stamp. */
  function First<P>(submaps: seq<Submap<P>>, from: nat, stamp: real): (r: Option<Submap<P>>)
    ensures r.Some? ==> r.value in submaps && r.value.Covers(stamp)
    ensures r.None? ==> forall i | from <= i < |submaps| :: !submaps[i].Covers(stamp)
    decreases |submaps| - from
  {
    if from >= |submaps| then None
    else if submaps[from].Covers(stamp) then Some(submaps[from])
    else First(submaps, from + 1, stamp)
  }

  /** The submap of a tag: the newest that covered it when it was made, or else the first to come that does. */
  function Chosen<P>(submaps: seq<Submap<P>>, tag: Tag<P>): Option<Submap<P>>
    requires tag.known <= |submaps|
  {
    match Find(submaps[..tag.known], tag.frame.stamp)
    case Some(m) => Some(m)
    case None => First(submaps, tag.known, tag.frame.stamp)
  }

  /** How often a name is bound, and how often it is pending. */
  function TimesBound<P>(waypoints: seq<Waypoint<P>>, name: string): nat {
    if waypoints == [] then 0
    else TimesBound(waypoints[..|waypoints| - 1], name) + if waypoints[|waypoints| - 1].name == name then 1 else 0
  }

  function TimesPending<P>(pending: seq<Pending<P>>, name: string): nat {
    if pending == [] then 0
    else TimesPending(pending[..|pending| - 1], name) + if pending[|pending| - 1].name == name then 1 else 0
  }

  /** A bound waypoint holds its last tag relative to the submap of that tag. */
  predicate BoundOk<P(==)>(g: Group<P>, submaps: seq<Submap<P>>, tags: Tags<P>, w: Waypoint<P>) {
    && w.name in tags && tags[w.name].known <= |submaps| && Chosen(submaps, tags[w.name]).Some?
    && w == Entry(g, w.name, tags[w.name].frame.pose, Chosen(submaps, tags[w.name]).value)
  }

  /** A pending one holds its last tag as it is, which has no submap yet. */
  predicate PendingOk<P(==)>(submaps: seq<Submap<P>>, tags: Tags<P>, p: Pending<P>) {
    && p.name in tags && tags[p.name].frame == Frame(p.stamp, p.pose)
    && tags[p.name].known <= |submaps| && Chosen(submaps, tags[p.name]).None?
  }

  ghost predicate Invariant<P(!new)>(g: Group<P>, s: State<P>, tags: Tags<P>) {
    && (forall name :: TimesBound(s.waypoints, name) + TimesPending(s.pending, name) == if name in tags then 1 else 0)
    && (forall w <- s.waypoints :: BoundOk(g, s.submaps, tags, w))
    && (forall p <- s.pending :: PendingOk(s.submaps, tags, p))
  }

  // ---------------------------------------------------------------------------------------
  // The submap of a tag
  // ---------------------------------------------------------------------------------------

  lemma FindLast<P>(submaps: seq<Submap<P>>, m: Submap<P>, stamp: real)
    ensures Find(submaps + [m], stamp) == if m.Covers(stamp) then Some(m) else Find(submaps, stamp)
  {
    assert (submaps + [m])[..|submaps|] == submaps;
  }

  lemma {:induction false} FirstLast<P>(submaps: seq<Submap<P>>, from: nat, m: Submap<P>, stamp: real)
    requires from <= |submaps|
    ensures First(submaps + [m], from, stamp)
         == if First(submaps, from, stamp).None? && m.Covers(stamp) then Some(m) else First(submaps, from, stamp)
    decreases |submaps| - from
  {
    if from < |submaps| && !submaps[from].Covers(stamp) {
      FirstLast(submaps, from + 1, m, stamp);
    }
  }

  /** Once chosen the submap stays, and until then the next one to cover the tag is it. */
  lemma ChosenNext<P>(submaps: seq<Submap<P>>, m: Submap<P>, tag: Tag<P>)
    requires tag.known <= |submaps|
    ensures Chosen(submaps + [m], tag)
         == if Chosen(submaps, tag).None? && m.Covers(tag.frame.stamp) then Some(m) else Chosen(submaps, tag)
  {
    assert (submaps + [m])[..tag.known] == submaps[..tag.known];
    FirstLast(submaps, tag.known, m, tag.frame.stamp);
  }

  lemma NothingChosen<P>(submaps: seq<Submap<P>>, tag: Tag<P>)
    requires tag.known <= |submaps|
    ensures Chosen(submaps, tag).None? <==> forall m <- submaps :: !m.Covers(tag.frame.stamp)
  {
    if Chosen(submaps, tag).None? {
      forall m | m in submaps
        ensures !m.Covers(tag.frame.stamp)
      {
        var i :| 0 <= i < |submaps| && submaps[i] == m;
        assert i < tag.known ==> submaps[..tag.known][i] == m;
      }
    } else if Find(submaps[..tag.known], tag.frame.stamp).Some? {
      assert Find(submaps[..tag.known], tag.frame.stamp).value in submaps;
    }
  }

  /** What a pending waypoint finds when a submap comes is the submap of its tag. */
  lemma FindsChosen<P>(submaps: seq<Submap<P>>, m: Submap<P>, tag: Tag<P>)
    requires tag.known <= |submaps| && Chosen(submaps, tag).None?
    ensures Find(submaps + [m], tag.frame.stamp) == Chosen(submaps + [m], tag)
  {
    NothingChosen(submaps, tag);
    ChosenNext(submaps, m, tag);
    FindLast(submaps, m, tag.frame.stamp);
  }

  /** What a new waypoint finds is the submap of its tag. */
  lemma FindsAtTag<P>(submaps: seq<Submap<P>>, frame: Frame<P>)
    ensures Find(submaps, frame.stamp) == Chosen(submaps, Tag(frame, |submaps|))
  {
    assert submaps[..|submaps|] == submaps;
  }

  // ---------------------------------------------------------------------------------------
  // Every event keeps it
  // ---------------------------------------------------------------------------------------

  lemma {:induction false} BoundOf<P(!new)>(waypoints: seq<Waypoint<P>>, more: seq<Waypoint<P>>, name: string)
    ensures TimesBound(waypoints + more, name) == TimesBound(waypoints, name) + TimesBound(more, name)
    decreases |more|
  {
    if more == [] {
      assert waypoints + more == waypoints;
    } else {
      var n := |more| - 1;
      assert (waypoints + more)[..|waypoints + more| - 1] == waypoints + more[..n];
      BoundOf(waypoints, more[..n], name);
    }
  }

  lemma PendingOf<P(!new)>(pending: seq<Pending<P>>, p: Pending<P>, name: string)
    ensures TimesPending(pending + [p], name) == TimesPending(pending, name) + if p.name == name then 1 else 0
  {
    assert (pending + [p])[..|pending|] == pending;
  }

  lemma BoundOne<P(!new)>(waypoints: seq<Waypoint<P>>, w: Waypoint<P>, name: string)
    ensures TimesBound(waypoints + [w], name) == TimesBound(waypoints, name) + if w.name == name then 1 else 0
  {
    assert (waypoints + [w])[..|waypoints|] == waypoints;
  }

  lemma {:induction false} ErasedWaypoint<P(!new)>(waypoints: seq<Waypoint<P>>, name: string, other: string)
    ensures TimesBound(WithoutWaypoint(waypoints, name), other) == if other == name then 0 else TimesBound(waypoints, other)
    ensures forall w <- WithoutWaypoint(waypoints, name) :: w in waypoints && w.name != name
    decreases |waypoints|
  {
    if waypoints != [] {
      var n := |waypoints| - 1;
      ErasedWaypoint(waypoints[..n], name, other);
      BoundOf(WithoutWaypoint(waypoints[..n], name), if waypoints[n].name == name then [] else [waypoints[n]], other);
      BoundOne([], waypoints[n], other);
      assert [] + [waypoints[n]] == [waypoints[n]];
    }
  }

  lemma {:induction false} ErasedPending<P(!new)>(pending: seq<Pending<P>>, name: string, other: string)
    ensures TimesPending(WithoutPending(pending, name), other) == if other == name then 0 else TimesPending(pending, other)
    ensures forall p <- WithoutPending(pending, name) :: p in pending && p.name != name
    decreases |pending|
  {
    if pending != [] {
      var n := |pending| - 1;
      ErasedPending(pending[..n], name, other);
      if pending[n].name == name {
        assert WithoutPending(pending, name) == WithoutPending(pending[..n], name);
      } else {
        assert WithoutPending(pending, name) == WithoutPending(pending[..n], name) + [pending[n]];
        PendingOf(WithoutPending(pending[..n], name), pending[n], other);
      }
    }
  }

  /** Binding moves a name, never copies or drops it. */
  lemma {:induction false} BindingCounts<P(!new)>(g: Group<P>, submaps: seq<Submap<P>>, pending: seq<Pending<P>>, name: string)
    ensures TimesBound(Bound(g, submaps, pending), name) + TimesPending(StillPending(submaps, pending), name)
         == TimesPending(pending, name)
    decreases |pending|
  {
    hide Find;
    if pending != [] {
      var n := |pending| - 1;
      var p, done, left := pending[n], Bound(g, submaps, pending[..n]), StillPending(submaps, pending[..n]);
      BindingCounts(g, submaps, pending[..n], name);
      match Find(submaps, p.stamp) {
        case None =>
          PendingOf(left, p, name);
          assert done + [] == done;
        case Some(s) =>
          BoundOne(done, Entry(g, p.name, p.pose, s), name);
          assert left + [] == left;
      }
    }
  }

  lemma {:induction false} BoundFromPending<P(!new)>(g: Group<P>, known: seq<Submap<P>>, m: Submap<P>,
                                                     pending: seq<Pending<P>>, tags: Tags<P>)
    requires forall p <- pending :: PendingOk(known, tags, p)
    ensures forall w <- Bound(g, known + [m], pending) :: BoundOk(g, known + [m], tags, w)
    ensures forall p <- StillPending(known + [m], pending) :: PendingOk(known + [m], tags, p)
    decreases |pending|
  {
    hide Find, Chosen;
    if pending != [] {
      var n := |pending| - 1;
      var p := pending[n];
      assert p in pending && forall q <- pending[..n] :: q in pending;
      BoundFromPending(g, known, m, pending[..n], tags);
      FindsChosen(known, m, tags[p.name]);
      match Find(known + [m], p.stamp) {
        case None =>
        case Some(s) => assert BoundOk(g, known + [m], tags, Entry(g, p.name, p.pose, s));
      }
    }
  }

  lemma StaysBound<P(!new)>(g: Group<P>, known: seq<Submap<P>>, m: Submap<P>, tags: Tags<P>, w: Waypoint<P>)
    requires BoundOk(g, known, tags, w)
    ensures BoundOk(g, known + [m], tags, w)
  {
    hide Chosen, Entry;
    ChosenNext(known, m, tags[w.name]);
  }

  lemma NewSubmapKeeps<P(!new)>(g: Group<P>, s: State<P>, tags: Tags<P>, submap: Submap<P>)
    requires Invariant(g, s, tags)
    ensures Invariant(g, Next(g, s, NewSubmap(submap)), tags)
  {
    hide Bound, StillPending, TimesBound, TimesPending, BoundOk, PendingOk;
    var t := Next(g, s, NewSubmap(submap));
    forall name
      ensures TimesBound(t.waypoints, name) + TimesPending(t.pending, name) == if name in tags then 1 else 0
    {
      BoundOf(s.waypoints, Bound(g, t.submaps, s.pending), name);
      BindingCounts(g, t.submaps, s.pending, name);
    }
    BoundFromPending(g, s.submaps, submap, s.pending, tags);
    forall w | w in s.waypoints
      ensures BoundOk(g, t.submaps, tags, w)
    {
      StaysBound(g, s.submaps, submap, tags, w);
    }
  }

  lemma AddKeeps<P(!new)>(g: Group<P>, s: State<P>, tags: Tags<P>, name: string)
    requires Invariant(g, s, tags)
    ensures Invariant(g, Add(g, s, name), TagsAfter(s, tags, AddWaypoint(name)))
  {
    if s.latest.Some? && name != "" {
      var t, after := Add(g, s, name), TagsAfter(s, tags, AddWaypoint(name));
      AddBound(g, s, tags, name);
      AddPending(g, s, tags, name);
      hide BoundOk, PendingOk, TimesBound, TimesPending, Entry, WithoutWaypoint, WithoutPending;
      forall other
        ensures TimesBound(t.waypoints, other) + TimesPending(t.pending, other) == if other in after then 1 else 0
      {
        ErasedWaypoint(s.waypoints, name, other);
        ErasedPending(s.pending, name, other);
        AddCounts(g, s, name, other);
      }
    }
  }

  lemma AddBound<P(!new)>(g: Group<P>, s: State<P>, tags: Tags<P>, name: string)
    requires s.latest.Some? && name != "" && forall w <- s.waypoints :: BoundOk(g, s.submaps, tags, w)
    ensures forall w <- Add(g, s, name).waypoints :: BoundOk(g, s.submaps, TagsAfter(s, tags, AddWaypoint(name)), w)
  {
    var f, after, waypoints := s.latest.value, TagsAfter(s, tags, AddWaypoint(name)), WithoutWaypoint(s.waypoints, name);
    ErasedWaypoint(s.waypoints, name, name);
    FindsAtTag(s.submaps, f);
    hide WithoutWaypoint, WithoutPending, Find, Chosen, Entry;
    forall w | w in waypoints
      ensures BoundOk(g, s.submaps, after, w)
    {
      assert BoundOk(g, s.submaps, tags, w);
    }
    match Find(s.submaps, f.stamp) {
      case Some(m) => assert BoundOk(g, s.submaps, after, Entry(g, name, f.pose, m));
      case None =>
    }
  }

  lemma AddPending<P(!new)>(g: Group<P>, s: State<P>, tags: Tags<P>, name: string)
    requires s.latest.Some? && name != "" && forall p <- s.pending :: PendingOk(s.submaps, tags, p)
    ensures forall p <- Add(g, s, name).pending :: PendingOk(s.submaps, TagsAfter(s, tags, AddWaypoint(name)), p)
  {
    var f, after, pending := s.latest.value, TagsAfter(s, tags, AddWaypoint(name)), WithoutPending(s.pending, name);
    ErasedPending(s.pending, name, name);
    FindsAtTag(s.submaps, f);
    hide WithoutWaypoint, WithoutPending, Find, Chosen, Entry;
    forall p | p in pending
      ensures PendingOk(s.submaps, after, p)
    {
      assert PendingOk(s.submaps, tags, p);
    }
    match Find(s.submaps, f.stamp) {
      case Some(m) =>
      case None => assert PendingOk(s.submaps, after, Pending(name, f.stamp, f.pose));
    }
  }

  lemma AddCounts<P(!new)>(g: Group<P>, s: State<P>, name: string, other: string)
    requires s.latest.Some? && name != ""
    ensures TimesBound(Add(g, s, name).waypoints, other) + TimesPending(Add(g, s, name).pending, other)
         == TimesBound(WithoutWaypoint(s.waypoints, name), other) + TimesPending(WithoutPending(s.pending, name), other)
            + if other == name then 1 else 0
  {
    var f := s.latest.value;
    match Find(s.submaps, f.stamp) {
      case Some(m) => BoundOne(WithoutWaypoint(s.waypoints, name), Entry(g, name, f.pose, m), other);
      case None => PendingOf(WithoutPending(s.pending, name), Pending(name, f.stamp, f.pose), other);
    }
  }

  lemma EventKeepsInvariant<P(!new)>(g: Group<P>, s: State<P>, tags: Tags<P>, e: Event<P>)
    requires Invariant(g, s, tags)
    ensures Invariant(g, Next(g, s, e), TagsAfter(s, tags, e))
  {
    if e.NewSubmap? {
      NewSubmapKeeps(g, s, tags, e.submap);
    } else if e.AddWaypoint? {
      AddKeeps(g, s, tags, e.name);
    }
  }

  // ---------------------------------------------------------------------------------------
  // Main results: every run
  // ---------------------------------------------------------------------------------------

  function Initial<P>(): State<P> {
    State(None, map[], [], [], [])
  }

  function After<P>(g: Group<P>, s: State<P>, events: seq<Event<P>>): State<P>
    decreases |events|
  {
    if events == [] then s else After(g, Next(g, s, events[0]), events[1..])
  }

  /** The last tag of every name in a run. */
  function LastTags<P>(g: Group<P>, s: State<P>, tags: Tags<P>, events: seq<Event<P>>): Tags<P>
    decreases |events|
  {
    if events == [] then tags else LastTags(g, Next(g, s, events[0]), TagsAfter(s, tags, events[0]), events[1..])
  }

  lemma {:induction false} RunKeepsInvariant<P(!new)>(g: Group<P>, s: State<P>, tags: Tags<P>, events: seq<Event<P>>)
    requires Invariant(g, s, tags)
    ensures Invariant(g, After(g, s, events), LastTags(g, s, tags, events))
    decreases |events|
  {
    if events != [] {
      EventKeepsInvariant(g, s, tags, events[0]);
      hide Invariant, Next, TagsAfter;
      RunKeepsInvariant(g, Next(g, s, events[0]), TagsAfter(s, tags, events[0]), events[1..]);
    }
  }

  ghost predicate Reached<P(!new)>(g: Group<P>, events: seq<Event<P>>, s: State<P>, tags: Tags<P>) {
    s == After(g, Initial(), events) && tags == LastTags(g, Initial(), map[], events)
  }

  lemma ReachedInvariant<P(!new)>(g: Group<P>, events: seq<Event<P>>, s: State<P>, tags: Tags<P>)
    requires Reached(g, events, s, tags)
    ensures Invariant(g, s, tags)
  {
    var none: Tags<P> := map[];
    assert Invariant(g, Initial(), none);
    RunKeepsInvariant(g, Initial(), none, events);
  }

  /** The names tagged are each bound or pending, and exactly once; no known submap covers a pending stamp. */
  lemma NamesAreUnique<P(!new)>(g: Group<P>, events: seq<Event<P>>, s: State<P>, tags: Tags<P>)
    requires Reached(g, events, s, tags)
    ensures forall name :: TimesBound(s.waypoints, name) + TimesPending(s.pending, name) == if name in tags then 1 else 0
    ensures forall p, m | p in s.pending && m in s.submaps :: !m.Covers(p.stamp)
  {
    ReachedInvariant(g, events, s, tags);
    hide Chosen, TimesBound, TimesPending;
    forall p, m | p in s.pending && m in s.submaps
      ensures !m.Covers(p.stamp)
    {
      assert PendingOk(s.submaps, tags, p);
      NothingChosen(s.submaps, tags[p.name]);
    }
  }

  /** Where a tag is in the map, seen through its submap. */
  function Seen<P>(g: Group<P>, s: State<P>, tag: Tag<P>): Option<P>
    requires tag.known <= |s.submaps|
  {
    match Chosen(s.submaps, tag)
    case None => None
    case Some(m) =>
      if m.id in s.world then Some(g.compose(s.world[m.id], g.compose(g.inverse(m.origin), tag.frame.pose))) else None
  }

  lemma FoundThroughTags<P(!new)>(g: Group<P>, events: seq<Event<P>>, s: State<P>, tags: Tags<P>, name: string)
    requires Reached(g, events, s, tags)
    ensures name in tags ==> tags[name].known <= |s.submaps|
    ensures Get(g, s, name) == if name in tags then Seen(g, s, tags[name]) else None
  {
    ReachedInvariant(g, events, s, tags);
    var count := TimesBound(s.waypoints, name) + TimesPending(s.pending, name);
    hide Chosen, TimesBound, TimesPending;
    if IndexOf(s.waypoints, name, 0).Some? {
      assert BoundOk(g, s.submaps, tags, s.waypoints[IndexOf(s.waypoints, name, 0).value]);
    } else {
      NotBound(s.waypoints, name);
      if name in tags {
        assert count == 1;
        var p := PendingNamed(s.pending, name);
        assert PendingOk(s.submaps, tags, p);
      }
    }
  }

  // ---------------------------------------------------------------------------------------
  // The same from the events alone
  // ---------------------------------------------------------------------------------------

  /** The last frame. */
  function LatestFrame<P>(events: seq<Event<P>>): Option<Frame<P>>
    decreases |events|
  {
    if events == [] then None
    else
      var e := events[|events| - 1];
      if e.NewFrame? then Some(e.frame) else LatestFrame(events[..|events| - 1])
  }

  /** The submaps, in the order they came. */
  function SubmapsOf<P>(events: seq<Event<P>>): seq<Submap<P>>
    decreases |events|
  {
    if events == [] then []
    else
      var e := events[|events| - 1];
      SubmapsOf(events[..|events| - 1]) + if e.NewSubmap? then [e.submap] else []
  }

  /** The last pose listed for a submap. */
  function PoseIn<P>(poses: seq<(int, P)>, id: int): Option<P> {
    if poses == [] then None
    else if poses[|poses| - 1].0 == id then Some(poses[|poses| - 1].1)
    else PoseIn(poses[..|poses| - 1], id)
  }

  /** The last world pose given for a submap, by its insertion or an update. */
  function LastPose<P>(events: seq<Event<P>>, id: int): Option<P>
    decreases |events|
  {
    if events == [] then None
    else
      var e, before := events[|events| - 1], events[..|events| - 1];
      if e.InsertSubmap? && e.id == id then Some(e.worldPose)
      else if e.UpdateSubmaps? && PoseIn(e.poses, id).Some? then PoseIn(e.poses, id)
      else LastPose(before, id)
  }

  /** The last tag of a name: the latest frame when it was made, and how many submaps there were. */
  function LastTag<P>(events: seq<Event<P>>, name: string): Option<Tag<P>>
    decreases |events|
  {
    if events == [] then None
    else
      var e, before := events[|events| - 1], events[..|events| - 1];
      if e == AddWaypoint(name) && name != "" && LatestFrame(before).Some? then
        Some(Tag(LatestFrame(before).value, |SubmapsOf(before)|))
      else LastTag(before, name)
  }

  lemma {:induction false} AfterLast<P(!new)>(g: Group<P>, s: State<P>, tags: Tags<P>, events: seq<Event<P>>)
    requires events != []
    ensures var e, before := events[|events| - 1], events[..|events| - 1];
            && After(g, s, events) == Next(g, After(g, s, before), e)
            && LastTags(g, s, tags, events) == TagsAfter(After(g, s, before), LastTags(g, s, tags, before), e)
    decreases |events|
  {
    hide Next, TagsAfter;
    var n := |events| - 1;
    if n == 0 {
      assert events[1..] == [] && events[..0] == [];
    } else {
      AfterLast(g, Next(g, s, events[0]), TagsAfter(s, tags, events[0]), events[1..]);
      assert events[1..][..n - 1] == events[..n][1..];
    }
  }

  lemma {:induction false} WithPosesHas<P>(world: map<int, P>, poses: seq<(int, P)>, id: int)
    ensures id in WithPoses(world, poses) <==> id in world || PoseIn(poses, id).Some?
    ensures id in WithPoses(world, poses) ==>
              WithPoses(world, poses)[id] == if PoseIn(poses, id).Some? then PoseIn(poses, id).value else world[id]
    decreases |poses|
  {
    if poses != [] {
      WithPosesHas(world, poses[..|poses| - 1], id);
    }
  }

  /**
   After any events: the latest frame is the last one, the submaps are those that came, in order, and the
   world poses are the last ones given.
   */
  lemma {:induction false} AfterEvents<P(!new)>(g: Group<P>, events: seq<Event<P>>)
    ensures var s := After(g, Initial(), events);
            && s.latest == LatestFrame(events) && s.submaps == SubmapsOf(events)
            && forall id: int :: if id in s.world then LastPose(events, id) == Some(s.world[id]) else LastPose(events, id) == None
    decreases |events|
  {
    if events != [] {
      var e, before := events[|events| - 1], events[..|events| - 1];
      AfterEvents(g, before);
      AfterLast(g, Initial(), map[], events);
      var s, t := After(g, Initial(), before), After(g, Initial(), events);
      hide After, WithPoses, PoseIn, Bound, StillPending, Find;
      assert t == Next(g, s, e);
      forall id: int
        ensures if id in t.world then LastPose(events, id) == Some(t.world[id]) else LastPose(events, id) == None
      {
        if e.UpdateSubmaps? {
          WithPosesHas(s.world, e.poses, id);
        }
      }
    }
  }

  lemma {:induction false} TagsOfEvents<P(!new)>(g: Group<P>, events: seq<Event<P>>, name: string)
    ensures var tags := LastTags(g, Initial(), map[], events);
            if name in tags then LastTag(events, name) == Some(tags[name]) else LastTag(events, name) == None
    decreases |events|
  {
    if events != [] {
      var before := events[..|events| - 1];
      TagsOfEvents(g, before, name);
      AfterEvents(g, before);
      AfterLast(g, Initial(), map[], events);
      hide After, LastTags, LatestFrame, SubmapsOf;
    }
  }

  /**
   The submap of a tag: one whose stamps span it, the newest of those known when it was made, or else the
   oldest of those that came later.
   */
  ghost predicate IsChosen<P>(submaps: seq<Submap<P>>, tag: Tag<P>, i: nat) {
    && i < |submaps| && submaps[i].firstStamp <= tag.frame.stamp <= submaps[i].lastStamp
    && forall j: nat | (if i < tag.known then i < j < tag.known else j < i) && j < |submaps| ::
         tag.frame.stamp < submaps[j].firstStamp || submaps[j].lastStamp < tag.frame.stamp
  }

  lemma {:induction false} FindIsNewest<P>(submaps: seq<Submap<P>>, stamp: real, i: nat)
    requires i < |submaps| && submaps[i].Covers(stamp) && forall j | i < j < |submaps| :: !submaps[j].Covers(stamp)
    ensures Find(submaps, stamp) == Some(submaps[i])
    decreases |submaps|
  {
    if i < |submaps| - 1 {
      FindIsNewest(submaps[..|submaps| - 1], stamp, i);
    }
  }

  lemma {:induction false} FirstIsOldest<P>(submaps: seq<Submap<P>>, from: nat, stamp: real, i: nat)
    requires from <= i < |submaps| && submaps[i].Covers(stamp) && forall j | from <= j < i :: !submaps[j].Covers(stamp)
    ensures First(submaps, from, stamp) == Some(submaps[i])
    decreases |submaps| - from
  {
    if from < i {
      FirstIsOldest(submaps, from + 1, stamp, i);
    }
  }

  lemma IsChosenMeans<P>(submaps: seq<Submap<P>>, tag: Tag<P>, i: nat)
    requires tag.known <= |submaps| && IsChosen(submaps, tag, i)
    ensures Chosen(submaps, tag) == Some(submaps[i])
  {
    var known := submaps[..tag.known];
    if i < tag.known {
      assert known[i] == submaps[i] && forall j | i < j < tag.known :: known[j] == submaps[j];
      FindIsNewest(known, tag.frame.stamp, i);
    } else {
      forall m | m in known
        ensures !m.Covers(tag.frame.stamp)
      {
        var j :| 0 <= j < tag.known && known[j] == m;
        assert m == submaps[j];
      }
      assert Find(known, tag.frame.stamp).None?;
      FirstIsOldest(submaps, tag.known, tag.frame.stamp, i);
    }
  }

  lemma {:induction false} NewestBelow<P>(submaps: seq<Submap<P>>, stamp: real, n: nat) returns (i: nat)
    requires n <= |submaps| && exists j | 0 <= j < n :: submaps[j].Covers(stamp)
    ensures i < n && submaps[i].Covers(stamp) && forall j | i < j < n :: !submaps[j].Covers(stamp)
    decreases n
  {
    if submaps[n - 1].Covers(stamp) {
      i := n - 1;
    } else {
      i := NewestBelow(submaps, stamp, n - 1);
    }
  }

  lemma {:induction false} OldestFrom<P>(submaps: seq<Submap<P>>, stamp: real, from: nat) returns (i: nat)
    requires exists j | from <= j < |submaps| :: submaps[j].Covers(stamp)
    ensures from <= i < |submaps| && submaps[i].Covers(stamp) && forall j | from <= j < i :: !submaps[j].Covers(stamp)
    decreases |submaps| - from
  {
    if submaps[from].Covers(stamp) {
      i := from;
    } else {
      i := OldestFrom(submaps, stamp, from + 1);
    }
  }

  lemma SomeIsChosen<P>(submaps: seq<Submap<P>>, tag: Tag<P>) returns (i: nat)
    requires tag.known <= |submaps| && exists m <- submaps :: m.Covers(tag.frame.stamp)
    ensures IsChosen(submaps, tag, i)
  {
    if exists j | 0 <= j < tag.known :: submaps[j].Covers(tag.frame.stamp) {
      i := NewestBelow(submaps, tag.frame.stamp, tag.known);
    } else {
      i := OldestFrom(submaps, tag.frame.stamp, tag.known);
    }
  }

  /**
   What a lookup finds, from the events alone: the last tag of the name, through its submap, at the last world
   pose given for that, composed with the tag's pose relative to the submap's origin, both in odometry.  It
   finds nothing else.
   */
  lemma FoundPose<P(!new)>(g: Group<P>, events: seq<Event<P>>, name: string)
    ensures var found, submaps := Get(g, After(g, Initial(), events), name), SubmapsOf(events);
            match LastTag(events, name)
            case None => found == None
            case Some(tag) =>
              && ((forall i: nat :: !IsChosen(submaps, tag, i)) ==> found == None)
              && forall i: nat | IsChosen(submaps, tag, i) ::
                   match LastPose(events, submaps[i].id)
                   case None => found == None
                   case Some(world) =>
                     found == Some(g.compose(world, g.compose(g.inverse(submaps[i].origin), tag.frame.pose)))
  {
    var s, tags: Tags<P> := After(g, Initial(), events), LastTags(g, Initial(), map[], events);
    FoundThroughTags(g, events, s, tags, name);
    AfterEvents(g, events);
    TagsOfEvents(g, events, name);
    hide After, LastTags, LastTag, LastPose, SubmapsOf, Get, Chosen, IsChosen;
    if name in tags {
      var tag := tags[name];
      forall i: nat | IsChosen(s.submaps, tag, i)
        ensures Chosen(s.submaps, tag) == Some(s.submaps[i])
      {
        IsChosenMeans(s.submaps, tag, i);
      }
      if Chosen(s.submaps, tag).Some? {
        NothingChosen(s.submaps, tag);
        var i := SomeIsChosen(s.submaps, tag);
      }
    }
  }

  lemma {:induction false} NotBound<P(!new)>(waypoints: seq<Waypoint<P>>, name: string)
    requires forall i | 0 <= i < |waypoints| :: waypoints[i].name != name
    ensures TimesBound(waypoints, name) == 0
    decreases |waypoints|
  {
    if waypoints != [] {
      NotBound(waypoints[..|waypoints| - 1], name);
    }
  }

  /** Until the name is tagged again its submap, once chosen, is the same at every lookup. */
  lemma {:induction false} ChosenStays<P(!new)>(g: Group<P>, s: State<P>, tags: Tags<P>, more: seq<Event<P>>, name: string)
    requires name in tags && tags[name].known <= |s.submaps| && AddWaypoint(name) !in more
    ensures name in LastTags(g, s, tags, more) && LastTags(g, s, tags, more)[name] == tags[name]
    ensures |s.submaps| <= |After(g, s, more).submaps|
    ensures Chosen(s.submaps, tags[name]).Some? ==>
              Chosen(After(g, s, more).submaps, tags[name]) == Chosen(s.submaps, tags[name])
    decreases |more|
  {
    hide Chosen;
    if more != [] {
      var e := more[0];
      assert AddWaypoint(name) != e && AddWaypoint(name) !in more[1..];
      if e.NewSubmap? {
        ChosenNext(s.submaps, e.submap, tags[name]);
      }
      ChosenStays(g, Next(g, s, e), TagsAfter(s, tags, e), more[1..], name);
    }
  }

  /** A tagged waypoint covered by a known submap is found once that submap is in the map. */
  lemma CoveredIsFound<P(!new)>(g: Group<P>, events: seq<Event<P>>, s: State<P>, tags: Tags<P>, name: string)
    requires Reached(g, events, s, tags) && name in tags
    requires exists m <- s.submaps :: m.Covers(tags[name].frame.stamp)
    requires forall m <- s.submaps :: m.Covers(tags[name].frame.stamp) ==> m.id in s.world
    ensures Get(g, s, name).Some?
  {
    FoundThroughTags(g, events, s, tags, name);
    NothingChosen(s.submaps, tags[name]);
    ChosenCovers(s.submaps, tags[name]);
  }

  lemma ChosenCovers<P>(submaps: seq<Submap<P>>, tag: Tag<P>)
    requires tag.known <= |submaps| && Chosen(submaps, tag).Some?
    ensures Chosen(submaps, tag).value in submaps && Chosen(submaps, tag).value.Covers(tag.frame.stamp)
  {
    assert forall m <- submaps[..tag.known] :: m in submaps;
  }

  lemma {:induction false} PendingNamed<P(!new)>(pending: seq<Pending<P>>, name: string) returns (p: Pending<P>)
    requires TimesPending(pending, name) > 0
    ensures p in pending && p.name == name
    decreases |pending|
  {
    var n := |pending| - 1;
    if pending[n].name == name {
      p := pending[n];
    } else {
      p := PendingNamed(pending[..n], name);
    }
  }

  /** A correction of a submap moves its waypoints by the same correction, and no other. */
  lemma CorrectionMovesWaypoint<P(!new)>(g: Group<P>, s: State<P>, name: string, id: int, correction: P)
    requires IsGroup(g) && id in s.world && Get(g, s, name).Some?
    ensures var t := Next(g, s, UpdateSubmaps([(id, g.compose(correction, s.world[id]))]));
            var w := s.waypoints[IndexOf(s.waypoints, name, 0).value];
            Get(g, t, name) == if w.submapId == id then Some(g.compose(correction, Get(g, s, name).value)) else Get(g, s, name)
  {
    var poses := [(id, g.compose(correction, s.world[id]))];
    assert poses[..0] == [];
    assert WithPoses(s.world, poses) == WithPoses(s.world, poses[..0])[id := g.compose(correction, s.world[id])];
    var w := s.waypoints[IndexOf(s.waypoints, name, 0).value];
    assert g.compose(g.compose(correction, s.world[id]), w.local) == g.compose(correction, g.compose(s.world[id], w.local));
  }

  /** Through a submap that was never corrected a waypoint is found where it was tagged. */
  lemma UncorrectedPose<P(!new)>(g: Group<P>, events: seq<Event<P>>, s: State<P>, tags: Tags<P>, name: string, m: Submap<P>)
    requires Reached(g, events, s, tags) && IsGroup(g) && name in tags && tags[name].known <= |s.submaps|
    requires Chosen(s.submaps, tags[name]) == Some(m) && m.id in s.world && s.world[m.id] == m.origin
    ensures Get(g, s, name) == Some(tags[name].frame.pose)
  {
    FoundThroughTags(g, events, s, tags, name);
    var pose := tags[name].frame.pose;
    assert g.compose(g.compose(m.origin, g.inverse(m.origin)), pose) == g.compose(m.origin, g.compose(g.inverse(m.origin), pose));
  }
}
