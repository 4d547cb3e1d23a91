/** waypoint_manager_module.hpp: the callbacks of `WaypointManager`, each under its mutex. */
module WaypointManager {
  import opened Bytes
  import opened Waypoints

  class WaypointManager<P(!new)> {
    const group: Group<P>
    var hasFrame: bool
    var latestFramePose: P
    var latestFrameStamp: real
    var submapWorldPose: map<int, P>
    var submapReferences: seq<Submap<P>>
    var waypoints: seq<Waypoint<P>>
    var pendingWaypoints: seq<Pending<P>>

    constructor (group: Group<P>)
      ensures this.group == group && View() == Initial()
    {
      this.group := group;
      hasFrame, latestFramePose, latestFrameStamp := false, group.identity, 0.0;
      submapWorldPose, submapReferences, waypoints, pendingWaypoints := map[], [], [], [];
    }

    ghost function View(): State<P>
      reads this
    {
      State(if hasFrame then Some(Frame(latestFrameStamp, latestFramePose)) else None,
            submapWorldPose, submapReferences, waypoints, pendingWaypoints)
    }

    method OnUpdateNewFrame(stamp: real, pose: P)
      modifies this
      ensures View() == Next(group, old(View()), NewFrame(Frame(stamp, pose)))
      ensures View() == old(View()).(latest := Some(Frame(stamp, pose)))
    {
      latestFramePose := pose;
      latestFrameStamp := stamp;
      hasFrame := true;
    }

    /** A submap without frames, or none at all, is ignored. */
    method OnNewSubmap(submap: Option<Submap<P>>)
      modifies this
      ensures submap.None? ==> View() == old(View())
      ensures submap.Some? ==> View() == Next(group, old(View()), NewSubmap(submap.value))
    {
      if submap.None? {
        return;
      }
      submapReferences := submapReferences + [submap.value];
      BindPendingWaypoints();
    }

    method OnInsertSubmap(id: int, worldPose: P)
      modifies this
      ensures View() == Next(group, old(View()), InsertSubmap(id, worldPose))
      ensures View() == old(View()).(world := old(View()).world[id := worldPose])
    {
      submapWorldPose := submapWorldPose[id := worldPose];
    }

    method OnUpdateSubmaps(poses: seq<(int, P)>)
      modifies this
      ensures View() == Next(group, old(View()), UpdateSubmaps(poses))
    {
      var i := 0;
      while i < |poses|
        invariant 0 <= i <= |poses|
        invariant View() == old(View()).(world := WithPoses(old(View()).world, poses[..i]))
      {
        assert poses[..i + 1][..i] == poses[..i];
        submapWorldPose := submapWorldPose[poses[i].0 := poses[i].1];
        i := i + 1;
      }
      assert poses[..i] == poses;
    }

    /** `add_waypoint_cb`; refused without odometry, or without a name. */
    method AddWaypointCb(name: string) returns (success: bool)
      modifies this
      ensures View() == Next(group, old(View()), AddWaypoint(name))
      ensures success <==> old(View()).latest.Some? && name != ""
    {
      if !hasFrame {
        return false;
      }
      if name == "" {
        return false;
      }
      EraseWaypointNamed(name);
      ErasePendingWaypointNamed(name);
      var submap := FindSubmapForStamp(latestFrameStamp);
      if submap.Some? {
        AddWaypointLocked(name, latestFramePose, submap.value);
      } else {
        pendingWaypoints := pendingWaypoints + [Pending(name, latestFrameStamp, latestFramePose)];
      }
      success := true;
    }

    /** `get_waypoint_cb`. */
    method GetWaypointCb(name: string) returns (found: Option<P>)
      ensures found == Get(group, View(), name)
    {
      var i := 0;
      while i < |waypoints|
        invariant 0 <= i <= |waypoints| && IndexOf(waypoints, name, 0) == IndexOf(waypoints, name, i)
      {
        var wp := waypoints[i];
        if wp.name != name {
          i := i + 1;
          continue;
        }
        if wp.submapId !in submapWorldPose {
          break;
        }
        return Some(group.compose(submapWorldPose[wp.submapId], wp.local));
      }
      found := None;
    }

    method FindSubmapForStamp(stamp: real) returns (submap: Option<Submap<P>>)
      ensures submap == Find(submapReferences, stamp)
    {
      var k := |submapReferences|;
      assert submapReferences[..k] == submapReferences;
      while k > 0
        invariant 0 <= k <= |submapReferences|
        invariant Find(submapReferences, stamp) == Find(submapReferences[..k], stamp)
      {
        k := k - 1;
        assert submapReferences[..k + 1][..k] == submapReferences[..k];
        if submapReferences[k].firstStamp <= stamp <= submapReferences[k].lastStamp {
          return Some(submapReferences[k]);
        }
      }
      submap := None;
    }

    /** `std::remove_if` and `erase`. */
    method EraseWaypointNamed(name: string)
      modifies `waypoints
      ensures waypoints == WithoutWaypoint(old(waypoints), name)
    {
      var kept, i := [], 0;
      while i < |waypoints|
        invariant 0 <= i <= |waypoints| && kept == WithoutWaypoint(waypoints[..i], name)
      {
        assert waypoints[..i + 1][..i] == waypoints[..i];
        if waypoints[i].name != name {
          kept := kept + [waypoints[i]];
        }
        i := i + 1;
      }
      assert waypoints[..i] == waypoints;
      waypoints := kept;
    }

    method ErasePendingWaypointNamed(name: string)
      modifies `pendingWaypoints
      ensures pendingWaypoints == WithoutPending(old(pendingWaypoints), name)
    {
      var kept, i := [], 0;
      while i < |pendingWaypoints|
        invariant 0 <= i <= |pendingWaypoints| && kept == WithoutPending(pendingWaypoints[..i], name)
      {
        assert pendingWaypoints[..i + 1][..i] == pendingWaypoints[..i];
        if pendingWaypoints[i].name != name {
          kept := kept + [pendingWaypoints[i]];
        }
        i := i + 1;
      }
      assert pendingWaypoints[..i] == pendingWaypoints;
      pendingWaypoints := kept;
    }

    method AddWaypointLocked(name: string, pose: P, submap: Submap<P>)
      modifies `waypoints
      ensures waypoints == old(waypoints) + [Entry(group, name, pose, submap)]
    {
      var localPose := group.compose(group.inverse(submap.origin), pose);
      waypoints := waypoints + [Waypoint(name, submap.id, localPose)];
    }

    /** The loop erases an entry as soon as it is bound, and stays where it is. */
    method BindPendingWaypoints()
      modifies `waypoints, `pendingWaypoints
      ensures waypoints == old(waypoints) + Bound(group, submapReferences, old(pendingWaypoints))
      ensures pendingWaypoints == StillPending(submapReferences, old(pendingWaypoints))
    {
      ghost var all, k := pendingWaypoints, 0;
      BindStart(group, submapReferences, all);
      hide Bound, StillPending, Find, Entry;
      var it := 0;
      while it < |pendingWaypoints|
        invariant 0 <= k <= |all| && it == |StillPending(submapReferences, all[..k])|
        invariant pendingWaypoints == StillPending(submapReferences, all[..k]) + all[k..]
        invariant waypoints == old(waypoints) + Bound(group, submapReferences, all[..k])
        decreases |all| - k
      {
        it := BindOne(it, all, k);
        k := k + 1;
      }
      assert all[k..] == [] && all[..k] == all;
    }

    /** One turn of that loop. */
    method BindOne(it0: nat, ghost all: seq<Pending<P>>, ghost k: nat) returns (it: nat)
      requires k < |all| && it0 == |StillPending(submapReferences, all[..k])|
      requires pendingWaypoints == StillPending(submapReferences, all[..k]) + all[k..]
      modifies `waypoints, `pendingWaypoints
      ensures it == |StillPending(submapReferences, all[..k + 1])|
      ensures pendingWaypoints == StillPending(submapReferences, all[..k + 1]) + all[k + 1..]
      ensures old(waypoints) <= waypoints
      ensures Bound(group, submapReferences, all[..k + 1])
           == Bound(group, submapReferences, all[..k]) + waypoints[|old(waypoints)|..]
    {
      hide Bound, StillPending, Find, Entry;
      it := it0;
      assert pendingWaypoints[it] == all[k] && pendingWaypoints[it + 1..] == all[k + 1..];
      assert pendingWaypoints[..it] == StillPending(submapReferences, all[..k]);
      BindNext(group, submapReferences, all, k);
      var submap := FindSubmapForStamp(pendingWaypoints[it].stamp);
      if submap.None? {
        it := it + 1;
        return;
      }
      AddWaypointLocked(pendingWaypoints[it].name, pendingWaypoints[it].pose, submap.value);
      pendingWaypoints := pendingWaypoints[..it] + pendingWaypoints[it + 1..];
    }
  }

  lemma BindStart<P(!new)>(g: Group<P>, submaps: seq<Submap<P>>, all: seq<Pending<P>>)
    ensures Bound(g, submaps, all[..0]) == [] && StillPending(submaps, all[..0]) == []
  {
  }

  /** One more pending waypoint is bound, or stays. */
  lemma BindNext<P(!new)>(g: Group<P>, submaps: seq<Submap<P>>, all: seq<Pending<P>>, k: nat)
    requires k < |all|
    ensures Find(submaps, all[k].stamp).None? ==>
              && Bound(g, submaps, all[..k + 1]) == Bound(g, submaps, all[..k])
              && StillPending(submaps, all[..k + 1]) == StillPending(submaps, all[..k]) + [all[k]]
    ensures Find(submaps, all[k].stamp).Some? ==>
              && StillPending(submaps, all[..k + 1]) == StillPending(submaps, all[..k])
              && Bound(g, submaps, all[..k + 1])
              == Bound(g, submaps, all[..k]) + [Entry(g, all[k].name, all[k].pose, Find(submaps, all[k].stamp).value)]
  {
    hide Find, Entry;
    assert all[..k + 1][..k] == all[..k];
  }
}
