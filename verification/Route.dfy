/**
 waypoint_mission.py, `go_through`: a route through all waypoints in one goal, which is sent again
 from the first waypoint still ahead whenever the map moved.  Nav2 reports how many poses remain,
 and a report may come late, from a goal that has been replaced since.
 */
module Route {
  import opened Bytes

  type Name = string

  /**
   `names` are the waypoints of the goal last accepted and `passed` how many of them are known to
   be behind; `remaining` is the last report, if any since the last request.  `reached` is what was
   logged, and `sent` are the goals requested.
   */
  datatype Route = Route(names: seq<Name>, passed: nat, remaining: Option<nat>, reached: seq<Name>,
                         sent: seq<seq<Name>>) {
    predicate Ok() {
      passed <= |names|
    }

    function Ahead(): seq<Name>
      requires Ok()
    {
      names[passed..]
    }
  }

  /** The first goal is accepted. */
  function Start(names: seq<Name>): (r: Route)
    ensures r.Ok()
  {
    Route(names, 0, None, [], [names])
  }

  function Max(a: int, b: int): int {
    if a > b then a else b
  }

  /** The report is read: `passed` never goes back. */
  function Poll(r: Route): (q: Route)
    requires r.Ok()
    ensures q.Ok() && q.names == r.names && q.passed >= r.passed
  {
    match r.remaining
    case None => r
    case Some(n) =>
      var passed := Max(r.passed, |r.names| - n);
      r.(passed := passed, reached := r.reached + r.names[r.passed..passed])
  }

  /** What becomes of the request for a new goal. */
  datatype Reply = Accepted | Refused | Unanswered

  /** `send_through` of the waypoints ahead: the old report is forgotten before the request is made. */
  function Resend(r: Route, reply: Reply): (q: Route)
    requires r.Ok()
    ensures q.Ok()
  {
    var goal := r.Ahead();
    if reply == Accepted then Route(goal, 0, None, r.reached, r.sent + [goal])
    else r.(remaining := None, sent := r.sent + [goal])
  }

  // ---------------------------------------------------------------------------------------
  // The loop
  // ---------------------------------------------------------------------------------------

  /** What a refresh finds: not due, a waypoint not resolved, none moved far, or one that did. */
  datatype Refresh = NotDue | Unresolved | Unmoved | Moved(reply: Reply)

  /** One turn of the loop: the report that came in, the result, if there is one, and the refresh. */
  datatype Turn = Turn(report: Option<nat>, result: Option<bool>, refresh: Refresh)

  /** How the function ends: with the names not reached, or by `max()` of an empty sequence. */
  datatype Ending = Left(names: seq<Name>) | ValueError

  datatype Ride = Ride(ending: Ending, reached: seq<Name>, sent: seq<seq<Name>>)

  function Heard(r: Route, report: Option<nat>): (q: Route)
    ensures q.names == r.names && q.passed == r.passed && q.reached == r.reached && q.sent == r.sent
  {
    if report.Some? then r.(remaining := report) else r
  }

  /** Whether a refresh fails: due, with nothing ahead. */
  predicate RefreshFails(r: Route, refresh: Refresh)
    requires r.Ok()
  {
    !refresh.NotDue? && r.Ahead() == []
  }

  function AfterRefresh(r: Route, refresh: Refresh): (q: Route)
    requires r.Ok()
    ensures q.Ok()
  {
    if refresh.Moved? then Resend(r, refresh.reply) else r
  }

  /** The whole loop, turn by turn, until a result or the end of the process. */
  function Run(r: Route, turns: seq<Turn>): Ride
    requires r.Ok()
    decreases |turns|
  {
    if turns == [] then Ride(Left(r.Ahead()), r.reached, r.sent)
    else
      var q := Poll(Heard(r, turns[0].report));
      if turns[0].result.Some? then
        if turns[0].result.value then Ride(Left([]), q.reached + q.Ahead(), q.sent)
        else Ride(Left(q.Ahead()), q.reached, q.sent)
      else if RefreshFails(q, turns[0].refresh) then Ride(ValueError, q.reached, q.sent)
      else Run(AfterRefresh(q, turns[0].refresh), turns[1..])
  }

  method LogReached(names: seq<Name>, from: nat, to: nat, reached0: seq<Name>) returns (reached: seq<Name>)
    requires from <= to <= |names|
    ensures reached == reached0 + names[from..to]
  {
    reached := reached0;
    var k := from;
    while k < to
      invariant from <= k <= to && reached == reached0 + names[from..k]
    {
      reached := reached + [names[k]];
      k := k + 1;
    }
  }

  method ReadReport(names: seq<Name>, passed0: nat, posesRemaining: Option<nat>, reached0: seq<Name>)
    returns (passed: nat, reached: seq<Name>)
    requires passed0 <= |names|
    ensures forall sent :: Route(names, passed, posesRemaining, reached, sent)
                           == Poll(Route(names, passed0, posesRemaining, reached0, sent))
    ensures passed == if posesRemaining.Some? && posesRemaining.value < |names| - passed0
                      then |names| - posesRemaining.value else passed0
    ensures passed0 <= passed <= |names| && reached == reached0 + names[passed0..passed]
  {
    passed, reached := passed0, reached0;
    if posesRemaining.Some? {
      var nowPassed := |names| - posesRemaining.value;
      reached := LogReached(names, passed, Max(passed, nowPassed), reached);
      passed := Max(passed, nowPassed);
    }
  }

  /** `go_through`, once the first goal is accepted. */
  method GoThrough(names0: seq<Name>, turns: seq<Turn>) returns (ride: Ride)
    ensures ride == Run(Start(names0), turns)
  {
    var names, passed, posesRemaining, reached, sent := names0, 0, None, [], [names0];
    var t := 0;
    while t < |turns|
      invariant 0 <= t <= |turns| && 0 <= passed <= |names|
      invariant Run(Start(names0), turns) == Run(Route(names, passed, posesRemaining, reached, sent), turns[t..])
    {
      ghost var start := Route(names, passed, posesRemaining, reached, sent);
      var turn := turns[t];
      assert turns[t..][0] == turn && turns[t..][1..] == turns[t + 1..];
      if turn.report.Some? {
        posesRemaining := turn.report;
      }
      passed, reached := ReadReport(names, passed, posesRemaining, reached);
      ghost var q := Poll(Heard(start, turn.report));
      assert Route(names, passed, posesRemaining, reached, sent) == q;
      if turn.result.Some? {
        if turn.result.value {
          reached := LogReached(names, passed, |names|, reached);
          return Ride(Left([]), reached, sent);
        }
        return Ride(Left(names[passed..]), reached, sent);
      }
      if !turn.refresh.NotDue? {
        var ahead := names[passed..];
        if |ahead| == 0 {
          return Ride(ValueError, reached, sent);
        }
        if turn.refresh.Moved? {
          posesRemaining := None;
          sent := sent + [ahead];
          if turn.refresh.reply == Accepted {
            names, passed := ahead, 0;
          }
        }
      }
      t := t + 1;
    }
    ride := Ride(Left(names[passed..]), reached, sent);
  }

  /** Names logged as reached, then names still ahead, are the original list. */
  predicate Accounted(original: seq<Name>, r: Route) {
    r.Ok() && r.reached + r.Ahead() == original
  }

  lemma PollAccounts(original: seq<Name>, r: Route)
    requires Accounted(original, r)
    ensures Accounted(original, Poll(r))
  {
    if r.remaining.Some? {
      var q := Poll(r);
      assert r.names[r.passed..] == r.names[r.passed..q.passed] + r.names[q.passed..];
    }
  }

  lemma ResendAccounts(original: seq<Name>, r: Route, reply: Reply)
    requires Accounted(original, r)
    ensures Accounted(original, Resend(r, reply))
  {
    assert r.Ahead()[0..] == r.Ahead();
  }

  /**
   However the ride goes, through any number of new goals and failed requests, what is logged as
   reached and what is returned as left add up to the original list.
   */
  lemma {:induction false} RideAccounts(original: seq<Name>, r: Route, turns: seq<Turn>)
    requires Accounted(original, r)
    ensures Run(r, turns).ending.Left? ==> Run(r, turns).reached + Run(r, turns).ending.names == original
    ensures Run(r, turns).ending.ValueError? ==> Run(r, turns).reached == original
    decreases |turns|
  {
    if turns != [] {
      PollAccounts(original, Heard(r, turns[0].report));
      var q := Poll(Heard(r, turns[0].report));
      if turns[0].result.None? {
        if RefreshFails(q, turns[0].refresh) {
          assert q.reached + [] == q.reached;
        } else {
          if turns[0].refresh.Moved? {
            ResendAccounts(original, q, turns[0].refresh.reply);
          }
          RideAccounts(original, AfterRefresh(q, turns[0].refresh), turns[1..]);
        }
      } else {
        assert q.reached + q.Ahead() + [] == q.reached + q.Ahead();
      }
    }
  }

  /** The least of some reports, and of `cap`. */
  ghost predicate IsLeast(k: nat, cap: nat, turns: seq<Turn>) {
    && k <= cap
    && (forall turn <- turns :: turn.report.Some? ==> k <= turn.report.value)
    && (k == cap || exists turn <- turns :: turn.report == Some(k))
  }

  /** At most the last turn brings a result, and that not a success. */
  predicate Unfinished(turns: seq<Turn>) {
    && (forall i | 0 <= i < |turns| - 1 :: turns[i].result.None?)
    && (turns != [] ==> turns[|turns| - 1].result != Some(true))
  }

  lemma LeastGoesOn(k: nat, cap: nat, turns: seq<Turn>)
    requires turns != []
    requires IsLeast(k, if turns[0].report.Some? && turns[0].report.value < cap then turns[0].report.value else cap, turns[1..])
    ensures IsLeast(k, cap, turns)
  {
    assert turns[0] in turns && forall turn <- turns[1..] :: turn in turns;
    assert forall turn <- turns :: turn == turns[0] || turn in turns[1..];
  }

  lemma {:induction false} LeavesLeast(r: Route, turns: seq<Turn>)
    requires r.Ok() && (r.remaining.Some? ==> |r.Ahead()| <= r.remaining.value)
    requires Unfinished(turns) && Run(r, turns).ending.Left?
    ensures IsLeast(|Run(r, turns).ending.names|, |r.Ahead()|, turns)
    decreases |turns|
  {
    if turns != [] {
      var q := Poll(Heard(r, turns[0].report));
      var report := turns[0].report;
      assert |q.Ahead()| == if report.Some? && report.value < |r.Ahead()| then report.value else |r.Ahead()|;
      if turns[0].result.None? {
        var rest := AfterRefresh(q, turns[0].refresh);
        assert |rest.Ahead()| == |q.Ahead()|;
        LeavesLeast(rest, turns[1..]);
      } else {
        assert turns[1..] == [];
        assert Run(r, turns).ending.names == q.Ahead();
      }
      LeastGoesOn(|Run(r, turns).ending.names|, |r.Ahead()|, turns);
    }
  }

  /** What comes after a result is not looked at. */
  lemma {:induction false} ResultEnds(r: Route, turns: seq<Turn>, t: nat)
    requires r.Ok() && t < |turns| && turns[t].result.Some?
    ensures Run(r, turns) == Run(r, turns[..t + 1])
    decreases |turns|
  {
    if turns[0].result.None? {
      var q := Poll(Heard(r, turns[0].report));
      assert turns[..t + 1][1..] == turns[1..][..t];
      if !RefreshFails(q, turns[0].refresh) {
        ResultEnds(AfterRefresh(q, turns[0].refresh), turns[1..], t - 1);
      }
    }
  }

  /**
   While no result has come, and when a failing one has, the names left are the last of the route, as many as
   the least report said to remain, whatever goal it was about; and the names before them were logged.
   */
  lemma RideLeaves(names: seq<Name>, turns: seq<Turn>)
    requires Unfinished(turns) && Run(Start(names), turns).ending.Left?
    ensures var left := Run(Start(names), turns).ending.names;
            && |left| <= |names| && left == names[|names| - |left|..]
            && Run(Start(names), turns).reached == names[..|names| - |left|]
            && (forall turn <- turns :: turn.report.Some? ==> |left| <= turn.report.value)
            && (|left| == |names| || exists turn <- turns :: turn.report == Some(|left|))
  {
    var r := Start(names);
    assert r.Ahead() == names;
    LeavesLeast(r, turns);
    RideAccounts(names, r, turns);
    var ride := Run(r, turns);
    assert ride.reached == (ride.reached + ride.ending.names)[..|ride.reached|];
    assert ride.ending.names == (ride.reached + ride.ending.names)[|ride.reached|..];
  }

  /** With a result that the goal succeeded nothing is left. */
  lemma {:induction false} RideSucceeds(r: Route, turns: seq<Turn>)
    requires r.Ok() && turns != [] && turns[|turns| - 1].result == Some(true)
    requires (forall i | 0 <= i < |turns| - 1 :: turns[i].result.None?) && Run(r, turns).ending.Left?
    ensures Run(r, turns).ending.names == []
    decreases |turns|
  {
    if |turns| > 1 {
      RideSucceeds(AfterRefresh(Poll(Heard(r, turns[0].report)), turns[0].refresh), turns[1..]);
    }
  }

  /** A refresh that finds a waypoint moved sends the names then left, whatever the reply; nothing else sends. */
  lemma {:induction false} RideSends(r: Route, turns: seq<Turn>)
    requires r.Ok() && turns != [] && (forall turn <- turns :: turn.result.None?) && Run(r, turns).ending.Left?
    ensures Run(r, turns[..|turns| - 1]).ending.Left?
    ensures Run(r, turns).sent == Run(r, turns[..|turns| - 1]).sent
                                  + if turns[|turns| - 1].refresh.Moved? then [Run(r, turns).ending.names] else []
    decreases |turns|
  {
    assert turns[0] in turns && forall turn <- turns[1..] :: turn in turns;
    var n := |turns| - 1;
    var q := Poll(Heard(r, turns[0].report));
    var rest := AfterRefresh(q, turns[0].refresh);
    if n == 0 {
      assert turns[1..] == [] && turns[..0] == [];
      assert rest.Ahead() == q.Ahead();
    } else {
      RideSends(rest, turns[1..]);
      assert turns[..n][1..] == turns[1..][..n - 1];
    }
  }

  /** With at least one pose remaining in every report, a refresh never fails. */
  lemma {:induction false} NoValueError(r: Route, turns: seq<Turn>)
    requires r.Ok() && r.passed < |r.names| && (r.remaining.Some? ==> r.remaining.value > 0)
    requires forall t <- turns :: t.report.Some? ==> t.report.value > 0
    ensures Run(r, turns).ending.Left?
    decreases |turns|
  {
    if turns != [] {
      assert turns[0] in turns && forall t <- turns[1..] :: t in turns;
      var q := Poll(Heard(r, turns[0].report));
      if turns[0].result.None? {
        NoValueError(AfterRefresh(q, turns[0].refresh), turns[1..]);
      }
    }
  }

  /** A refresh fails exactly when every name has been logged as reached before the result came. */
  lemma RefreshFailsWhenAllReached(original: seq<Name>, r: Route, refresh: Refresh)
    requires Accounted(original, r) && !refresh.NotDue?
    ensures RefreshFails(r, refresh) <==> r.reached == original
  {
    assert |r.reached| + |r.Ahead()| == |original|;
    assert r.reached + [] == r.reached;
  }

  /** A refresh falls due at turn `t`, and no result came up to then. */
  predicate DueUnfinished(turns: seq<Turn>, t: nat) {
    t < |turns| && !turns[t].refresh.NotDue? && forall i | 0 <= i <= t :: turns[i].result.None?
  }

  /** By turn `t` a report has said that no pose remains. */
  predicate NoneRemains(turns: seq<Turn>, t: nat) {
    t < |turns| && exists j | 0 <= j <= t :: turns[j].report == Some(0)
  }

  /** The turn at which a ride fails, if it does. */
  predicate FailsAt(r: Route, turns: seq<Turn>, t: nat)
    requires r.Ok()
  {
    DueUnfinished(turns, t) && (r.Ahead() == [] || NoneRemains(turns, t))
  }

  /** What the first turn leaves ahead. */
  lemma FirstTurnAhead(r: Route, turn: Turn)
    requires r.Ok() && (r.remaining == Some(0) ==> r.Ahead() == [])
    ensures var q := Poll(Heard(r, turn.report));
            && (q.Ahead() == [] <==> r.Ahead() == [] || turn.report == Some(0))
            && AfterRefresh(q, turn.refresh).Ahead() == q.Ahead()
            && (AfterRefresh(q, turn.refresh).remaining == Some(0) ==> q.Ahead() == [])
  {
    var q := Poll(Heard(r, turn.report));
    assert q.Ahead()[0..] == q.Ahead();
  }

  /** The turns after the first, seen from there and from the start. */
  lemma LaterTurn(turns: seq<Turn>, t: nat)
    requires turns != []
    ensures DueUnfinished(turns, t + 1) <==> turns[0].result.None? && DueUnfinished(turns[1..], t)
    ensures t + 1 < |turns| ==> (NoneRemains(turns, t + 1) <==> turns[0].report == Some(0) || NoneRemains(turns[1..], t))
  {
    if t + 1 < |turns| {
      forall i | 0 <= i <= t
        ensures turns[1..][i] == turns[i + 1]
      {
      }
      assert turns[0].result.None? && (forall i | 0 <= i <= t :: turns[1..][i].result.None?)
          ==> forall i | 0 <= i <= t + 1 :: turns[i].result.None? by {
        assert forall i | 1 <= i <= t + 1 :: turns[i] == turns[1..][i - 1];
      }
      assert (exists j | 0 <= j <= t + 1 :: turns[j].report == Some(0)) ==>
             turns[0].report == Some(0) || exists j | 0 <= j <= t :: turns[1..][j].report == Some(0) by {
        assert forall i | 1 <= i <= t + 1 :: turns[i] == turns[1..][i - 1];
      }
    }
  }

  lemma {:induction false} FailsIff(r: Route, turns: seq<Turn>)
    requires r.Ok() && (r.remaining == Some(0) ==> r.Ahead() == [])
    ensures Run(r, turns).ending.ValueError? <==> exists t: nat :: FailsAt(r, turns, t)
    decreases |turns|
  {
    if turns != [] {
      var q := Poll(Heard(r, turns[0].report));
      FirstTurnAhead(r, turns[0]);
      if turns[0].result.None? {
        if RefreshFails(q, turns[0].refresh) {
          assert FailsAt(r, turns, 0);
        } else {
          FailsLater(r, turns);
          FailsIff(AfterRefresh(q, turns[0].refresh), turns[1..]);
        }
      }
    }
  }

  /** The first turn neither ends the ride nor fails: the ride fails when the rest of it does. */
  lemma FailsLater(r: Route, turns: seq<Turn>)
    requires r.Ok() && (r.remaining == Some(0) ==> r.Ahead() == []) && turns != [] && turns[0].result.None?
    requires !RefreshFails(Poll(Heard(r, turns[0].report)), turns[0].refresh)
    ensures var rest := AfterRefresh(Poll(Heard(r, turns[0].report)), turns[0].refresh);
            (exists t: nat :: FailsAt(r, turns, t)) <==> exists t: nat :: FailsAt(rest, turns[1..], t)
  {
    var rest := AfterRefresh(Poll(Heard(r, turns[0].report)), turns[0].refresh);
    FirstTurnAhead(r, turns[0]);
    hide AfterRefresh, Poll;
    if t: nat :| FailsAt(r, turns, t) {
      assert t > 0;
      LaterTurn(turns, t - 1);
      assert FailsAt(rest, turns[1..], t - 1);
    }
    if t: nat :| FailsAt(rest, turns[1..], t) {
      LaterTurn(turns, t);
      assert FailsAt(r, turns, t + 1);
    }
  }

  /**
   A ride ends in `max()` of an empty sequence exactly when a refresh falls due, with no result yet, at or
   after the first report that no pose remains; or at any time, when the route was empty to begin with.
   */
  lemma RideFailsIff(names: seq<Name>, turns: seq<Turn>)
    ensures Run(Start(names), turns).ending.ValueError?
       <==> exists t: nat :: DueUnfinished(turns, t) && (names == [] || NoneRemains(turns, t))
  {
    var r := Start(names);
    assert r.Ahead() == names;
    FailsIff(r, turns);
    forall t
      ensures FailsAt(r, turns, t) <==> DueUnfinished(turns, t) && (names == [] || NoneRemains(turns, t))
    {
    }
  }

  /** Such a run: the last pose is reported as passed, and the refresh comes before the result. */
  lemma ValueErrorExample(name: Name)
    ensures Run(Start([name]), [Turn(Some(0), None, Unmoved)]).ending == ValueError
  {
    var r := Heard(Start([name]), Some(0));
    assert Poll(r).passed == 1;
  }

  // ---------------------------------------------------------------------------------------
  // Late reports and late goals
  // ---------------------------------------------------------------------------------------

  /**
   The node together with Nav2, which works on one goal at a time: a suffix of the original list,
   of which the pose it makes for is `progress`.  `ever` is the furthest it got under any goal,
   `sent` all the reports it ever made, and `late` where the requests begin that it may yet accept.
   */
  datatype World = World(original: seq<Name>, route: Route, progress: nat, ever: nat, sent: set<nat>, late: set<nat>)

  datatype Event =
    | Pass            // Nav2 drops a pose as reached
    | Report          // and says how many remain
    | Hear(n: nat)    // a report is delivered, however old
    | Read            // the node reads the last one delivered
    | Replace(reply: Reply)
    | LateStart(start: nat)

  predicate Possible(w: World, e: Event) {
    match e
    case Pass => w.progress < |w.original|
    case Report => w.progress <= |w.original|
    case Hear(n) => n in w.sent
    case Read => w.route.Ok()
    case Replace(_) => w.route.Ok() && |w.route.Ahead()| <= |w.original|
    case LateStart(k) => k in w.late
  }

  function Happen(w: World, e: Event): World
    requires Possible(w, e)
  {
    match e
    case Pass => w.(progress := w.progress + 1, ever := Max(w.ever, w.progress + 1))
    case Report => w.(sent := w.sent + {|w.original| - w.progress})
    case Hear(n) => w.(route := w.route.(remaining := Some(n)))
    case Read => w.(route := Poll(w.route))
    case Replace(reply) =>
      var start := |w.original| - |w.route.Ahead()|;
      w.(route := Resend(w.route, reply),
         progress := if reply == Accepted then start else w.progress,
         late := if reply == Unanswered then w.late + {start} else w.late)
    case LateStart(k) => w.(progress := k, late := w.late - {k})
  }

  predicate Invariant(w: World) {
    && Accounted(w.original, w.route)
    && |w.route.names| <= |w.original|
    && w.progress <= w.ever <= |w.original| && |w.route.reached| <= w.ever
    && (forall n <- w.sent :: n <= |w.original| && |w.original| - n <= w.ever)
    && (w.route.remaining.Some? ==> w.route.remaining.value in w.sent)
    && forall k <- w.late :: k <= w.ever
  }

  lemma EventKeepsInvariant(w: World, e: Event)
    requires Invariant(w) && Possible(w, e)
    ensures Invariant(Happen(w, e))
  {
    assert |w.route.reached| + |w.route.Ahead()| == |w.original|;
    match e {
      case Read =>
        PollAccounts(w.original, w.route);
        var q := Poll(w.route);
        assert |q.reached| + |q.Ahead()| == |w.original|;
      case Replace(reply) =>
        ResendAccounts(w.original, w.route, reply);
      case _ =>
    }
  }

  predicate IsRun(w: World, events: seq<Event>)
    decreases |events|
  {
    events == [] || (Possible(w, events[0]) && IsRun(Happen(w, events[0]), events[1..]))
  }

  function After(w: World, events: seq<Event>): World
    requires IsRun(w, events)
    decreases |events|
  {
    if events == [] then w else After(Happen(w, events[0]), events[1..])
  }

  lemma {:induction false} RunKeepsInvariant(w: World, events: seq<Event>)
    requires Invariant(w) && IsRun(w, events)
    ensures Invariant(After(w, events)) && After(w, events).original == w.original
    decreases |events|
  {
    if events != [] {
      EventKeepsInvariant(w, events[0]);
      RunKeepsInvariant(Happen(w, events[0]), events[1..]);
    }
  }

  function Outset(original: seq<Name>): World {
    World(original, Start(original), 0, 0, {}, {})
  }

  /**
   In every run, whatever goal a report comes from and however late, the names logged as reached
   are the first of the route, and none of them is one that Nav2 has not passed.
   */
  lemma NoFalseReach(original: seq<Name>, events: seq<Event>)
    requires IsRun(Outset(original), events)
    ensures var w := After(Outset(original), events);
            && |w.route.reached| <= w.ever <= |original|
            && w.route.reached == original[..|w.route.reached|]
            && w.route.Ok() && w.route.Ahead() == original[|w.route.reached|..]
  {
    assert original[0..] == original;
    RunKeepsInvariant(Outset(original), events);
    var w := After(Outset(original), events);
    assert w.route.reached + w.route.Ahead() == original;
  }
}
