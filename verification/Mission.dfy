/**
 waypoint_mission.py: which goals the mission node keeps track of, against a Nav2 that works on one
 goal at a time and may answer late.
 */
module Mission {
  import opened Bytes

  /** Goal requests are numbered as they are made. */
  type Goal = nat

  /** What the node is in the middle of. */
  datatype Place =
    | Free
    | Awaiting(goal: Goal)    // send_action waits for the answer, or has yet to store the handle
    | Cancelling(goal: Goal)  // a late goal is off the list, its cancel not yet sent

  /**
   `answers` is what Nav2 has answered so far; `cancelled` are the goals for which a cancel was
   sent.
   */
  datatype State = State(current: Option<Goal>, unanswered: set<Goal>, place: Place, cancelled: set<Goal>,
                         cleaning: bool, next: Goal,
                         inFlight: set<Goal>, answers: map<Goal, bool>, executing: Option<Goal>)

  datatype Step =
    | Send                // a goal request goes out
    | Answered            // its answer is there in time
    | TimeOut             // or not
    | TakeLate(goal: Goal) // cancel_late_goals finds an answer that came after all
    | CancelLate
    | SeeResult           // the current goal is over
    | End                 // run() returns, cleanup begins
    | Interrupt           // Ctrl+C: cleanup begins wherever the node was
    | CancelCurrent
    | Accept(goal: Goal)  // Nav2 accepts a request, and drops what it was doing
    | Reject(goal: Goal)
    | Finish              // Nav2 is done with its goal

  predicate Enabled(s: State, step: Step) {
    match step
    case Send => s.place.Free? && !s.cleaning
    case Answered => s.place.Awaiting? && s.place.goal in s.answers
    case TimeOut => s.place.Awaiting?
    case TakeLate(g) => s.place.Free? && g in s.unanswered && g in s.answers
    case CancelLate => s.place.Cancelling?
    case SeeResult => s.place.Free? && s.current.Some? && s.executing != s.current
    case End => s.place.Free? && !s.cleaning
    case Interrupt => !s.cleaning
    case CancelCurrent => s.cleaning && s.place.Free? && s.current.Some?
    case Accept(g) => g in s.inFlight
    case Reject(g) => g in s.inFlight
    case Finish => s.executing.Some?
  }

  function Next(s: State, step: Step): State
    requires Enabled(s, step)
  {
    match step
    case Send => s.(place := Awaiting(s.next), inFlight := s.inFlight + {s.next}, next := s.next + 1)
    case Answered =>
      if s.answers[s.place.goal] then s.(current := Some(s.place.goal), place := Free) else s.(place := Free)
    case TimeOut => s.(unanswered := s.unanswered + {s.place.goal}, place := Free)
    case TakeLate(g) =>
      s.(unanswered := s.unanswered - {g}, place := if s.answers[g] then Cancelling(g) else Free)
    case CancelLate => s.(cancelled := s.cancelled + {s.place.goal}, place := Free)
    case SeeResult => s.(current := None)
    case End => s.(cleaning := true)
    case Interrupt => s.(cleaning := true, place := Free)
    case CancelCurrent => s.(cancelled := s.cancelled + {s.current.value})
    case Accept(g) => s.(inFlight := s.inFlight - {g}, answers := s.answers[g := true], executing := Some(g))
    case Reject(g) => s.(inFlight := s.inFlight - {g}, answers := s.answers[g := false])
    case Finish => s.(executing := None)
  }

  /** The node knows of a goal: it is the current one, or a request it waits for or has on its list. */
  predicate Known(s: State, g: Goal) {
    s.current == Some(g) || g in s.unanswered || s.place == Awaiting(g) || s.place == Cancelling(g)
  }

  /** The goal being executed is known, or its cancel was sent. */
  predicate Safe(s: State) {
    s.executing.Some? ==> Known(s, s.executing.value) || s.executing.value in s.cancelled
  }

  predicate Accepted(s: State, g: Goal) {
    g in s.answers && s.answers[g]
  }

  predicate Invariant(s: State) {
    && Safe(s)
    // Every request that Nav2 may still accept is one the node waits for or has on its list.
    && (forall g <- s.inFlight :: g < s.next && g !in s.answers && (g in s.unanswered || s.place == Awaiting(g)))
    && (forall g <- s.answers :: g < s.next)
    && (s.executing.Some? ==> Accepted(s, s.executing.value))
    && (s.current.Some? ==> Accepted(s, s.current.value))
    && (s.place.Cancelling? ==> Accepted(s, s.place.goal))
    // A goal is in one place only.
    && (forall g <- s.unanswered :: g < s.next && s.current != Some(g) && s.place != Awaiting(g)
                                    && s.place != Cancelling(g) && g !in s.cancelled)
    && (!s.place.Free? ==> s.place.goal < s.next && s.current != Some(s.place.goal) && s.place.goal !in s.cancelled)
    && (forall g <- s.cancelled :: g < s.next && Accepted(s, g))
    // A goal accepted after the current one has taken its place.
    && (s.place.Awaiting? && Accepted(s, s.place.goal) ==> s.executing.None? || s.executing != s.current)
  }

  /**
   An interrupt that comes while an answer is awaited, or between taking a late goal off the list
   and cancelling it, loses that goal.  It matters while Nav2 may still accept it or executes it.
   */
  predicate Exposed(s: State) {
    match s.place
    case Free => false
    case Awaiting(g) => g in s.inFlight || s.executing == Some(g)
    case Cancelling(g) => s.executing == Some(g)
  }

  lemma InterruptKeepsInvariant(s: State)
    requires Invariant(s) && !s.cleaning && !Exposed(s)
    ensures Invariant(Next(s, Interrupt))
  {
  }

  lemma SendKeepsInvariant(s: State)
    requires Invariant(s) && Enabled(s, Send)
    ensures Invariant(Next(s, Send))
  {
  }

  lemma AnsweredKeepsInvariant(s: State)
    requires Invariant(s) && Enabled(s, Answered)
    ensures Invariant(Next(s, Answered))
  {
  }

  lemma TimeOutKeepsInvariant(s: State)
    requires Invariant(s) && Enabled(s, TimeOut)
    ensures Invariant(Next(s, TimeOut))
  {
  }

  lemma TakeLateKeepsInvariant(s: State, g: Goal)
    requires Invariant(s) && Enabled(s, TakeLate(g))
    ensures Invariant(Next(s, TakeLate(g)))
  {
  }

  lemma CancelLateKeepsInvariant(s: State)
    requires Invariant(s) && Enabled(s, CancelLate)
    ensures Invariant(Next(s, CancelLate))
  {
  }

  lemma SeeResultKeepsInvariant(s: State)
    requires Invariant(s) && Enabled(s, SeeResult)
    ensures Invariant(Next(s, SeeResult))
  {
  }

  lemma EndKeepsInvariant(s: State)
    requires Invariant(s) && Enabled(s, End)
    ensures Invariant(Next(s, End))
  {
  }

  lemma CancelCurrentKeepsInvariant(s: State)
    requires Invariant(s) && Enabled(s, CancelCurrent)
    ensures Invariant(Next(s, CancelCurrent))
  {
  }

  lemma AcceptKeepsInvariant(s: State, g: Goal)
    requires Invariant(s) && Enabled(s, Accept(g))
    ensures Invariant(Next(s, Accept(g)))
  {
  }

  lemma RejectKeepsInvariant(s: State, g: Goal)
    requires Invariant(s) && Enabled(s, Reject(g))
    ensures Invariant(Next(s, Reject(g)))
  {
  }

  lemma FinishKeepsInvariant(s: State)
    requires Invariant(s) && Enabled(s, Finish)
    ensures Invariant(Next(s, Finish))
  {
  }

  lemma StepKeepsInvariant(s: State, step: Step)
    requires Invariant(s) && Enabled(s, step) && (step.Interrupt? ==> !Exposed(s))
    ensures Invariant(Next(s, step))
  {
    hide Invariant, Next, Exposed;
    match step {
      case Send => SendKeepsInvariant(s);
      case Answered => AnsweredKeepsInvariant(s);
      case TimeOut => TimeOutKeepsInvariant(s);
      case TakeLate(g) => TakeLateKeepsInvariant(s, g);
      case CancelLate => CancelLateKeepsInvariant(s);
      case SeeResult => SeeResultKeepsInvariant(s);
      case End => EndKeepsInvariant(s);
      case Interrupt => InterruptKeepsInvariant(s);
      case CancelCurrent => CancelCurrentKeepsInvariant(s);
      case Accept(g) => AcceptKeepsInvariant(s, g);
      case Reject(g) => RejectKeepsInvariant(s, g);
      case Finish => FinishKeepsInvariant(s);
    }
  }

  // ---------------------------------------------------------------------------------------
  // Main results
  // ---------------------------------------------------------------------------------------

  function Initial(): State {
    State(None, {}, Free, {}, false, 0, {}, map[], None)
  }

  predicate IsRun(s: State, steps: seq<Step>)
    decreases |steps|
  {
    steps == [] || (Enabled(s, steps[0]) && IsRun(Next(s, steps[0]), steps[1..]))
  }

  function After(s: State, steps: seq<Step>): State
    requires IsRun(s, steps)
    decreases |steps|
  {
    if steps == [] then s else After(Next(s, steps[0]), steps[1..])
  }

  /** An interrupt, if there is one, comes when no goal is exposed. */
  predicate CalmInterrupts(s: State, steps: seq<Step>)
    requires IsRun(s, steps)
    decreases |steps|
  {
    steps == [] || ((steps[0].Interrupt? ==> !Exposed(s)) && CalmInterrupts(Next(s, steps[0]), steps[1..]))
  }

  lemma {:induction false} CalmRunKeepsInvariant(s: State, steps: seq<Step>)
    requires Invariant(s) && IsRun(s, steps) && CalmInterrupts(s, steps)
    ensures Invariant(After(s, steps))
    decreases |steps|
  {
    if steps != [] {
      StepKeepsInvariant(s, steps[0]);
      hide Invariant, Enabled, Next, Exposed;
      CalmRunKeepsInvariant(Next(s, steps[0]), steps[1..]);
    }
  }

  /**
   At every step of every mission without an interrupt that exposes a goal, in any order of timeouts,
   late acceptances, preemptions, results and cleanup, the goal being executed is the current one, a
   request not answered, or one for which a cancel is or was being sent.
   */
  lemma EveryGoalIsTracked(steps: seq<Step>)
    requires IsRun(Initial(), steps) && CalmInterrupts(Initial(), steps)
    ensures Safe(After(Initial(), steps))
  {
    CalmRunKeepsInvariant(Initial(), steps);
  }

  /** In the run, the wait for `g` timed out, or the node was cleaning up and `g` was its current goal. */
  predicate HadCause(s: State, steps: seq<Step>, g: Goal)
    requires IsRun(s, steps)
    decreases |steps|
  {
    steps != []
    && (|| (steps[0].TimeOut? && s.place == Awaiting(g))
        || (steps[0].CancelCurrent? && s.cleaning && s.current == Some(g))
        || HadCause(Next(s, steps[0]), steps[1..], g))
  }

  lemma {:induction false} CancelHasCause(s: State, steps: seq<Step>, g: Goal)
    requires IsRun(s, steps) && g in After(s, steps).cancelled
    ensures g in s.cancelled || s.place == Cancelling(g) || g in s.unanswered || HadCause(s, steps, g)
    decreases |steps|
  {
    if steps != [] {
      CancelHasCause(Next(s, steps[0]), steps[1..], g);
    }
  }

  /** Only goals whose request timed out are cancelled, and the current one when the node is done. */
  lemma OnlyLateOrCurrentIsCancelled(steps: seq<Step>, g: Goal)
    requires IsRun(Initial(), steps) && g in After(Initial(), steps).cancelled
    ensures HadCause(Initial(), steps, g)
  {
    CancelHasCause(Initial(), steps, g);
  }

  lemma {:induction false} CleaningIsCalm(s: State, steps: seq<Step>)
    requires s.cleaning && IsRun(s, steps)
    ensures CalmInterrupts(s, steps)
    decreases |steps|
  {
    if steps != [] {
      CleaningIsCalm(Next(s, steps[0]), steps[1..]);
    }
  }

  lemma {:induction false} CleaningStays(s: State, steps: seq<Step>)
    requires s.cleaning && IsRun(s, steps)
    ensures After(s, steps).cleaning
    decreases |steps|
  {
    if steps != [] {
      CleaningStays(Next(s, steps[0]), steps[1..]);
    }
  }

  /** Cleanup begins once, so that a run not yet there had no interrupt. */
  lemma {:induction false} NotCleaningIsCalm(s: State, steps: seq<Step>)
    requires IsRun(s, steps) && !After(s, steps).cleaning
    ensures CalmInterrupts(s, steps)
    decreases |steps|
  {
    if steps != [] {
      var t := Next(s, steps[0]);
      if t.cleaning {
        CleaningStays(t, steps[1..]);
      }
      assert After(s, steps) == After(t, steps[1..]);
      NotCleaningIsCalm(t, steps[1..]);
    }
  }

  lemma {:induction false} RunGoesOn(s: State, steps: seq<Step>, more: seq<Step>)
    requires IsRun(s, steps)
    ensures IsRun(s, steps + more) <==> IsRun(After(s, steps), more)
    ensures IsRun(s, steps + more) ==> After(s, steps + more) == After(After(s, steps), more)
    decreases |steps|
  {
    if steps == [] {
      assert steps + more == more;
    } else {
      assert (steps + more)[1..] == steps[1..] + more;
      RunGoesOn(Next(s, steps[0]), steps[1..], more);
    }
  }

  lemma RunIsInterrupted(s: State, steps: seq<Step>, more: seq<Step>)
    requires IsRun(s, steps) && !After(s, steps).cleaning
    ensures IsRun(s, steps + [Interrupt] + more) <==> IsRun(Next(After(s, steps), Interrupt), more)
    ensures IsRun(s, steps + [Interrupt] + more) ==>
              After(s, steps + [Interrupt] + more) == After(Next(After(s, steps), Interrupt), more)
  {
    RunGoesOn(s, steps, [Interrupt] + more);
    assert steps + [Interrupt] + more == steps + ([Interrupt] + more);
    assert ([Interrupt] + more)[1..] == more;
  }

  lemma ExposedIsLost(s: State) returns (steps: seq<Step>)
    requires Invariant(s) && !s.cleaning && Exposed(s)
    ensures IsRun(Next(s, Interrupt), steps) && !Safe(After(Next(s, Interrupt), steps))
  {
    var t, g := Next(s, Interrupt), s.place.goal;
    if s.executing == Some(g) {
      steps := [];
    } else {
      steps := [Accept(g)];
      assert steps[1..] == [];
      assert After(t, steps) == After(Next(t, Accept(g)), []);
    }
  }

  /** Everything after an interrupt is safe exactly when it did not expose a goal. */
  lemma InterruptIsSafeIff(s: State)
    requires Invariant(s) && !s.cleaning
    ensures (forall steps :: IsRun(Next(s, Interrupt), steps) ==> Safe(After(Next(s, Interrupt), steps))) <==> !Exposed(s)
  {
    if Exposed(s) {
      var steps := ExposedIsLost(s);
    } else {
      InterruptKeepsInvariant(s);
      forall steps | IsRun(Next(s, Interrupt), steps)
        ensures Safe(After(Next(s, Interrupt), steps))
      {
        CleaningIsCalm(Next(s, Interrupt), steps);
        CalmRunKeepsInvariant(Next(s, Interrupt), steps);
      }
    }
  }

  /** The same of every mission: interrupted after any steps, it keeps its goals exactly when none is exposed there. */
  lemma InterruptedMissionIsSafeIff(steps: seq<Step>)
    requires IsRun(Initial(), steps) && !After(Initial(), steps).cleaning
    ensures (forall more :: IsRun(Initial(), steps + [Interrupt] + more) ==>
                              Safe(After(Initial(), steps + [Interrupt] + more)))
            <==> !Exposed(After(Initial(), steps))
  {
    var s := After(Initial(), steps);
    NotCleaningIsCalm(Initial(), steps);
    CalmRunKeepsInvariant(Initial(), steps);
    InterruptIsSafeIff(s);
    if Exposed(s) {
      var more := ExposedIsLost(s);
      RunIsInterrupted(Initial(), steps, more);
    } else {
      forall more | IsRun(Initial(), steps + [Interrupt] + more)
        ensures Safe(After(Initial(), steps + [Interrupt] + more))
      {
        RunIsInterrupted(Initial(), steps, more);
      }
    }
  }

  /** Such a mission: Ctrl+C while the first answer is awaited, and Nav2 accepts after all. */
  lemma LostGoalExample()
    ensures IsRun(Initial(), [Send, Interrupt, Accept(0)])
    ensures After(Initial(), [Send, Interrupt, Accept(0)]).executing == Some(0)
    ensures !Safe(After(Initial(), [Send, Interrupt, Accept(0)]))
  {
    var s1 := Next(Initial(), Send);
    var s2 := Next(s1, Interrupt);
    var s3 := Next(s2, Accept(0));
    var steps := [Send, Interrupt, Accept(0)];
    assert steps[1..] == [Interrupt, Accept(0)] && steps[1..][1..] == [Accept(0)] && steps[1..][1..][1..] == [];
    assert After(s2, [Accept(0)]) == After(s3, []);
    assert After(s1, [Interrupt, Accept(0)]) == After(s2, [Accept(0)]);
  }

  // ---------------------------------------------------------------------------------------
  // The node
  // ---------------------------------------------------------------------------------------

  /** The requests still without an answer. */
  function Unanswered(requests: seq<Goal>, answers: map<Goal, bool>): seq<Goal> {
    if requests == [] then []
    else
      var g := requests[|requests| - 1];
      Unanswered(requests[..|requests| - 1], answers) + if g in answers then [] else [g]
  }

  /** Those that were accepted after all. */
  function LateAccepted(requests: seq<Goal>, answers: map<Goal, bool>): seq<Goal> {
    if requests == [] then []
    else
      var g := requests[|requests| - 1];
      LateAccepted(requests[..|requests| - 1], answers) + if g in answers && answers[g] then [g] else []
  }

  function Times(goals: seq<Goal>, g: Goal): nat {
    if goals == [] then 0
    else Times(goals[..|goals| - 1], g) + if goals[|goals| - 1] == g then 1 else 0
  }

  lemma TimesLast(goals: seq<Goal>, last: Goal, g: Goal)
    ensures Times(goals + [last], g) == Times(goals, g) + if last == g then 1 else 0
    ensures Times(goals + [], g) == Times(goals, g)
  {
    assert (goals + [last])[..|goals|] == goals && goals + [] == goals;
  }

  /** The requests stay that have no answer, and the goals of those that were accepted are cancelled, each once. */
  lemma {:induction false} LateRequestsLeave(requests: seq<Goal>, answers: map<Goal, bool>, g: Goal)
    ensures Times(Unanswered(requests, answers), g) == if g in answers then 0 else Times(requests, g)
    ensures Times(LateAccepted(requests, answers), g) == if g in answers && answers[g] then Times(requests, g) else 0
    decreases |requests|
  {
    if requests != [] {
      var n := |requests| - 1;
      LateRequestsLeave(requests[..n], answers, g);
      TimesLast(Unanswered(requests[..n], answers), requests[n], g);
      TimesLast(LateAccepted(requests[..n], answers), requests[n], g);
    }
  }

  lemma LateNext(requests: seq<Goal>, answers: map<Goal, bool>, k: nat)
    requires k < |requests|
    ensures Unanswered(requests[..k + 1], answers)
         == if requests[k] in answers then Unanswered(requests[..k], answers)
            else Unanswered(requests[..k], answers) + [requests[k]]
    ensures LateAccepted(requests[..k + 1], answers)
         == if requests[k] in answers && answers[requests[k]] then LateAccepted(requests[..k], answers) + [requests[k]]
            else LateAccepted(requests[..k], answers)
  {
    assert requests[..k + 1][..k] == requests[..k];
  }

  lemma {:induction false} UnansweredHas(requests: seq<Goal>, answers: map<Goal, bool>, g: Goal)
    ensures g in Unanswered(requests, answers) <==> g in requests && g !in answers
    ensures g in LateAccepted(requests, answers) <==> g in requests && g in answers && answers[g]
    decreases |requests|
  {
    if requests != [] {
      var n := |requests| - 1;
      UnansweredHas(requests[..n], answers, g);
      assert g in requests <==> g in requests[..n] || g == requests[n];
    }
  }

  class WaypointMission {
    var currentHandle: Option<Goal>
    var unanswered: seq<Goal>
    /** The goals for which a cancel was sent. */
    var cancels: seq<Goal>

    constructor ()
      ensures currentHandle == None && unanswered == [] && cancels == []
    {
      currentHandle, unanswered, cancels := None, [], [];
    }

    /** `send_action`; `answer` is what Nav2 says within five seconds. */
    method SendAction(request: Goal, answer: Option<bool>) returns (handle: Option<Goal>)
      modifies this
      ensures cancels == old(cancels)
      ensures unanswered == old(unanswered) + if answer.None? then [request] else []
      ensures if answer == Some(true) then handle == currentHandle == Some(request)
              else handle == None && currentHandle == old(currentHandle)
    {
      if answer.None? {
        unanswered := unanswered + [request];
        return None;
      }
      if !answer.value {
        return None;
      }
      currentHandle := Some(request);
      handle := Some(request);
    }

    /** `list.remove`. */
    method Remove(request: Goal, ghost before: seq<Goal>, ghost after: seq<Goal>)
      requires unanswered == before + [request] + after && request !in before
      modifies `unanswered
      ensures unanswered == before + after
    {
      var i := 0;
      assert unanswered[|before|] == request;
      while unanswered[i] != request
        invariant 0 <= i <= |before| && request !in unanswered[..i]
        decreases |before| - i
      {
        assert unanswered[..i + 1] == unanswered[..i] + [unanswered[i]];
        i := i + 1;
      }
      unanswered := unanswered[..i] + unanswered[i + 1..];
    }

    /** One request of the snapshot: off the list if there is an answer, and cancelled if that is a yes. */
    method CancelIfLate(all: seq<Goal>, k: nat, answers: map<Goal, bool>, ghost before: seq<Goal>)
      requires k < |all| && unanswered == Unanswered(all[..k], answers) + all[k..]
      requires cancels == before + LateAccepted(all[..k], answers)
      modifies `unanswered, `cancels
      ensures unanswered == Unanswered(all[..k + 1], answers) + all[k + 1..]
      ensures cancels == before + LateAccepted(all[..k + 1], answers)
    {
      hide Unanswered, LateAccepted;
      LateNext(all, answers, k);
      UnansweredHas(all[..k], answers, all[k]);
      ghost var left, late := Unanswered(all[..k], answers), LateAccepted(all[..k], answers);
      assert all[k..] == [all[k]] + all[k + 1..];
      assert left + all[k..] == left + [all[k]] + all[k + 1..];
      if all[k] in answers {
        Remove(all[k], left, all[k + 1..]);
        if answers[all[k]] {
          cancels := cancels + [all[k]];
          assert before + late + [all[k]] == before + (late + [all[k]]);
        }
      }
    }

    /** `cancel_late_goals`: every late answer is taken off the list, and cancelled if it is a yes. */
    method CancelLateGoals(answers: map<Goal, bool>)
      modifies `unanswered, `cancels
      ensures unanswered == Unanswered(old(unanswered), answers)
      ensures cancels == old(cancels) + LateAccepted(old(unanswered), answers)
    {
      var all := unanswered;
      var k := 0;
      assert Unanswered(all[..0], answers) == [] && LateAccepted(all[..0], answers) == [];
      hide Unanswered, LateAccepted;
      assert all[0..] == all && [] + all == all && cancels + [] == cancels;
      while k < |all|
        invariant 0 <= k <= |all| && unanswered == Unanswered(all[..k], answers) + all[k..]
        invariant cancels == old(cancels) + LateAccepted(all[..k], answers)
      {
        CancelIfLate(all, k, answers, old(cancels));
        k := k + 1;
      }
      assert all[..k] == all && all[k..] == [] && unanswered + [] == unanswered;
    }

    method CancelCurrent()
      modifies `cancels
      ensures cancels == old(cancels) + if currentHandle.Some? then [currentHandle.value] else []
    {
      if currentHandle.Some? {
        cancels := cancels + [currentHandle.value];
      }
    }

    /** One round of `cleanup`: what was on the list is still unanswered, refused, or cancelled. */
    method CleanupRound(answers: map<Goal, bool>)
      modifies `unanswered, `cancels
      ensures forall g <- old(unanswered) ::
                if g !in answers then g in unanswered else if answers[g] then g in cancels else true
      ensures forall g <- unanswered :: g in old(unanswered) && g !in answers
      ensures forall g <- old(cancels) :: g in cancels
    {
      ghost var was := unanswered;
      CancelLateGoals(answers);
      forall g
        ensures g in unanswered <==> g in was && g !in answers
        ensures g in LateAccepted(was, answers) <==> g in was && g in answers && answers[g]
      {
        UnansweredHas(was, answers, g);
      }
    }

    /** `cleanup`: the current goal is cancelled, and what is answered before the deadline. */
    method Cleanup(rounds: seq<map<Goal, bool>>)
      modifies this
      ensures currentHandle.Some? ==> currentHandle.value in cancels
      ensures forall g <- old(unanswered), answers <- rounds | g in answers && answers[g] ::
                (exists earlier <- rounds :: g in earlier && !earlier[g]) || g in cancels
      ensures forall g <- old(cancels) :: g in cancels
    {
      CancelCurrent();
      var r := 0;
      while r < |rounds| && unanswered != []
        invariant 0 <= r <= |rounds| && (currentHandle.Some? ==> currentHandle.value in cancels)
        invariant forall g <- old(cancels) :: g in cancels
        invariant forall g <- old(unanswered) ::
                    || g in unanswered || g in cancels
                    || exists earlier <- rounds :: g in earlier && !earlier[g]
        invariant forall g <- unanswered, k | 0 <= k < r :: g !in rounds[k]
      {
        CleanupRound(rounds[r]);
        r := r + 1;
      }
    }
  }
}
