/**
 The wakeup protocol between lds.cpp and lddc.cpp: one producer pushes into queues and signals a
 semaphore only when it reads its count as zero; one consumer waits on it and then scans them all.
 Queues are plain sequences here, as they are for the inertial data.
 */
module Wakeup {

  /** Where the producer is: free, or between a push to `queue` and the end of its signal test. */
  datatype Producer = Ready | Pushed(queue: nat) | Testing(queue: nat) | Signalling(queue: nat)

  /** Where the consumer is: at the semaphore, before a queue of its scan, or emptying one. */
  datatype Consumer = Waiting | Scanning(next: nat) | Draining(queue: nat)

  datatype State<P> = State(queues: seq<seq<P>>, count: nat, producer: Producer, consumer: Consumer)

  datatype Step<P> =
    | Push(queue: nat, packet: P) // the packet is in the queue
    | Refuse(queue: nat)          // the queue was full
    | SeeEmpty                    // the consumer has emptied it already
    | SeeNonEmpty
    | SeeSignalled                // the count is positive: no signal
    | SeeUnsignalled
    | Signal
    | Wake
    | Skip                        // not sampling, or nothing there
    | Enter
    | Pop
    | Leave                       // the queue is seen empty
    | Finish

  predicate Enabled<P>(sampling: seq<bool>, s: State<P>, step: Step<P>) {
    match step
    case Push(i, _) => s.producer.Ready? && i < |s.queues|
    case Refuse(i) => s.producer.Ready? && i < |s.queues|
    case SeeEmpty => s.producer.Pushed? && s.producer.queue < |s.queues| && s.queues[s.producer.queue] == []
    case SeeNonEmpty => s.producer.Pushed? && s.producer.queue < |s.queues| && s.queues[s.producer.queue] != []
    case SeeSignalled => s.producer.Testing? && s.count > 0
    case SeeUnsignalled => s.producer.Testing? && s.count == 0
    case Signal => s.producer.Signalling?
    case Wake => s.consumer.Waiting? && s.count > 0
    case Skip =>
      && s.consumer.Scanning? && s.consumer.next < |s.queues| == |sampling|
      && (!sampling[s.consumer.next] || s.queues[s.consumer.next] == [])
    case Enter => s.consumer.Scanning? && s.consumer.next < |s.queues| == |sampling| && sampling[s.consumer.next]
    case Pop => s.consumer.Draining? && s.consumer.queue < |s.queues| && s.queues[s.consumer.queue] != []
    case Leave => s.consumer.Draining? && s.consumer.queue < |s.queues| && s.queues[s.consumer.queue] == []
    case Finish => s.consumer.Scanning? && s.consumer.next == |s.queues|
  }

  function Next<P>(sampling: seq<bool>, s: State<P>, step: Step<P>): State<P>
    requires Enabled(sampling, s, step)
  {
    match step
    case Push(i, p) => s.(queues := s.queues[i := s.queues[i] + [p]], producer := Pushed(i))
    case Refuse(i) => s.(producer := Testing(i))
    case SeeEmpty => s.(producer := Ready)
    case SeeNonEmpty => s.(producer := Testing(s.producer.queue))
    case SeeSignalled => s.(producer := Ready)
    case SeeUnsignalled => s.(producer := Signalling(s.producer.queue))
    case Signal => s.(count := s.count + 1, producer := Ready)
    case Wake => s.(count := s.count - 1, consumer := Scanning(0))
    case Skip => s.(consumer := Scanning(s.consumer.next + 1))
    case Enter => s.(consumer := Draining(s.consumer.next))
    case Pop => s.(queues := s.queues[s.consumer.queue := s.queues[s.consumer.queue][1..]])
    case Leave => s.(consumer := Scanning(s.consumer.queue + 1))
    case Finish => s.(consumer := Waiting)
  }

  /** The consumer's scan has yet to pass queue `i`. */
  predicate StillToReach(c: Consumer, i: nat) {
    (c.Scanning? && c.next <= i) || (c.Draining? && c.queue <= i)
  }

  /** The producer is between its push to `i` and the end of its signal test. */
  predicate StillToSignal(p: Producer, i: nat) {
    !p.Ready? && p.queue == i
  }

  /** What makes sure that queue `i` will be looked at. */
  predicate Covered<P>(s: State<P>, i: nat) {
    s.count > 0 || StillToReach(s.consumer, i) || StillToSignal(s.producer, i)
  }

  /** No wakeup is lost, and the count stays 0 or 1. */
  predicate Invariant<P>(sampling: seq<bool>, s: State<P>) {
    && |sampling| == |s.queues|
    && s.count <= 1
    && (s.producer.Signalling? ==> s.count == 0)
    && forall i | 0 <= i < |s.queues| && sampling[i] && s.queues[i] != [] :: Covered(s, i)
  }

  function Initial<P>(n: nat): State<P> {
    State(seq(n, _ => []), 0, Ready, Waiting)
  }

  lemma StepKeepsInvariant<P>(sampling: seq<bool>, s: State<P>, step: Step<P>)
    requires Invariant(sampling, s) && Enabled(sampling, s, step)
    ensures Invariant(sampling, Next(sampling, s, step))
  {
    var t := Next(sampling, s, step);
    forall i | 0 <= i < |t.queues| && sampling[i] && t.queues[i] != []
      ensures Covered(t, i)
    {
      assert s.queues[i] != [] ==> Covered(s, i);
    }
  }

  predicate IsRun<P>(sampling: seq<bool>, s: State<P>, steps: seq<Step<P>>)
    decreases |steps|
  {
    steps == [] || (Enabled(sampling, s, steps[0]) && IsRun(sampling, Next(sampling, s, steps[0]), steps[1..]))
  }

  function After<P>(sampling: seq<bool>, s: State<P>, steps: seq<Step<P>>): State<P>
    requires IsRun(sampling, s, steps)
    decreases |steps|
  {
    if steps == [] then s else After(sampling, Next(sampling, s, steps[0]), steps[1..])
  }

  lemma {:induction false} RunKeepsInvariant<P>(sampling: seq<bool>, s: State<P>, steps: seq<Step<P>>)
    requires Invariant(sampling, s) && IsRun(sampling, s, steps)
    ensures Invariant(sampling, After(sampling, s, steps))
    decreases |steps|
  {
    if steps != [] {
      StepKeepsInvariant(sampling, s, steps[0]);
      RunKeepsInvariant(sampling, Next(sampling, s, steps[0]), steps[1..]);
    }
  }

  /**
   No lost wakeup, in every interleaving: when the consumer is blocked at the semaphore and the
   producer has finished its test, every sampling queue is empty.
   */
  lemma NoLostWakeup<P>(sampling: seq<bool>, steps: seq<Step<P>>)
    requires IsRun(sampling, Initial(|sampling|), steps)
    ensures var s := After(sampling, Initial(|sampling|), steps);
            && |s.queues| == |sampling| && s.count <= 1
            && (s.consumer.Waiting? && s.count == 0 && s.producer.Ready? ==>
                  forall i | 0 <= i < |sampling| && sampling[i] :: s.queues[i] == [])
  {
    RunKeepsInvariant(sampling, Initial<P>(|sampling|), steps);
    var s := After(sampling, Initial(|sampling|), steps);
    forall i | 0 <= i < |sampling| && sampling[i] && s.consumer.Waiting? && s.count == 0 && s.producer.Ready?
      ensures s.queues[i] == []
    {
      assert s.queues[i] == [] || Covered(s, i);
    }
  }

  predicate IsConsumerStep<P>(step: Step<P>) {
    step.Wake? || step.Skip? || step.Enter? || step.Pop? || step.Leave? || step.Finish?
  }

  /** The consumer's next step, while it is not blocked. */
  function ConsumerStep<P>(sampling: seq<bool>, s: State<P>): (step: Step<P>)
    requires Invariant(sampling, s)
    requires match s.consumer
             case Waiting => s.count > 0
             case Scanning(i) => i <= |sampling|
             case Draining(i) => i < |sampling|
    ensures Enabled(sampling, s, step) && IsConsumerStep(step)
  {
    match s.consumer
    case Waiting => Wake
    case Scanning(i) => if i == |sampling| then Finish else if sampling[i] then Enter else Skip
    case Draining(i) => if s.queues[i] == [] then Leave else Pop
  }

  predicate InBounds<P>(s: State<P>) {
    (s.consumer.Scanning? ==> s.consumer.next <= |s.queues|) && (s.consumer.Draining? ==> s.consumer.queue < |s.queues|)
  }

  /** Left to itself, the consumer empties every sampling queue before it blocks. */
  lemma {:induction false} ConsumerEmptiesAll<P>(sampling: seq<bool>, s: State<P>) returns (steps: seq<Step<P>>)
    requires Invariant(sampling, s) && InBounds(s) && s.producer.Ready?
    ensures IsRun(sampling, s, steps) && forall step <- steps :: IsConsumerStep(step)
    ensures After(sampling, s, steps).consumer.Waiting? && After(sampling, s, steps).count == 0
    ensures |After(sampling, s, steps).queues| == |sampling|
    ensures forall i | 0 <= i < |sampling| && sampling[i] :: After(sampling, s, steps).queues[i] == []
    decreases s.count, !s.consumer.Waiting?,
              (match s.consumer case Waiting => 0 case Scanning(i) => |sampling| - i case Draining(i) => |sampling| - i),
              s.consumer.Scanning?, if s.consumer.Draining? then |s.queues[s.consumer.queue]| else 0
  {
    if s.consumer.Waiting? && s.count == 0 {
      steps := [];
      forall i | 0 <= i < |sampling| && sampling[i]
        ensures s.queues[i] == []
      {
        assert s.queues[i] == [] || Covered(s, i);
      }
    } else {
      var step := ConsumerStep(sampling, s);
      StepKeepsInvariant(sampling, s, step);
      steps := ConsumerEmptiesAll(sampling, Next(sampling, s, step));
      steps := [step] + steps;
    }
  }
}
