/**
 Producers, the worker thread and the controller of the logger, log.cpp:172-306, as atomic steps in
 any order: every step below is what one thread does while it holds the mutex, or what the worker
 does between two such sections. One controller calls `resume` and `pause`; producers call `add`.
 */
module LogProtocol {
  import opened LogRing

  datatype Worker = Absent | Waiting | Holding(entry: Entry) | Finished

  datatype Controller = Idle | Joining

  datatype State = State(
    ring: Ring,
    running: bool,
    worker: Worker,
    controller: Controller,
    accepted: seq<Message>, // every message added while running, in order
    printed: seq<Message>)

  datatype Step = AddStep(message: Message) | ResumeStep | PauseStep | JoinStep | TakeStep | HandleStep

  /** The worker waits for `head != tail`; the controller waits in `join` for the worker to end. */
  predicate Enabled(s: State, step: Step) {
    match step
    case AddStep(_) => true
    case ResumeStep => s.controller.Idle?
    case PauseStep => s.controller.Idle?
    case JoinStep => s.controller.Joining? && s.worker.Finished?
    case TakeStep => s.worker.Waiting? && s.ring.head != s.ring.tail
    case HandleStep => s.worker.Holding?
  }

  function Do(s: State, step: Step): (t: State)
    requires s.ring.Valid()
    ensures t.ring.Valid()
  {
    match step
    case AddStep(m) => if s.running then s.(ring := s.ring.Add(m), accepted := s.accepted + [m]) else s
    case ResumeStep => if s.running then s else s.(running := true, worker := Waiting)
    case PauseStep => if s.running then s.(running := false, ring := s.ring.MarkEnd(), controller := Joining) else s
    case JoinStep => s.(controller := Idle, worker := Absent)
    case TakeStep => s.(worker := Holding(s.ring.entries[s.ring.head]), ring := s.ring.Take())
    case HandleStep =>
      if !s.worker.Holding? then s
      else if s.worker.entry.isEnd then s.(worker := Finished)
      else s.(worker := Waiting, printed := s.printed + [s.worker.entry.message])
  }

  /** The constructor starts the worker. */
  function Start(capacity: nat): State
    requires capacity > 0
  {
    Do(State(Empty(capacity), false, Absent, Idle, [], []), ResumeStep)
  }

  ghost predicate IsRun(s: State, steps: seq<Step>)
    requires s.ring.Valid()
    decreases |steps|
  {
    steps == [] || (Enabled(s, steps[0]) && IsRun(Do(s, steps[0]), steps[1..]))
  }

  ghost function After(s: State, steps: seq<Step>): (t: State)
    requires s.ring.Valid()
    ensures t.ring.Valid()
    decreases |steps|
  {
    if steps == [] then s else After(Do(s, steps[0]), steps[1..])
  }

  // ---- what every step keeps ----

  function Messages(entries: seq<Entry>): (m: seq<Message>)
    ensures |m| == |entries|
  {
    seq(|entries|, i requires 0 <= i < |entries| => entries[i].message)
  }

  ghost predicate NoEnds(entries: seq<Entry>) {
    forall i :: 0 <= i < |entries| ==> !entries[i].isEnd
  }

  /** The message the worker has taken and not printed yet. */
  function InHand(worker: Worker): seq<Message> {
    if worker.Holding? && !worker.entry.isEnd then [worker.entry.message] else []
  }

  /** The worker has not seen an end marker. */
  predicate Working(worker: Worker) {
    worker.Waiting? || (worker.Holding? && !worker.entry.isEnd)
  }

  /** While running: printed, in hand and waiting make up what was accepted, in order. */
  ghost predicate Open(s: State)
    requires s.ring.Valid()
  {
    && s.running && s.controller.Idle? && Working(s.worker) && NoEnds(s.ring.Pending())
    && s.accepted == s.printed + InHand(s.worker) + Messages(s.ring.Pending())
  }

  /** While paused: the ring is empty and everything accepted is printed. */
  ghost predicate Closed(s: State)
    requires s.ring.Valid()
  {
    && !s.running && s.controller.Idle? && s.worker.Absent?
    && s.ring.Pending() == [] && s.accepted == s.printed
  }

  /** While `pause` waits and the marker is ahead of the worker, or the worker has it. */
  ghost predicate Draining(s: State)
    requires s.ring.Valid()
  {
    var p := s.ring.Pending();
    && !s.running && s.controller.Joining?
    && if Working(s.worker) then
         && p != [] && p[|p| - 1].isEnd && NoEnds(p[..|p| - 1])
         && s.accepted == s.printed + InHand(s.worker) + Messages(p[..|p| - 1])
       else !s.worker.Absent? && p == [] && s.accepted == s.printed
  }

  /** `pause` waits, and the worker sees an empty ring without having met the marker. */
  ghost predicate Stuck(s: State)
    requires s.ring.Valid()
  {
    && !s.running && s.controller.Joining? && Working(s.worker) && s.ring.Pending() == []
    && s.printed + InHand(s.worker) <= s.accepted
  }

  ghost predicate Inv(s: State) {
    s.ring.Valid() && (Open(s) || Closed(s) || Draining(s) || Stuck(s))
  }

  /** The ring has two free slots. */
  predicate Room(s: State)
    requires s.ring.Valid()
  {
    s.ring.Count() + 1 < |s.ring.entries|
  }

  lemma MessagesConcat(a: seq<Entry>, e: Entry)
    ensures Messages(a + [e]) == Messages(a) + [e.message]
    ensures Messages([e] + a) == [e.message] + Messages(a)
  {
  }

  lemma NoMessages()
    ensures Messages([]) == []
  {
  }

  lemma AddKeeps(s: State, m: Message)
    requires Inv(s)
    ensures Inv(Do(s, AddStep(m)))
    ensures s.running ==> Open(Do(s, AddStep(m)))
    ensures !s.running ==> Do(s, AddStep(m)) == s
  {
    hide Ring.Pending, Ring.Add, Messages;
    if s.running {
      AddAppends(s.ring, m);
      MessagesConcat(s.ring.Pending(), Entry(m, false));
    }
  }

  lemma TakeKeeps(s: State)
    requires Inv(s) && Enabled(s, TakeStep)
    ensures Open(s) ==> Open(Do(s, TakeStep))
    ensures Draining(s) ==> Draining(Do(s, TakeStep))
    ensures !Closed(s) && !Stuck(s)
  {
    hide Ring.Pending, Ring.Take, Messages;
    EmptyIff(s.ring);
    TakeFirst(s.ring);
    var p := s.ring.Pending();
    var t := Do(s, TakeStep);
    if Open(s) {
      assert p == [p[0]] + p[1..];
      MessagesConcat(p[1..], p[0]);
    } else {
      var n := |p| - 1;
      if n == 0 {
        NoMessages();
        assert p[..n] == [];
      } else {
        assert p[..n] == [p[0]] + p[1..][..n - 1];
        MessagesConcat(p[1..][..n - 1], p[0]);
      }
    }
  }

  lemma HandleKeeps(s: State)
    requires Inv(s) && Enabled(s, HandleStep)
    ensures Open(s) ==> Open(Do(s, HandleStep))
    ensures Draining(s) ==> Draining(Do(s, HandleStep))
    ensures Stuck(s) ==> Stuck(Do(s, HandleStep))
    ensures !Closed(s)
  {
    hide Ring.Pending, Messages;
  }

  /** The marker goes in behind everything, or makes the ring look empty. */
  lemma PauseKeeps(s: State)
    requires Inv(s) && Open(s)
    ensures Room(s) ==> Draining(Do(s, PauseStep))
    ensures !Room(s) ==> Stuck(Do(s, PauseStep))
  {
    hide Ring.Pending, Ring.MarkEnd, Messages;
    MarkEndAppendsIff(s.ring);
    if Room(s) {
      var p, after := s.ring.Pending(), s.ring.MarkEnd().Pending();
      assert after[..|after| - 1] == p;
    }
  }

  /** Every step keeps the invariant. */
  lemma StepKeeps(s: State, step: Step)
    requires Inv(s) && Enabled(s, step)
    ensures Inv(Do(s, step))
  {
    hide Ring.Pending, Messages, Ring.MarkEnd, Ring.Add, Ring.Take;
    match step
    case AddStep(m) => AddKeeps(s, m);
    case TakeStep => TakeKeeps(s);
    case HandleStep => HandleKeeps(s);
    case PauseStep =>
      if s.running {
        PauseKeeps(s);
      }
    case ResumeStep => NoMessages();
    case JoinStep =>
  }

  lemma {:induction false} RunKeeps(s: State, steps: seq<Step>)
    requires Inv(s) && IsRun(s, steps)
    ensures Inv(After(s, steps))
    decreases |steps|
  {
    hide Open, Closed, Draining, Stuck, Enabled, Do;
    if steps != [] {
      StepKeeps(s, steps[0]);
      RunKeeps(Do(s, steps[0]), steps[1..]);
    }
  }

  lemma StartInv(capacity: nat)
    requires capacity > 0
    ensures Inv(Start(capacity)) && Open(Start(capacity))
  {
    var s := Start(capacity);
    assert Messages([]) == [];
    assert s.accepted == s.printed + InHand(s.worker) + Messages([]);
  }

  // ---- the main statements ----

  /**
   In every interleaving: while running, the messages printed, the one in the worker's hand and those
   in the ring are the messages accepted, in order; while paused, all accepted are printed, once.
   */
  lemma {:induction false} NothingLost(capacity: nat, steps: seq<Step>)
    requires capacity > 0 && IsRun(Start(capacity), steps)
    ensures var s := After(Start(capacity), steps);
            && (s.running ==> s.accepted == s.printed + InHand(s.worker) + Messages(s.ring.Pending()))
            && (!s.running && s.controller.Idle? ==> s.printed == s.accepted && s.ring.Pending() == [])
            && (!s.running && s.controller.Joining? ==> s.printed + InHand(s.worker) <= s.accepted)
  {
    StartInv(capacity);
    RunKeeps(Start(capacity), steps);
  }

  /** When `pause` comes back, everything accepted has been printed, once and in order. */
  lemma PauseReturnsDone(s: State)
    requires Inv(s) && Enabled(s, JoinStep)
    ensures var t := Do(s, JoinStep); t.printed == t.accepted == s.accepted && t.ring.Pending() == [] && Closed(t)
  {
  }

  /** What the worker still has to do. */
  ghost function Remaining(s: State): nat
    requires s.ring.Valid()
  {
    2 * s.ring.Count() + if s.worker.Holding? then 1 else 0
  }

  predicate IsWorkerStep(step: Step) {
    step.TakeStep? || step.HandleStep?
  }

  ghost function WorkerSteps(steps: seq<Step>): nat {
    if steps == [] then 0 else (if IsWorkerStep(steps[0]) then 1 else 0) + WorkerSteps(steps[1..])
  }

  /** While draining no thread is blocked for good, and each worker step uses up one of what remains. */
  lemma DrainingMoves(s: State, step: Step)
    requires s.ring.Valid() && Draining(s)
    ensures Enabled(s, JoinStep) || Enabled(s, TakeStep) || Enabled(s, HandleStep)
    ensures Enabled(s, JoinStep) <==> Remaining(s) == 0
    ensures Enabled(s, step) && IsWorkerStep(step) ==> Draining(Do(s, step)) && Remaining(Do(s, step)) + 1 == Remaining(s)
    ensures Enabled(s, step) && !IsWorkerStep(step) && step != JoinStep ==> Do(s, step) == s
  {
    EmptyIff(s.ring);
    if step.TakeStep? && Enabled(s, step) {
      TakeKeeps(s);
      TakeFirst(s.ring);
    }
    if step.HandleStep? && Enabled(s, step) {
      HandleKeeps(s);
    }
  }

  /** However the threads are scheduled, the worker is done after just so many of its steps. */
  lemma {:induction false} DrainRun(s: State, steps: seq<Step>)
    requires s.ring.Valid() && Draining(s) && IsRun(s, steps) && JoinStep !in steps
    ensures Draining(After(s, steps)) && WorkerSteps(steps) <= Remaining(s)
    ensures Enabled(After(s, steps), JoinStep) <==> WorkerSteps(steps) == Remaining(s)
    decreases |steps|
  {
    hide Draining, Enabled, Do, Remaining;
    if steps == [] {
      DrainingMoves(s, JoinStep);
    } else {
      DrainingMoves(s, steps[0]);
      assert steps[0] in steps && forall x :: x in steps[1..] ==> x in steps;
      DrainRun(Do(s, steps[0]), steps[1..]);
    }
  }

  /** A worker left to itself gets there. */
  lemma {:induction false} DrainExists(s: State) returns (steps: seq<Step>)
    requires s.ring.Valid() && Draining(s)
    ensures IsRun(s, steps) && Enabled(After(s, steps), JoinStep)
    decreases Remaining(s)
  {
    hide Draining, Enabled, Do, Remaining;
    DrainingMoves(s, TakeStep);
    DrainingMoves(s, HandleStep);
    if Enabled(s, JoinStep) {
      steps := [];
    } else {
      var step := if Enabled(s, TakeStep) then TakeStep else HandleStep;
      var rest := DrainExists(Do(s, step));
      steps := [step] + rest;
      assert steps[1..] == rest;
    }
  }

  /** Once stuck, always stuck: no step of any thread lets `pause` come back. */
  lemma {:induction false} StuckForEver(s: State, steps: seq<Step>)
    requires s.ring.Valid() && Stuck(s) && IsRun(s, steps)
    ensures Stuck(After(s, steps)) && !Enabled(After(s, steps), JoinStep) && After(s, steps).accepted == s.accepted
    decreases |steps|
  {
    if steps != [] {
      EmptyIff(s.ring);
      var t := Do(s, steps[0]);
      if steps[0].HandleStep? {
        HandleKeeps(s);
      }
      assert Stuck(t);
      StuckForEver(t, steps[1..]);
    }
  }

  ghost predicate CanReturn(s: State)
    requires s.ring.Valid()
  {
    exists steps :: IsRun(s, steps) && Enabled(After(s, steps), JoinStep)
  }

  /**
   `pause` can come back exactly when the ring has two free slots as it is called; and then it does,
   under any schedule that lets the worker go on (`DrainRun`).
   */
  lemma PauseReturnsIff(s: State)
    requires Inv(s) && s.running
    ensures CanReturn(Do(s, PauseStep)) <==> Room(s)
  {
    assert Open(s);
    hide Draining, Stuck, Enabled;
    PauseKeeps(s);
    var t := Do(s, PauseStep);
    if Room(s) {
      var steps := DrainExists(t);
    } else {
      forall steps | IsRun(t, steps)
        ensures !Enabled(After(t, steps), JoinStep)
      {
        StuckForEver(t, steps);
      }
    }
  }

  /** Producers alone can bring the ring to one free slot: `capacity - 1` messages before the worker wakes. */
  lemma {:induction false} ProducersFill(capacity: nat, messages: seq<Message>)
    requires 0 < capacity && |messages| < capacity
    ensures var s := After(Start(capacity), Adds(messages));
            && IsRun(Start(capacity), Adds(messages)) && Inv(s) && s.running
            && s.ring.Count() == |messages| && |s.ring.entries| == capacity
            && (Room(s) <==> |messages| < capacity - 1)
    decreases |messages|
  {
    StartInv(capacity);
    if messages != [] {
      var n := |messages| - 1;
      ProducersFill(capacity, messages[..n]);
      var s := After(Start(capacity), Adds(messages[..n]));
      assert messages == messages[..n] + [messages[n]];
      AddsSnoc(Start(capacity), messages[..n], messages[n]);
      AddKeeps(s, messages[n]);
      assert messages[..n] + [messages[n]] == messages;
    }
  }

  function Adds(messages: seq<Message>): (r: seq<Step>)
    ensures |r| == |messages|
  {
    seq(|messages|, i requires 0 <= i < |messages| => AddStep(messages[i]))
  }

  lemma {:induction false} AddsSnoc(s: State, messages: seq<Message>, m: Message)
    requires s.ring.Valid() && IsRun(s, Adds(messages))
    ensures IsRun(s, Adds(messages + [m]))
    ensures After(s, Adds(messages + [m])) == Do(After(s, Adds(messages)), AddStep(m))
    decreases |messages|
  {
    var steps := Adds(messages + [m]);
    if messages == [] {
      assert steps == [AddStep(m)] && steps[1..] == [];
    } else {
      assert Adds(messages)[1..] == Adds(messages[1..]);
      assert (messages + [m])[1..] == messages[1..] + [m];
      assert steps[1..] == Adds(messages[1..] + [m]);
      AddsSnoc(Do(s, steps[0]), messages[1..], m);
    }
  }
}
