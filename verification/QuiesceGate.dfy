/**
  The pause gate between a host and a claim-based worker. The shared state is a watched cell;
  every change of it is atomic and bumps a version that sleepers compare with the one they
  last looked at. The steps below are the atomic accesses of the worker's checkpoint, of any
  number of `quiesce` calls and of `resume`, in any interleaving.
 */
module QuiesceGate {
  import opened Wrappers

  datatype Status = Running | Quiescing | Quiescent | Stopped

  /** The watched cell; `cycle` counts how often the gate has closed. */
  datatype Gate = Gate(status: Status, cycle: nat, version: nat) {
    function Become(next: Status): Gate {
      Gate(next, cycle, version + 1)
    }
  }

  /**
    Where the worker is: between claims, holding a claim, in a checkpoint (about to look at the
    gate, about to acknowledge a pause it saw, or asleep since version `seen`), on its way out
    after a cancellation, or dropped.
   */
  datatype Worker = Idle | Claiming | Looking | Acking(seen: nat) | Asleep(seen: nat) | Leaving | Dropped

  datatype Answer = Paused | GateStopped | Resumed

  /** A `quiesce` call of pause `cycle`: about to look, asleep, answered, or given up by its caller. */
  datatype Call = Polling(cycle: nat) | Sleeping(cycle: nat, seen: nat) | Answered(cycle: nat, answer: Answer) | GivenUp

  datatype State = State(gate: Gate, worker: Worker, calls: map<nat, Call>)

  const START := State(Gate(Running, 0, 0), Idle, map[])

  datatype Event =
    | Enter | Look | Ack | Wake | Settle | Abandon | Cancel | Drop
    | Quiesce(id: nat) | CallLooks(id: nat) | CallWakes(id: nat) | CallGivesUp(id: nat)
    | Resume

  // ---- the steps ----------------------------------------------------------------------

  /** What the worker makes of the status it sees: it proceeds to claim, acknowledges, or sleeps. */
  function WorkerSees(gate: Gate): Worker {
    match gate.status
    case Running => Claiming
    case Quiescing => Acking(gate.version)
    case Quiescent => Asleep(gate.version)
    case Stopped => Asleep(gate.version)
  }

  /** The gate parks only if the pause the worker saw, or a later one, is still wanted. */
  function Parked(gate: Gate): Gate {
    if gate.status == Quiescing then gate.Become(Quiescent) else gate
  }

  /** A call closes an open gate and begins a new pause; otherwise it joins the current one. */
  function Closed(gate: Gate): Gate {
    if gate.status == Running then Gate(Quiescing, gate.cycle + 1, gate.version + 1) else gate
  }

  function CallSees(cycle: nat, gate: Gate): Call {
    if gate.cycle != cycle then Answered(cycle, Resumed)
    else
      match gate.status
      case Quiescent => Answered(cycle, Paused)
      case Stopped => Answered(cycle, GateStopped)
      case Running => Answered(cycle, Resumed)
      case Quiescing => Sleeping(cycle, gate.version)
  }

  function Reopened(gate: Gate): Gate {
    if gate.status == Quiescing || gate.status == Quiescent then gate.Become(Running) else gate
  }

  /** One atomic step; an event that cannot happen in this state changes nothing. */
  function Step(s: State, e: Event): State {
    match e
    case Enter => if s.worker.Idle? then s.(worker := Looking) else s
    case Look => if s.worker == Looking then s.(worker := WorkerSees(s.gate)) else s
    case Ack => if s.worker.Acking? then s.(gate := Parked(s.gate), worker := Asleep(s.worker.seen)) else s
    case Wake => if s.worker.Asleep? && s.worker.seen != s.gate.version then s.(worker := Looking) else s
    case Settle => if s.worker.Claiming? then s.(worker := Idle) else s
    case Abandon => if s.worker.Looking? || s.worker.Asleep? then s.(worker := Idle) else s
    case Cancel => if s.worker.Looking? || s.worker.Asleep? then s.(worker := Leaving) else s
    case Drop => if s.worker.Dropped? then s else s.(gate := s.gate.Become(Stopped), worker := Dropped)
    case Quiesce(id) =>
      if id in s.calls then s
      else s.(gate := Closed(s.gate), calls := s.calls[id := Polling(Closed(s.gate).cycle)])
    case CallLooks(id) =>
      if id in s.calls && s.calls[id].Polling? then s.(calls := s.calls[id := CallSees(s.calls[id].cycle, s.gate)]) else s
    case CallWakes(id) =>
      if id in s.calls && s.calls[id].Sleeping? && s.calls[id].seen != s.gate.version
      then s.(calls := s.calls[id := Polling(s.calls[id].cycle)]) else s
    case CallGivesUp(id) =>
      if id in s.calls && !s.calls[id].Answered? then s.(calls := s.calls[id := GivenUp]) else s
    case Resume => s.(gate := Reopened(s.gate))
  }

  /** The states an interleaving goes through: one before each event and one at the end. */
  ghost predicate Run(events: seq<Event>, states: seq<State>) {
    && |states| == |events| + 1
    && states[0] == START
    && forall i :: 0 <= i < |events| ==> states[i + 1] == Step(states[i], events[i])
  }

  // ---- what every interleaving keeps --------------------------------------------------

  /** The worker is between claims, inside a checkpoint or on its way out: it holds nothing. */
  predicate IsOut(worker: Worker) {
    worker.Idle? || worker.Looking? || worker.Asleep? || worker.Leaving? || worker.Dropped?
  }

  /** A parked gate has a parked worker, only a dropped worker stops the gate, and no sleeper is ahead of the gate. */
  ghost predicate ParkInv(s: State) {
    && (s.gate.status == Quiescent ==> IsOut(s.worker))
    && (s.gate.status == Stopped <==> s.worker.Dropped?)
    && (s.worker.Acking? || s.worker.Asleep? ==> s.worker.seen <= s.gate.version)
  }

  /** No wake-up is lost: whoever sleeps on the present version sleeps for a reason that still holds. */
  ghost predicate WorkerSleepsRightly(s: State) {
    && (s.worker.Asleep? && s.worker.seen == s.gate.version ==> s.gate.status == Quiescent)
    && (s.worker.Acking? && s.worker.seen == s.gate.version ==> s.gate.status == Quiescing)
  }

  ghost predicate CallSleepsRightly(call: Call, gate: Gate) {
    call.Sleeping? ==>
      && call.seen <= gate.version && call.cycle <= gate.cycle
      && (call.seen == gate.version ==> gate.status == Quiescing && gate.cycle == call.cycle)
  }

  ghost predicate Inv(s: State) {
    && ParkInv(s) && WorkerSleepsRightly(s)
    && forall id :: id in s.calls ==> CallSleepsRightly(s.calls[id], s.gate)
  }

  lemma StepKeepsWorker(s: State, e: Event)
    requires ParkInv(s) && WorkerSleepsRightly(s)
    ensures ParkInv(Step(s, e)) && WorkerSleepsRightly(Step(s, e))
  {
  }

  /** The version never goes back, and an unchanged version means an unchanged gate. */
  lemma VersionsTell(s: State, e: Event)
    ensures Step(s, e).gate.version >= s.gate.version && Step(s, e).gate.cycle >= s.gate.cycle
    ensures Step(s, e).gate.version == s.gate.version ==> Step(s, e).gate == s.gate
  {
  }

  lemma StepKeepsCalls(s: State, e: Event, id: nat)
    requires id in s.calls ==> CallSleepsRightly(s.calls[id], s.gate)
    ensures id in Step(s, e).calls ==> CallSleepsRightly(Step(s, e).calls[id], Step(s, e).gate)
  {
    VersionsTell(s, e);
  }

  lemma StepKeepsInv(s: State, e: Event)
    requires Inv(s)
    ensures Inv(Step(s, e))
  {
    StepKeepsWorker(s, e);
    forall id | id in Step(s, e).calls ensures CallSleepsRightly(Step(s, e).calls[id], Step(s, e).gate) {
      StepKeepsCalls(s, e, id);
    }
  }

  /** In every interleaving a parked gate has a parked worker and no wake-up is lost. */
  lemma {:induction false} EveryInterleaving(events: seq<Event>, states: seq<State>, i: nat)
    requires Run(events, states) && i <= |events|
    ensures Inv(states[i])
  {
    if i > 0 {
      EveryInterleaving(events, states, i - 1);
      StepKeepsInv(states[i - 1], events[i - 1]);
    }
  }

  /** The worker's comings and goings: claims end, checkpoints begin, are abandoned or cancelled, and the gate stays as it is. */
  lemma WorkerComesAndGoes(events: seq<Event>, states: seq<State>, i: nat)
    requires Run(events, states) && i < |events|
    requires events[i] == Enter || events[i] == Settle || events[i] == Abandon || events[i] == Cancel
    ensures states[i + 1].gate == states[i].gate && states[i + 1].calls == states[i].calls
    ensures var before, now := states[i].worker, states[i + 1].worker;
            && (events[i] == Enter && before == Idle ==> now == Looking)
            && (events[i] == Settle && before == Claiming ==> now == Idle)
            && (events[i] == Abandon && (before.Looking? || before.Asleep?) ==> now == Idle)
            && (events[i] == Cancel && (before.Looking? || before.Asleep?) ==> now == Leaving)
  {
    assert states[i + 1] == Step(states[i], events[i]);
  }

  // ---- a pause holds ------------------------------------------------------------------

  /** Parked, or stopped for good. */
  ghost predicate Held(s: State) {
    (s.gate.status == Quiescent || s.gate.status == Stopped) && IsOut(s.worker)
  }

  lemma StepHolds(s: State, e: Event)
    requires Held(s) && Inv(s) && e != Resume
    ensures Held(Step(s, e))
  {
  }

  lemma {:induction false} HeldUntilResume(events: seq<Event>, states: seq<State>, i: nat, j: nat)
    requires Run(events, states) && i <= j <= |events| && Held(states[i])
    requires forall m :: i <= m < j ==> events[m] != Resume
    ensures Held(states[j])
    decreases j - i
  {
    if i < j {
      HeldUntilResume(events, states, i, j - 1);
      EveryInterleaving(events, states, j - 1);
      StepHolds(states[j - 1], events[j - 1]);
    }
  }

  /** Event `i` is the step at which the call is told that the worker has paused. */
  ghost predicate ToldPaused(events: seq<Event>, states: seq<State>, i: nat, id: nat)
    requires Run(events, states) && i < |events|
  {
    && events[i] == CallLooks(id) && id in states[i].calls && states[i].calls[id].Polling?
    && states[i + 1].calls[id] == Answered(states[i].calls[id].cycle, Paused)
  }

  /** Once a call is told that the worker has paused, the worker is out and starts no claim until a resume. */
  lemma NoClaimAfterPause(events: seq<Event>, states: seq<State>, i: nat, id: nat, j: nat)
    requires Run(events, states) && i < j <= |events| && ToldPaused(events, states, i, id)
    requires forall m :: i <= m < j ==> events[m] != Resume
    ensures IsOut(states[i].worker) && IsOut(states[j].worker) && states[j].worker != Claiming
  {
    EveryInterleaving(events, states, i);
    HeldUntilResume(events, states, i, j);
  }

  // ---- a call is told only of its own pause -------------------------------------------

  /** The gate is in pause `cycle`, closed and not stopped. */
  predicate InPause(gate: Gate, cycle: nat) {
    gate.cycle == cycle && (gate.status == Quiescing || gate.status == Quiescent)
  }

  /** Pause `cycle` is over: the gate is open after it, or in a later one, or stopped. */
  predicate PastPause(gate: Gate, cycle: nat) {
    gate.cycle > cycle || (gate.cycle == cycle && (gate.status == Running || gate.status == Stopped))
  }

  lemma PauseEndsOnce(s: State, e: Event, cycle: nat)
    requires Inv(s) && PastPause(s.gate, cycle)
    ensures PastPause(Step(s, e).gate, cycle)
  {
  }

  lemma {:induction false} PastStaysPast(events: seq<Event>, states: seq<State>, i: nat, j: nat, cycle: nat)
    requires Run(events, states) && i <= j <= |events| && PastPause(states[i].gate, cycle)
    ensures PastPause(states[j].gate, cycle)
    decreases j - i
  {
    if i < j {
      PastStaysPast(events, states, i, j - 1, cycle);
      EveryInterleaving(events, states, j - 1);
      PauseEndsOnce(states[j - 1], events[j - 1], cycle);
    }
  }

  lemma {:induction false} CyclesGrow(events: seq<Event>, states: seq<State>, i: nat, j: nat)
    requires Run(events, states) && i <= j <= |events|
    ensures states[i].gate.cycle <= states[j].gate.cycle
    decreases j - i
  {
    if i < j {
      CyclesGrow(events, states, i, j - 1);
      VersionsTell(states[j - 1], events[j - 1]);
    }
  }

  /** A call never changes the pause it waits for. */
  lemma {:induction false} CallKeepsItsCycle(events: seq<Event>, states: seq<State>, i: nat, j: nat, id: nat)
    requires Run(events, states) && i <= j <= |events|
    requires id in states[i].calls && states[i].calls[id].Polling?
    ensures id in states[j].calls
    ensures !states[j].calls[id].GivenUp? ==> states[j].calls[id].cycle == states[i].calls[id].cycle
    decreases j - i
  {
    if i < j {
      CallKeepsItsCycle(events, states, i, j - 1, id);
    }
  }

  /**
    A call that is told of a pause was made at a closed or closing gate, and the gate stayed
    closed, in one and the same pause, from the call until it was told: no resume came between.
   */
  lemma ToldOfItsOwnPause(events: seq<Event>, states: seq<State>, i: nat, j: nat, m: nat, id: nat)
    requires Run(events, states) && i < m <= j < |events|
    requires events[i] == Quiesce(id) && id !in states[i].calls && ToldPaused(events, states, j, id)
    ensures InPause(states[m].gate, states[j].calls[id].cycle)
  {
    var cycle := states[i + 1].gate.cycle;
    CallKeepsItsCycle(events, states, i + 1, j, id);
    CyclesGrow(events, states, i + 1, m);
    CyclesGrow(events, states, m, j);
    if PastPause(states[m].gate, cycle) {
      PastStaysPast(events, states, m, j, cycle);
    }
  }

  /** In pause `cycle`, or stopped in it: only a resume leads out of the first, nothing out of the second. */
  predicate NotReopened(gate: Gate, cycle: nat) {
    gate.cycle == cycle && gate.status != Running
  }

  lemma OnlyResumeReopens(s: State, e: Event, cycle: nat)
    requires NotReopened(s.gate, cycle)
    ensures NotReopened(Step(s, e).gate, cycle) || (e == Resume && InPause(s.gate, cycle))
  {
  }

  lemma {:induction false} ReopenedByAResume(events: seq<Event>, states: seq<State>, i: nat, j: nat, cycle: nat) returns (m: nat)
    requires Run(events, states) && i <= j <= |events|
    requires NotReopened(states[i].gate, cycle) && !NotReopened(states[j].gate, cycle)
    ensures i <= m < j && events[m] == Resume && InPause(states[m].gate, cycle)
    decreases j - i
  {
    if NotReopened(states[j - 1].gate, cycle) {
      OnlyResumeReopens(states[j - 1], events[j - 1], cycle);
      m := j - 1;
    } else {
      m := ReopenedByAResume(events, states, i, j - 1, cycle);
    }
  }

  /** Every call gets a true answer: paused at a parked gate, stopped once the worker is gone, resumed after a resume of its pause. */
  lemma AnswersAreTrue(events: seq<Event>, states: seq<State>, i: nat, j: nat, id: nat) returns (m: nat)
    requires Run(events, states) && i < j < |events| && events[i] == Quiesce(id) && id !in states[i].calls
    requires events[j] == CallLooks(id) && id in states[j].calls && states[j].calls[id].Polling?
    requires states[j + 1].calls[id].Answered?
    ensures var told := states[j + 1].calls[id];
            && told.cycle == states[i + 1].gate.cycle
            && match told.answer
               case Paused => states[j].gate.status == Quiescent && states[j].gate.cycle == told.cycle
               case GateStopped => states[j].worker.Dropped? && states[j].gate.cycle == told.cycle
               case Resumed => i < m < j && events[m] == Resume && InPause(states[m].gate, told.cycle)
  {
    CallKeepsItsCycle(events, states, i + 1, j, id);
    EveryInterleaving(events, states, j);
    m := 0;
    if states[j + 1].calls[id].answer.Resumed? {
      m := ReopenedByAResume(events, states, i + 1, j, states[i + 1].gate.cycle);
    }
  }

  // ---- a pause completes, whatever the others do --------------------------------------

  /** The worker's own next step inside a checkpoint. */
  function OwnMove(worker: Worker): Option<Event> {
    match worker
    case Looking => Some(Look)
    case Acking(_) => Some(Ack)
    case Asleep(_) => Some(Wake)
    case _ => None
  }

  /** How many of the events from `i` up to `j` are the worker's own next step. */
  function Turns(events: seq<Event>, states: seq<State>, i: nat, j: nat): nat
    requires i <= j <= |events| && |events| <= |states|
    decreases j
  {
    if i == j then 0
    else Turns(events, states, i, j - 1) + if OwnMove(states[j - 1].worker) == Some(events[j - 1]) then 1 else 0
  }

  /** The worker stays in its checkpoint and the host does not change its mind. */
  predicate Undisturbed(e: Event) {
    e != Resume && e != Drop && e != Cancel && e != Abandon
  }

  predicate InCheckpoint(worker: Worker) {
    worker.Looking? || worker.Acking? || worker.Asleep?
  }

  /** Own steps left until the gate is parked. */
  function ToPark(worker: Worker): nat {
    match worker
    case Asleep(_) => 3
    case Looking => 2
    case _ => 1
  }

  lemma StepTowardsParking(s: State, e: Event)
    requires Inv(s) && Undisturbed(e) && s.gate.status == Quiescing && InCheckpoint(s.worker)
    ensures var next := Step(s, e);
            && next.gate.cycle == s.gate.cycle && InCheckpoint(next.worker)
            && (next.gate.status == Quiescent ||
                (&& next.gate.status == Quiescing
                 && ToPark(next.worker) == ToPark(s.worker) - if OwnMove(s.worker) == Some(e) then 1 else 0))
  {
  }

  lemma StepStaysParked(s: State, e: Event)
    requires Inv(s) && Undisturbed(e) && s.gate.status == Quiescent && InCheckpoint(s.worker)
    ensures Step(s, e).gate.status == Quiescent && Step(s, e).gate.cycle == s.gate.cycle && InCheckpoint(Step(s, e).worker)
  {
  }

  /**
    In a closing or closed gate a worker inside a checkpoint is parked by its third own step,
    whatever the calls do in between, and stays parked.
   */
  lemma {:induction false} WorkerParks(events: seq<Event>, states: seq<State>, i: nat, j: nat)
    requires Run(events, states) && i <= j <= |events| && forall m :: i <= m < j ==> Undisturbed(events[m])
    requires InPause(states[i].gate, states[i].gate.cycle) && InCheckpoint(states[i].worker)
    ensures states[j].gate.cycle == states[i].gate.cycle && InCheckpoint(states[j].worker)
    ensures states[j].gate.status == Quiescent ||
            (states[j].gate.status == Quiescing && Turns(events, states, i, j) + ToPark(states[j].worker) <= 3)
    ensures Turns(events, states, i, j) >= 3 ==> states[j].gate.status == Quiescent
    decreases j
  {
    if i < j {
      WorkerParks(events, states, i, j - 1);
      EveryInterleaving(events, states, j - 1);
      if states[j - 1].gate.status == Quiescing {
        StepTowardsParking(states[j - 1], events[j - 1]);
      } else {
        StepStaysParked(states[j - 1], events[j - 1]);
      }
    }
  }

  /** Own steps left until the worker proceeds to claim. */
  function ToClaim(worker: Worker): nat {
    match worker
    case Acking(_) => 3
    case Asleep(_) => 2
    case _ => 1
  }

  /** The worker stays in its checkpoint and no call closes the gate. */
  predicate LeavesOpen(e: Event) {
    !e.Quiesce? && e != Drop && e != Cancel && e != Abandon
  }

  lemma StepTowardsClaiming(s: State, e: Event)
    requires Inv(s) && LeavesOpen(e) && s.gate.status == Running && InCheckpoint(s.worker)
    ensures var next := Step(s, e);
            && next.gate == s.gate
            && (next.worker.Claiming? ||
                (&& InCheckpoint(next.worker)
                 && ToClaim(next.worker) == ToClaim(s.worker) - if OwnMove(s.worker) == Some(e) then 1 else 0))
  {
  }

  /** At a reopened gate a worker inside a checkpoint proceeds to a claim by its third own step. */
  lemma {:induction false} WorkerProceeds(events: seq<Event>, states: seq<State>, i: nat, j: nat)
    requires Run(events, states) && i <= j <= |events| && forall m :: i <= m < j ==> LeavesOpen(events[m])
    requires states[i].gate.status == Running && InCheckpoint(states[i].worker)
    ensures (exists m :: i < m <= j && states[m].worker.Claiming?) ||
            (&& states[j].gate == states[i].gate && InCheckpoint(states[j].worker)
             && Turns(events, states, i, j) + ToClaim(states[j].worker) <= 3)
    ensures Turns(events, states, i, j) >= 3 ==> exists m :: i < m <= j && states[m].worker.Claiming?
    decreases j
  {
    if i < j {
      WorkerProceeds(events, states, i, j - 1);
      if forall m :: i < m <= j - 1 ==> !states[m].worker.Claiming? {
        EveryInterleaving(events, states, j - 1);
        StepTowardsClaiming(states[j - 1], events[j - 1]);
      }
    }
  }

  /** A call's own next step. */
  function CallMove(call: Call, id: nat): Option<Event> {
    match call
    case Polling(_) => Some(CallLooks(id))
    case Sleeping(_, _) => Some(CallWakes(id))
    case _ => None
  }

  function CallTurns(events: seq<Event>, states: seq<State>, id: nat, i: nat, j: nat): nat
    requires i <= j <= |events| && |events| <= |states|
    decreases j
  {
    if i == j then 0
    else
      var s := states[j - 1];
      CallTurns(events, states, id, i, j - 1)
      + if id in s.calls && CallMove(s.calls[id], id) == Some(events[j - 1]) then 1 else 0
  }

  /** Still waiting for pause `cycle`, with this many own steps left, or told of it. */
  predicate WaitsOrTold(s: State, id: nat, cycle: nat, left: nat) {
    && id in s.calls && !s.calls[id].GivenUp? && s.calls[id].cycle == cycle
    && (s.calls[id] == Answered(cycle, Paused) || (s.calls[id].Sleeping? && left >= 2) || (s.calls[id].Polling? && left >= 1))
  }

  lemma StepTowardsTelling(s: State, e: Event, id: nat, left: nat)
    requires Inv(s) && e != Resume && e != Drop && e != CallGivesUp(id)
    requires s.gate.status == Quiescent && WaitsOrTold(s, id, s.gate.cycle, left)
    ensures var next := Step(s, e);
            && next.gate.status == Quiescent && next.gate.cycle == s.gate.cycle
            && WaitsOrTold(next, id, s.gate.cycle,
                           if left > 0 && CallMove(s.calls[id], id) == Some(e) then left - 1 else left)
  {
    assert CallSleepsRightly(s.calls[id], s.gate);
  }

  /** At a parked gate a call of this pause is told so by its second own step, whatever the others do. */
  lemma {:induction false} CallIsTold(events: seq<Event>, states: seq<State>, i: nat, j: nat, id: nat)
    requires Run(events, states) && i <= j <= |events| && states[i].gate.status == Quiescent
    requires forall m :: i <= m < j ==> events[m] != Resume && events[m] != Drop && events[m] != CallGivesUp(id)
    requires WaitsOrTold(states[i], id, states[i].gate.cycle, 2)
    ensures states[j].gate.status == Quiescent && states[j].gate.cycle == states[i].gate.cycle
    ensures var turns := CallTurns(events, states, id, i, j);
            WaitsOrTold(states[j], id, states[i].gate.cycle, if turns < 2 then 2 - turns else 0)
    ensures CallTurns(events, states, id, i, j) >= 2 ==> states[j].calls[id] == Answered(states[i].gate.cycle, Paused)
    decreases j
  {
    if i < j {
      CallIsTold(events, states, i, j - 1, id);
      EveryInterleaving(events, states, j - 1);
      var turns := CallTurns(events, states, id, i, j - 1);
      StepTowardsTelling(states[j - 1], events[j - 1], id, if turns < 2 then 2 - turns else 0);
    }
  }

  // ---- whole pauses -------------------------------------------------------------------

  lemma StepKeepsWaiting(s: State, e: Event, id: nat, cycle: nat)
    requires InPause(s.gate, cycle) && WaitsOrTold(s, id, cycle, 2) && e != CallGivesUp(id)
    ensures WaitsOrTold(Step(s, e), id, cycle, 2)
  {
  }

  lemma {:induction false} CallWaitsOrIsTold(events: seq<Event>, states: seq<State>, i: nat, j: nat, id: nat, cycle: nat)
    requires Run(events, states) && i <= j <= |events| && WaitsOrTold(states[i], id, cycle, 2)
    requires forall m :: i <= m < j ==> InPause(states[m].gate, cycle) && events[m] != CallGivesUp(id)
    ensures WaitsOrTold(states[j], id, cycle, 2)
    decreases j - i
  {
    if i < j {
      CallWaitsOrIsTold(events, states, i, j - 1, id, cycle);
      StepKeepsWaiting(states[j - 1], events[j - 1], id, cycle);
    }
  }

  /**
    A call closes any gate that is not stopped, and is told of its pause once a worker inside a
    checkpoint has had three own steps and then the call two, whatever the others do meanwhile.
   */
  lemma PauseCompletes(events: seq<Event>, states: seq<State>, i: nat, j: nat, k: nat, id: nat)
    requires Run(events, states) && i < j <= k <= |events| && events[i] == Quiesce(id) && id !in states[i].calls
    requires states[i].gate.status != Stopped && InCheckpoint(states[i].worker)
    requires forall m :: i <= m < k ==> Undisturbed(events[m]) && events[m] != CallGivesUp(id)
    requires Turns(events, states, i + 1, j) >= 3 && CallTurns(events, states, id, j, k) >= 2
    ensures states[k].gate.status == Quiescent && InCheckpoint(states[k].worker)
    ensures id in states[k].calls && states[k].calls[id] == Answered(states[i + 1].gate.cycle, Paused)
  {
    var cycle := states[i + 1].gate.cycle;
    WorkerParks(events, states, i + 1, k);
    WorkerParks(events, states, i + 1, j);
    forall m | i + 1 <= m < j ensures InPause(states[m].gate, cycle) {
      WorkerParks(events, states, i + 1, m);
    }
    CallWaitsOrIsTold(events, states, i + 1, j, id, cycle);
    CallIsTold(events, states, j, k, id);
  }

  /** A resume opens any gate that is not stopped, and a worker inside a checkpoint then claims by its third own step. */
  lemma ResumeLetsTheWorkerClaim(events: seq<Event>, states: seq<State>, i: nat, j: nat)
    requires Run(events, states) && i < j <= |events| && events[i] == Resume
    requires states[i].gate.status != Stopped && InCheckpoint(states[i].worker)
    requires forall m :: i < m < j ==> LeavesOpen(events[m])
    requires Turns(events, states, i + 1, j) >= 3
    ensures exists m :: i < m <= j && states[m].worker.Claiming?
  {
    WorkerProceeds(events, states, i + 1, j);
  }
}
