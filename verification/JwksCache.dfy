/**
  The JWKS key cache shared by any number of concurrent `key_for` calls.

  Every await of the source is a step boundary. An event list is a run: it says who moves, how
  far the clock advances, what each fetch brings back and which task is dropped, so statements
  about all event lists are statements about all interleavings. An assignment of
  `Instant::now()` through a lock reads the clock first and waits for the lock second, so
  reading a stamp and writing it are two steps.
 */
module JwksCache {
  import opened Wrappers
  import opened JwksKeys

  /** Nanoseconds. */
  const COOLDOWN: nat := 60_000_000_000
  const MAX_AGE: nat := 3_600_000_000_000

  type TaskId = nat
  type Cache = map<string, Key>

  datatype Answer = Found(key: Key) | UnknownKid | RefreshFailed

  /** Where a call stands; `held` is the key of a first read that hit. */
  datatype Pc =
    | Start
    | CheckAge(key: Key)
    | WaitGate(held: Option<Key>)
    | RecheckAge(key: Key)
    | RecheckCache
    | CheckCooldown(held: Option<Key>)
    | Mark(held: Option<Key>)
    | WriteMark(held: Option<Key>, stamp: nat)
    | Fetching(held: Option<Key>)
    | Install(next: Cache)
    | Stamp
    | WriteStamp(stamp: nat)
    | FinalRead
    | Done(answer: Answer)
    | Dropped

  datatype Task = Task(kid: string, pc: Pc)

  datatype State = State(
    now: nat, cache: Cache, lastRefresh: Option<nat>, lastAttempt: Option<nat>,
    gate: Option<TaskId>, tasks: map<TaskId, Task>)

  datatype Event =
    | Tick(elapsed: nat)
    | Call(task: TaskId, kid: string)
    | Step(task: TaskId)
    | FetchDone(task: TaskId, doc: Option<seq<Entry>>)
    | Drop(task: TaskId)

  const INITIAL: State := State(0, map[], None, None, None, map[])

  /** Unset, or at least `age` old. */
  predicate Due(clock: Option<nat>, age: nat, now: nat) {
    clock.None? || clock.value + age <= now
  }

  predicate Live(s: State, t: TaskId) {
    t in s.tasks && !s.tasks[t].pc.Done? && !s.tasks[t].pc.Dropped?
  }

  predicate Enabled(s: State, e: Event) {
    match e
    case Tick(_) => true
    case Call(t, _) => t !in s.tasks
    case Step(t) => Live(s, t) && !s.tasks[t].pc.Fetching? && (s.tasks[t].pc.WaitGate? ==> s.gate.None?)
    case FetchDone(t, _) => Live(s, t) && s.tasks[t].pc.Fetching?
    case Drop(t) => Live(s, t)
  }

  function Goto(s: State, t: TaskId, pc: Pc): State
    requires t in s.tasks
  {
    s.(tasks := s.tasks[t := s.tasks[t].(pc := pc)])
  }

  /** Leave, releasing the gate if it is held. */
  function Leave(s: State, t: TaskId, pc: Pc): State
    requires t in s.tasks
  {
    var left := Goto(s, t, pc);
    if s.gate == Some(t) then left.(gate := None) else left
  }

  function Lookup(s: State, kid: string): Answer {
    if kid in s.cache then Found(s.cache[kid]) else UnknownKid
  }

  function StepTask(s: State, t: TaskId): State
    requires t in s.tasks
  {
    var kid := s.tasks[t].kid;
    match s.tasks[t].pc
    case Start => Goto(s, t, if kid in s.cache then CheckAge(s.cache[kid]) else WaitGate(None))
    case CheckAge(key) =>
      if Due(s.lastRefresh, MAX_AGE, s.now) then Goto(s, t, WaitGate(Some(key))) else Leave(s, t, Done(Found(key)))
    case WaitGate(held) => Goto(s.(gate := Some(t)), t, if held.Some? then RecheckAge(held.value) else RecheckCache)
    case RecheckAge(key) => Goto(s, t, if Due(s.lastRefresh, MAX_AGE, s.now) then CheckCooldown(Some(key)) else FinalRead)
    case RecheckCache => if kid in s.cache then Leave(s, t, Done(Found(s.cache[kid]))) else Goto(s, t, CheckCooldown(None))
    case CheckCooldown(held) =>
      if Due(s.lastAttempt, COOLDOWN, s.now) then Goto(s, t, Mark(held))
      else Leave(s, t, Done(if held.Some? then Found(held.value) else UnknownKid))
    case Mark(held) => Goto(s, t, WriteMark(held, s.now))
    case WriteMark(held, stamp) => Goto(s.(lastAttempt := Some(stamp)), t, Fetching(held))
    case Install(next) => Goto(s.(cache := next), t, Stamp)
    case Stamp => Goto(s, t, WriteStamp(s.now))
    case WriteStamp(stamp) => Goto(s.(lastRefresh := Some(stamp)), t, FinalRead)
    case FinalRead => Leave(s, t, Done(Lookup(s, kid)))
    case Fetching(_) => s
    case Done(_) => s
    case Dropped => s
  }

  /** The set a fetch delivers, if it succeeded and holds a usable key. */
  function Delivered(decode: Decoder, doc: Option<seq<Entry>>): Option<Cache> {
    if doc.None? || TolerantKeys(decode, doc.value) == map[] then None else Some(TolerantKeys(decode, doc.value))
  }

  function FinishFetch(decode: Decoder, s: State, t: TaskId, doc: Option<seq<Entry>>): State
    requires t in s.tasks && s.tasks[t].pc.Fetching?
  {
    var held, next := s.tasks[t].pc.held, Delivered(decode, doc);
    if next.Some? then Goto(s, t, Install(next.value))
    else Leave(s, t, Done(if held.Some? then Found(held.value) else RefreshFailed))
  }

  function Apply(decode: Decoder, s: State, e: Event): State
    requires Enabled(s, e)
  {
    match e
    case Tick(elapsed) => s.(now := s.now + elapsed)
    case Call(t, kid) => s.(tasks := s.tasks[t := Task(kid, Start)])
    case Step(t) => StepTask(s, t)
    case FetchDone(t, doc) => FinishFetch(decode, s, t, doc)
    case Drop(t) => Leave(s, t, Dropped)
  }

  // ---- runs ---------------------------------------------------------------------------

  predicate Run(decode: Decoder, run: seq<Event>)
    decreases |run|, 0
  {
    run == [] || (Run(decode, run[..|run| - 1]) && Enabled(After(decode, run[..|run| - 1]), run[|run| - 1]))
  }

  function After(decode: Decoder, run: seq<Event>): State
    requires Run(decode, run)
    decreases |run|, 1
  {
    if run == [] then INITIAL else Apply(decode, After(decode, run[..|run| - 1]), run[|run| - 1])
  }

  lemma {:induction false} PrefixIsRun(decode: Decoder, run: seq<Event>, n: nat)
    requires Run(decode, run) && n <= |run|
    ensures Run(decode, run[..n])
  {
    if n < |run| {
      PrefixIsRun(decode, run[..|run| - 1], n);
      assert run[..|run| - 1][..n] == run[..n];
    } else {
      assert run[..n] == run;
    }
  }

  /** The state before event `i`. */
  function At(decode: Decoder, run: seq<Event>, i: nat): State
    requires Run(decode, run) && i <= |run|
  {
    PrefixIsRun(decode, run, i);
    After(decode, run[..i])
  }

  lemma AtEnd(decode: Decoder, run: seq<Event>)
    requires Run(decode, run)
    ensures At(decode, run, |run|) == After(decode, run)
  {
    assert run[..|run|] == run;
  }

  lemma AtOfPrefix(decode: Decoder, run: seq<Event>, n: nat, i: nat)
    requires Run(decode, run) && i <= n <= |run|
    ensures Run(decode, run[..n]) && At(decode, run[..n], i) == At(decode, run, i)
  {
    PrefixIsRun(decode, run, n);
    assert run[..n][..i] == run[..i];
  }

  // ---- the gate -----------------------------------------------------------------------

  predicate HoldsGate(pc: Pc) {
    pc.RecheckAge? || pc.RecheckCache? || pc.CheckCooldown? || pc.Mark? || pc.WriteMark?
    || pc.Fetching? || pc.Install? || pc.Stamp? || pc.WriteStamp? || pc.FinalRead?
  }

  /** A call past a first read that missed has not found its key since it took the gate. */
  predicate Missed(pc: Pc) {
    (pc.CheckCooldown? || pc.Mark? || pc.WriteMark? || pc.Fetching?) && pc.held.None?
  }

  /** What the call at the gate has established and no other task can undo. */
  predicate HolderOk(s: State, task: Task) {
    && (Missed(task.pc) ==> task.kid !in s.cache)
    && (task.pc.Mark? ==> Due(s.lastAttempt, COOLDOWN, s.now))
    && (task.pc.WriteMark? ==> task.pc.stamp <= s.now && Due(s.lastAttempt, COOLDOWN, task.pc.stamp))
    && (task.pc.Install? ==> task.pc.next != map[])
    && (task.pc.Stamp? || task.pc.WriteStamp? ==> s.cache != map[])
    && (task.pc.WriteStamp? ==> task.pc.stamp <= s.now && (s.lastRefresh.Some? ==> s.lastRefresh.value <= task.pc.stamp))
  }

  ghost predicate GateInv(s: State) {
    && (s.gate.Some? ==> s.gate.value in s.tasks && HolderOk(s, s.tasks[s.gate.value]))
    && (forall t :: t in s.tasks ==> (HoldsGate(s.tasks[t].pc) <==> s.gate == Some(t)))
    && ClocksOk(s)
  }

  predicate ClocksOk(s: State) {
    && (s.lastAttempt.Some? ==> s.lastAttempt.value <= s.now)
    && (s.lastRefresh.Some? ==> s.lastRefresh.value <= s.now && s.cache != map[])
  }

  /** A move of the gate's holder that keeps the gate. */
  lemma HolderMoves(s: State, next: State, t: TaskId)
    requires GateInv(s) && s.gate == Some(t) == next.gate
    requires t in next.tasks && next.tasks == s.tasks[t := next.tasks[t]]
    requires HoldsGate(next.tasks[t].pc) && HolderOk(next, next.tasks[t]) && ClocksOk(next)
    ensures GateInv(next)
  {
  }

  lemma LeaveKeepsGateInv(s: State, t: TaskId, pc: Pc)
    requires GateInv(s) && t in s.tasks && !HoldsGate(pc)
    ensures GateInv(Leave(s, t, pc))
  {
  }

  lemma ArriveKeepsGateInv(s: State, t: TaskId)
    requires GateInv(s) && Enabled(s, Step(t)) && !HoldsGate(s.tasks[t].pc)
    ensures GateInv(StepTask(s, t))
  {
    match s.tasks[t].pc
    case Start =>
    case CheckAge(_) =>
    case WaitGate(_) =>
  }

  lemma HolderStep(s: State, t: TaskId)
    requires GateInv(s) && Enabled(s, Step(t)) && HoldsGate(s.tasks[t].pc)
    ensures GateInv(StepTask(s, t))
  {
    var next := StepTask(s, t);
    var pc := s.tasks[t].pc;
    if pc.FinalRead? || (pc.RecheckCache? && next.gate.None?) || (pc.CheckCooldown? && next.gate.None?) {
      LeaveKeepsGateInv(s, t, next.tasks[t].pc);
    } else {
      HolderMoves(s, next, t);
    }
  }

  lemma ApplyKeepsGateInv(decode: Decoder, s: State, e: Event)
    requires GateInv(s) && Enabled(s, e)
    ensures GateInv(Apply(decode, s, e))
  {
    match e
    case Tick(_) =>
    case Call(_, _) =>
    case Step(t) => if HoldsGate(s.tasks[t].pc) { HolderStep(s, t); } else { ArriveKeepsGateInv(s, t); }
    case FetchDone(t, doc) =>
      if Delivered(decode, doc).Some? {
        HolderMoves(s, FinishFetch(decode, s, t, doc), t);
      } else {
        LeaveKeepsGateInv(s, t, FinishFetch(decode, s, t, doc).tasks[t].pc);
      }
    case Drop(t) => LeaveKeepsGateInv(s, t, Dropped);
  }

  lemma {:induction false} GateInvHolds(decode: Decoder, run: seq<Event>)
    requires Run(decode, run)
    ensures GateInv(After(decode, run))
  {
    if run != [] {
      GateInvHolds(decode, run[..|run| - 1]);
      ApplyKeepsGateInv(decode, After(decode, run[..|run| - 1]), run[|run| - 1]);
    }
  }

  /** At most one call is refreshing at any time, and it holds the gate. */
  lemma AttemptsNeverOverlap(decode: Decoder, run: seq<Event>, t: TaskId, u: TaskId)
    requires Run(decode, run)
    requires t in After(decode, run).tasks && HoldsGate(After(decode, run).tasks[t].pc)
    requires u in After(decode, run).tasks && HoldsGate(After(decode, run).tasks[u].pc)
    ensures t == u && After(decode, run).gate == Some(t)
  {
    GateInvHolds(decode, run);
  }

  // ---- attempts -----------------------------------------------------------------------

  /** One refresh attempt: its task, the clock it marked, and when the mark was written and the fetch began. */
  datatype Attempt = Attempt(task: TaskId, stamp: nat, start: nat)

  function Attempts(decode: Decoder, run: seq<Event>): seq<Attempt>
    requires Run(decode, run)
  {
    if run == [] then []
    else
      var n := |run| - 1;
      var s := After(decode, run[..n]);
      var before := Attempts(decode, run[..n]);
      if run[n].Step? && s.tasks[run[n].task].pc.WriteMark?
      then before + [Attempt(run[n].task, s.tasks[run[n].task].pc.stamp, s.now)]
      else before
  }

  /** The stamp after the latest attempt is a cooldown later and not before that attempt's fetch began. */
  predicate Follows(log: seq<Attempt>, stamp: nat) {
    log != [] ==> log[|log| - 1].stamp + COOLDOWN <= stamp && log[|log| - 1].start <= stamp
  }

  predicate Spaced(log: seq<Attempt>) {
    && (forall i :: 0 <= i < |log| ==> log[i].stamp <= log[i].start)
    && (forall i :: 0 < i < |log| ==> log[i - 1].stamp + COOLDOWN <= log[i].stamp && log[i - 1].start <= log[i].stamp)
  }

  /** The log agrees with the state, and a mark about to be written follows it. */
  predicate LogInv(s: State, log: seq<Attempt>) {
    && Spaced(log)
    && s.lastAttempt == (if log == [] then None else Some(log[|log| - 1].stamp))
    && (log != [] ==> log[|log| - 1].start <= s.now)
    && (s.gate.Some? && s.gate.value in s.tasks && s.tasks[s.gate.value].pc.WriteMark? ==>
          Follows(log, s.tasks[s.gate.value].pc.stamp))
  }

  lemma AppendAttempt(log: seq<Attempt>, next: Attempt)
    requires Spaced(log) && Follows(log, next.stamp) && next.stamp <= next.start
    ensures Spaced(log + [next])
  {
  }

  lemma LogInvStep(decode: Decoder, s: State, e: Event, log: seq<Attempt>)
    requires GateInv(s) && LogInv(s, log) && Enabled(s, e)
    requires !(e.Step? && s.tasks[e.task].pc.WriteMark?)
    ensures LogInv(Apply(decode, s, e), log)
  {
    match e
    case Tick(_) =>
    case Call(_, _) =>
    case Step(t) =>
    case FetchDone(t, _) =>
    case Drop(t) =>
  }

  lemma {:induction false} LogInvHolds(decode: Decoder, run: seq<Event>)
    requires Run(decode, run)
    ensures LogInv(After(decode, run), Attempts(decode, run))
  {
    if run != [] {
      var n := |run| - 1;
      var s := After(decode, run[..n]);
      var log := Attempts(decode, run[..n]);
      LogInvHolds(decode, run[..n]);
      GateInvHolds(decode, run[..n]);
      if run[n].Step? && s.tasks[run[n].task].pc.WriteMark? {
        var t := run[n].task;
        AppendAttempt(log, Attempt(t, s.tasks[t].pc.stamp, s.now));
      } else {
        LogInvStep(decode, s, run[n], log);
      }
    }
  }

  lemma {:induction false} StampsApart(log: seq<Attempt>, i: nat, j: nat)
    requires Spaced(log) && i <= j < |log|
    ensures log[i].stamp + (j - i) * COOLDOWN <= log[j].stamp
    decreases j
  {
    if i < j {
      StampsApart(log, i, j - 1);
    }
  }

  /** In every interleaving any two attempt marks are at least the cooldown apart. */
  lemma MarksAreACooldownApart(decode: Decoder, run: seq<Event>, i: nat, j: nat)
    requires Run(decode, run) && i < j < |Attempts(decode, run)|
    ensures Attempts(decode, run)[i].stamp + 60_000_000_000 <= Attempts(decode, run)[j].stamp
  {
    LogInvHolds(decode, run);
    StampsApart(Attempts(decode, run), i, j);
  }

  /** The attempts marked in the window from `from`, `width` long. */
  function MarkedWithin(log: seq<Attempt>, from: nat, width: nat): set<nat> {
    set i: nat | 0 <= i < |log| && from <= log[i].stamp <= from + width
  }

  function StartedWithin(log: seq<Attempt>, from: nat, width: nat): set<nat> {
    set i: nat | 0 <= i < |log| && from <= log[i].start <= from + width
  }

  lemma {:induction false} SpreadBoundsSize(indices: set<nat>, least: nat, size: nat)
    requires forall i :: i in indices ==> least <= i < least + size
    ensures |indices| <= size
    decreases size
  {
    if size == 0 {
      assert indices == {};
    } else {
      var rest := indices - {least + size - 1};
      SpreadBoundsSize(rest, least, size - 1);
      assert |indices| <= |rest| + 1;
    }
  }

  lemma {:induction false} LeastIndex(indices: set<nat>) returns (least: nat)
    requires indices != {}
    ensures least in indices && forall i :: i in indices ==> least <= i
  {
    least :| least in indices;
    var rest := indices - {least};
    assert indices == rest + {least};
    if rest != {} {
      var other := LeastIndex(rest);
      if other < least {
        least := other;
      }
    }
  }

  /** A window of any width holds at most width / cooldown + 1 marks. */
  lemma MarksInAWindow(decode: Decoder, run: seq<Event>, from: nat, width: nat)
    requires Run(decode, run)
    ensures |MarkedWithin(Attempts(decode, run), from, width)| <= width / COOLDOWN + 1
  {
    var log := Attempts(decode, run);
    var marked := MarkedWithin(log, from, width);
    LogInvHolds(decode, run);
    if marked != {} {
      var least := LeastIndex(marked);
      forall i | i in marked
        ensures i < least + (width / COOLDOWN + 1)
      {
        StampsApart(log, least, i);
      }
      SpreadBoundsSize(marked, least, width / COOLDOWN + 1);
    }
  }

  lemma StartsApart(log: seq<Attempt>, i: nat, j: nat)
    requires Spaced(log) && i < j < |log|
    ensures log[i].start + (j - i - 1) * COOLDOWN <= log[j].start
  {
    StampsApart(log, i + 1, j);
  }

  /** Counted by when the fetch began, a window can hold one more, since a mark is read before it is written. */
  lemma StartsInAWindow(decode: Decoder, run: seq<Event>, from: nat, width: nat)
    requires Run(decode, run)
    ensures |StartedWithin(Attempts(decode, run), from, width)| <= width / COOLDOWN + 2
  {
    var log := Attempts(decode, run);
    var started := StartedWithin(log, from, width);
    LogInvHolds(decode, run);
    if started != {} {
      var least := LeastIndex(started);
      forall i | i in started
        ensures i < least + (width / COOLDOWN + 2)
      {
        if least < i {
          StartsApart(log, least, i);
        }
      }
      SpreadBoundsSize(started, least, width / COOLDOWN + 2);
    }
  }

  // ---- whose event it is --------------------------------------------------------------

  predicate Owns(e: Event, t: TaskId) {
    !e.Tick? && e.task == t
  }

  /** A step of another task, or of the clock, leaves a task alone. */
  lemma OthersLeaveTaskAlone(decode: Decoder, s: State, e: Event, t: TaskId)
    requires Enabled(s, e) && t in s.tasks
    requires !Owns(e, t)
    ensures t in Apply(decode, s, e).tasks && Apply(decode, s, e).tasks[t] == s.tasks[t]
  {
  }

  // ---- what the cache holds -----------------------------------------------------------

  /** A set about to be installed is the usable set of a document this task fetched. */
  lemma {:induction false} NextIsFetched(decode: Decoder, run: seq<Event>, t: TaskId) returns (i: nat)
    requires Run(decode, run) && t in After(decode, run).tasks && After(decode, run).tasks[t].pc.Install?
    ensures i < |run| && run[i].FetchDone? && run[i].task == t
    ensures Delivered(decode, run[i].doc) == Some(After(decode, run).tasks[t].pc.next)
  {
    var n := |run| - 1;
    if !Owns(run[n], t) {
      OthersLeaveTaskAlone(decode, After(decode, run[..n]), run[n], t);
      i := NextIsFetched(decode, run[..n], t);
    } else {
      i := n;
    }
  }

  /** The cache is empty or exactly the usable set of one fetched document, never a mixture. */
  lemma {:induction false} CacheIsOneDocument(decode: Decoder, run: seq<Event>) returns (i: nat)
    requires Run(decode, run) && After(decode, run).cache != map[]
    ensures i < |run| && run[i].FetchDone? && Delivered(decode, run[i].doc) == Some(After(decode, run).cache)
  {
    var n := |run| - 1;
    var s := After(decode, run[..n]);
    if run[n].Step? && s.tasks[run[n].task].pc.Install? {
      i := NextIsFetched(decode, run[..n], run[n].task);
    } else {
      i := CacheIsOneDocument(decode, run[..n]);
    }
  }

  /** No fetched set is on its way into the cache or its clock. */
  ghost predicate Settled(s: State) {
    forall t :: t in s.tasks ==> !s.tasks[t].pc.Install? && !s.tasks[t].pc.Stamp? && !s.tasks[t].pc.WriteStamp?
  }

  lemma SettledStep(decode: Decoder, s: State, e: Event)
    requires Settled(s) && Enabled(s, e) && (e.FetchDone? ==> Delivered(decode, e.doc).None?)
    ensures Settled(Apply(decode, s, e))
    ensures Apply(decode, s, e).cache == s.cache && Apply(decode, s, e).lastRefresh == s.lastRefresh
  {
  }

  /** Over any stretch whose fetches all fail, neither the cache nor its refresh clock changes. */
  lemma {:induction false} FailedFetchesChangeNothing(decode: Decoder, run: seq<Event>, n: nat)
    requires Run(decode, run) && n <= |run| && Settled(At(decode, run, n))
    requires forall i :: n <= i < |run| && run[i].FetchDone? ==> Delivered(decode, run[i].doc).None?
    ensures Settled(After(decode, run))
    ensures After(decode, run).cache == At(decode, run, n).cache
    ensures After(decode, run).lastRefresh == At(decode, run, n).lastRefresh
  {
    if n == |run| {
      assert run[..n] == run;
    } else {
      var m := |run| - 1;
      AtOfPrefix(decode, run, m, n);
      FailedFetchesChangeNothing(decode, run[..m], n);
      SettledStep(decode, After(decode, run[..m]), run[m]);
    }
  }

  // ---- progress -----------------------------------------------------------------------

  /** More than the events a call still has ahead of it. */
  function Distance(pc: Pc): nat {
    match pc
    case Start => 12
    case CheckAge(_) => 11
    case WaitGate(_) => 10
    case RecheckAge(_) => 9
    case RecheckCache => 9
    case CheckCooldown(_) => 8
    case Mark(_) => 7
    case WriteMark(_, _) => 6
    case Fetching(_) => 5
    case Install(_) => 4
    case Stamp => 3
    case WriteStamp(_) => 2
    case FinalRead => 1
    case Done(_) => 0
    case Dropped => 0
  }

  function OwnEvents(run: seq<Event>, t: TaskId): nat {
    if run == [] then 0
    else
      var e := run[|run| - 1];
      OwnEvents(run[..|run| - 1], t) + (if e == Step(t) || (e.FetchDone? && e.task == t) then 1 else 0)
  }

  lemma OwnEventsMoveForward(decode: Decoder, s: State, e: Event, t: TaskId)
    requires Enabled(s, e) && Owns(e, t) && t in s.tasks
    ensures t in Apply(decode, s, e).tasks
    ensures Distance(Apply(decode, s, e).tasks[t].pc) < Distance(s.tasks[t].pc)
  {
  }

  /** A call ends within twelve events of its own, whatever the others do. */
  lemma {:induction false} CallIsBounded(decode: Decoder, run: seq<Event>, t: TaskId)
    requires Run(decode, run)
    ensures t !in After(decode, run).tasks ==> OwnEvents(run, t) == 0
    ensures t in After(decode, run).tasks ==> OwnEvents(run, t) + Distance(After(decode, run).tasks[t].pc) <= 12
  {
    if run != [] {
      var n := |run| - 1;
      var s := After(decode, run[..n]);
      CallIsBounded(decode, run[..n], t);
      if t in s.tasks {
        if Owns(run[n], t) {
          OwnEventsMoveForward(decode, s, run[n], t);
        } else {
          OthersLeaveTaskAlone(decode, s, run[n], t);
        }
      }
    }
  }

  /** A task in the log is past its mark. */
  lemma {:induction false} LoggedTaskIsPast(decode: Decoder, run: seq<Event>, i: nat)
    requires Run(decode, run) && i < |Attempts(decode, run)|
    ensures Attempts(decode, run)[i].task in After(decode, run).tasks
    ensures Distance(After(decode, run).tasks[Attempts(decode, run)[i].task].pc) <= 5
  {
    var n := |run| - 1;
    var s, e, t := After(decode, run[..n]), run[n], Attempts(decode, run)[i].task;
    if i < |Attempts(decode, run[..n])| {
      LoggedTaskIsPast(decode, run[..n], i);
    }
    if Owns(e, t) {
      OwnEventsMoveForward(decode, s, e, t);
    } else {
      OthersLeaveTaskAlone(decode, s, e, t);
    }
  }

  /** No call makes a second attempt. */
  lemma {:induction false} OneAttemptPerCall(decode: Decoder, run: seq<Event>, i: nat, j: nat)
    requires Run(decode, run) && i < j < |Attempts(decode, run)|
    ensures Attempts(decode, run)[i].task != Attempts(decode, run)[j].task
  {
    var before := run[..|run| - 1];
    if j < |Attempts(decode, before)| {
      OneAttemptPerCall(decode, before, i, j);
    } else {
      LoggedTaskIsPast(decode, before, i);
    }
  }

  /** Some call can always move: one that waits for the gate waits for a live holder that can. */
  lemma NoDeadlock(decode: Decoder, run: seq<Event>, t: TaskId) returns (e: Event)
    requires Run(decode, run) && Live(After(decode, run), t)
    ensures Enabled(After(decode, run), e) && (e.Step? || e.FetchDone?)
    ensures e.task == t || (After(decode, run).tasks[t].pc.WaitGate? && After(decode, run).gate == Some(e.task))
  {
    var s := After(decode, run);
    GateInvHolds(decode, run);
    var mover := if s.tasks[t].pc.WaitGate? && s.gate.Some? then s.gate.value else t;
    e := if s.tasks[mover].pc.Fetching? then FetchDone(mover, None) else Step(mover);
  }
}
