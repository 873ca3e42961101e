/**
  What a call to the key cache returns, over every run: where its key was read, how old the
  set was, and what it does behind the gate.
 */
module JwksAnswers {
  import opened Wrappers
  import opened JwksKeys
  import opened JwksCache

  // ---- what a call returns ------------------------------------------------------------

  /** The last event of the run is the one at which task `t` returned `answer`. */
  predicate Returns(decode: Decoder, run: seq<Event>, t: TaskId, answer: Answer)
    requires Run(decode, run) && run != []
  {
    && t in After(decode, run).tasks && After(decode, run).tasks[t].pc == Done(answer)
    && Live(After(decode, run[..|run| - 1]), t)
  }

  function Held(pc: Pc): Option<Key> {
    match pc
    case CheckAge(key) => Some(key)
    case RecheckAge(key) => Some(key)
    case WaitGate(held) => held
    case CheckCooldown(held) => held
    case Mark(held) => held
    case WriteMark(held, _) => held
    case Fetching(held) => held
    case _ => None
  }

  /** What a task's own event does to the key it holds. */
  lemma OwnEventAndHeldKey(decode: Decoder, s: State, e: Event, t: TaskId)
    requires Enabled(s, e) && Owns(e, t) && t in s.tasks
    ensures t in Apply(decode, s, e).tasks && Apply(decode, s, e).tasks[t].kid == s.tasks[t].kid
    ensures var held := Held(Apply(decode, s, e).tasks[t].pc);
            held.Some? ==> if s.tasks[t].pc.Start? then Lookup(s, s.tasks[t].kid) == Found(held.value)
                           else Held(s.tasks[t].pc) == held
    ensures s.tasks[t].pc.Start? ==> e == Step(t) || e == Drop(t)
  {
  }

  /** Why a call returned: each way out of it, with what was true at that instant. */
  predicate Reason(decode: Decoder, s: State, e: Event, t: TaskId, answer: Answer)
    requires t in s.tasks
  {
    var task := s.tasks[t];
    || (e == Step(t) && task.pc.CheckAge? && !Due(s.lastRefresh, MAX_AGE, s.now) && answer == Found(task.pc.key))
    || (e == Step(t) && (task.pc.RecheckCache? || task.pc.FinalRead?) && answer == Lookup(s, task.kid))
    || (e == Step(t) && task.pc.CheckCooldown? && !Due(s.lastAttempt, COOLDOWN, s.now)
        && answer == (if task.pc.held.Some? then Found(task.pc.held.value) else UnknownKid))
    || (e.FetchDone? && e.task == t && task.pc.Fetching? && Delivered(decode, e.doc).None?
        && answer == (if task.pc.held.Some? then Found(task.pc.held.value) else RefreshFailed))
  }

  lemma ReturnsForAReason(decode: Decoder, s: State, e: Event, t: TaskId, answer: Answer)
    requires Enabled(s, e) && Live(s, t)
    requires Apply(decode, s, e).tasks[t].pc == Done(answer)
    ensures Reason(decode, s, e, t, answer)
    ensures var next := Apply(decode, s, e);
            && next.cache == s.cache && next.now == s.now && next.tasks[t].kid == s.tasks[t].kid
            && next.lastRefresh == s.lastRefresh && next.lastAttempt == s.lastAttempt
  {
    if !Owns(e, t) {
      OthersLeaveTaskAlone(decode, s, e, t);
    }
  }

  predicate FirstReadOf(s: State, e: Event, t: TaskId) {
    e == Step(t) && t in s.tasks && s.tasks[t].pc.Start?
  }

  /** Event `i` is the first cache read of task `t`. */
  predicate FirstRead(decode: Decoder, run: seq<Event>, i: nat, t: TaskId)
    requires Run(decode, run) && i < |run|
  {
    FirstReadOf(At(decode, run, i), run[i], t)
  }

  /** Every task past its start has read the cache, and a held key is what it found there. */
  lemma {:induction false} HeldKeyWasRead(decode: Decoder, run: seq<Event>, t: TaskId) returns (i: nat)
    requires Run(decode, run) && t in After(decode, run).tasks
    requires !After(decode, run).tasks[t].pc.Start? && !After(decode, run).tasks[t].pc.Dropped?
    ensures i < |run| && FirstRead(decode, run, i, t)
    ensures var task := After(decode, run).tasks[t];
            Held(task.pc).Some? ==> task.kid in At(decode, run, i).cache
                                    && At(decode, run, i).cache[task.kid] == Held(task.pc).value
    ensures At(decode, run, i).tasks[t].kid == After(decode, run).tasks[t].kid
  {
    var n := |run| - 1;
    var before, e := run[..n], run[n];
    var s := After(decode, before);
    assert At(decode, run, n) == s;
    if !Owns(e, t) {
      OthersLeaveTaskAlone(decode, s, e, t);
    } else if t in s.tasks {
      OwnEventAndHeldKey(decode, s, e, t);
    }
    if Owns(e, t) && s.tasks[t].pc.Start? {
      i := n;
    } else {
      i := HeldKeyWasRead(decode, before, t);
      AtOfPrefix(decode, run, n, i);
    }
  }

  lemma {:induction false} PastFirstRead(decode: Decoder, run: seq<Event>, t: TaskId, i: nat)
    requires Run(decode, run) && i < |run| && FirstRead(decode, run, i, t)
    ensures t in After(decode, run).tasks && !After(decode, run).tasks[t].pc.Start?
  {
    var n := |run| - 1;
    var s, e := After(decode, run[..n]), run[n];
    if i < n {
      AtOfPrefix(decode, run, n, i);
      PastFirstRead(decode, run[..n], t, i);
    }
    if Owns(e, t) {
      OwnEventsMoveForward(decode, s, e, t);
    } else {
      OthersLeaveTaskAlone(decode, s, e, t);
    }
  }

  /** A call has one first read. */
  lemma FirstReadIsUnique(decode: Decoder, run: seq<Event>, t: TaskId, i: nat, j: nat)
    requires Run(decode, run) && i < |run| && j < |run| && FirstRead(decode, run, i, t) && FirstRead(decode, run, j, t)
    ensures i == j
  {
    var first, second := if i < j then i else j, if i < j then j else i;
    AtOfPrefix(decode, run, second, first);
    if first < second {
      PastFirstRead(decode, run[..second], t, first);
    }
  }

  /**
    Every key returned was the cache's entry for its name at some instant between the call's
    first cache read and its return.
   */
  lemma ReturnedKeyWasCached(decode: Decoder, run: seq<Event>, t: TaskId, key: Key) returns (i: nat, j: nat)
    requires Run(decode, run) && run != [] && Returns(decode, run, t, Found(key))
    ensures i <= j < |run| && FirstRead(decode, run, i, t)
    ensures var kid := After(decode, run).tasks[t].kid;
            kid in At(decode, run, j).cache && At(decode, run, j).cache[kid] == key
  {
    var n := |run| - 1;
    var before := run[..n];
    var s := After(decode, before);
    assert At(decode, run, n) == s;
    ReturnsForAReason(decode, s, run[n], t, Found(key));
    i := HeldKeyWasRead(decode, before, t);
    AtOfPrefix(decode, run, n, i);
    j := if Held(s.tasks[t].pc).Some? then i else n;
  }

  /** A name is reported unknown only at an instant when the cache does not have it. */
  lemma UnknownMeansAbsent(decode: Decoder, run: seq<Event>, t: TaskId)
    requires Run(decode, run) && run != [] && Returns(decode, run, t, UnknownKid)
    ensures After(decode, run).tasks[t].kid !in After(decode, run).cache
  {
    var before, e := run[..|run| - 1], run[|run| - 1];
    GateInvHolds(decode, before);
    ReturnsForAReason(decode, After(decode, before), e, t, UnknownKid);
  }

  /** A refresh error reaches the caller only after this call's own fetch brought nothing usable. */
  lemma RefreshFailedMeansOwnFetch(decode: Decoder, run: seq<Event>, t: TaskId)
    requires Run(decode, run) && run != [] && Returns(decode, run, t, RefreshFailed)
    ensures var e := run[|run| - 1]; e.FetchDone? && e.task == t && Delivered(decode, e.doc).None?
    ensures After(decode, run).tasks[t].kid !in After(decode, run).cache
  {
    var before, e := run[..|run| - 1], run[|run| - 1];
    GateInvHolds(decode, before);
    ReturnsForAReason(decode, After(decode, before), e, t, RefreshFailed);
  }

  /** The first read missed, and the call has not read the cache since. */
  predicate AfterMiss(pc: Pc) {
    pc == WaitGate(None) || pc.RecheckCache?
  }

  /** The call has a new set in hand or has found the present one fresh. */
  predicate Renewed(pc: Pc) {
    pc.Install? || pc.Stamp? || pc.WriteStamp? || pc.FinalRead?
  }

  /** At event `j` the call found the cached set younger than the maximum age, or its own fetch brought a set. */
  predicate Renews(decode: Decoder, s: State, e: Event, t: TaskId) {
    || (e == Step(t) && t in s.tasks && s.tasks[t].pc.RecheckAge? && !Due(s.lastRefresh, MAX_AGE, s.now))
    || (e.FetchDone? && e.task == t && Delivered(decode, e.doc).Some?)
  }

  lemma OwnEventAndRenewal(decode: Decoder, s: State, e: Event, t: TaskId)
    requires Enabled(s, e) && Owns(e, t) && t in s.tasks
    ensures var next := Apply(decode, s, e);
            && t in next.tasks
            && (Renewed(next.tasks[t].pc) ==> Renewed(s.tasks[t].pc) || Renews(decode, s, e, t))
            && (AfterMiss(next.tasks[t].pc) ==>
                  AfterMiss(s.tasks[t].pc) || (FirstReadOf(s, e, t) && s.tasks[t].kid !in s.cache))
  {
  }

  lemma {:induction false} MissedWasAbsent(decode: Decoder, run: seq<Event>, t: TaskId) returns (i: nat)
    requires Run(decode, run) && t in After(decode, run).tasks && AfterMiss(After(decode, run).tasks[t].pc)
    ensures i < |run| && FirstRead(decode, run, i, t)
    ensures At(decode, run, i).tasks[t].kid !in At(decode, run, i).cache
  {
    var n := |run| - 1;
    var before, e := run[..n], run[n];
    var s := After(decode, before);
    assert At(decode, run, n) == s;
    if !Owns(e, t) {
      OthersLeaveTaskAlone(decode, s, e, t);
    } else if t in s.tasks {
      OwnEventAndRenewal(decode, s, e, t);
    }
    if t in s.tasks && FirstReadOf(s, e, t) && s.tasks[t].kid !in s.cache {
      i := n;
    } else {
      i := MissedWasAbsent(decode, before, t);
      AtOfPrefix(decode, run, n, i);
    }
  }

  lemma {:induction false} RenewedAtSomeEvent(decode: Decoder, run: seq<Event>, t: TaskId) returns (j: nat)
    requires Run(decode, run) && t in After(decode, run).tasks && Renewed(After(decode, run).tasks[t].pc)
    ensures j < |run| && Renews(decode, At(decode, run, j), run[j], t)
  {
    var n := |run| - 1;
    var before, e := run[..n], run[n];
    var s := After(decode, before);
    assert At(decode, run, n) == s;
    if !Owns(e, t) {
      OthersLeaveTaskAlone(decode, s, e, t);
    } else if t in s.tasks {
      OwnEventAndRenewal(decode, s, e, t);
    }
    if Renews(decode, s, e, t) {
      j := n;
    } else {
      j := RenewedAtSomeEvent(decode, before, t);
      AtOfPrefix(decode, run, n, j);
    }
  }

  /** This event writes the refresh clock. */
  predicate Stamps(s: State, e: Event) {
    e.Step? && e.task in s.tasks && s.tasks[e.task].pc.WriteStamp?
  }

  /** This event replaces the cached set. */
  predicate Installs(s: State, e: Event) {
    e.Step? && e.task in s.tasks && s.tasks[e.task].pc.Install?
  }

  predicate NotAfter(a: Option<nat>, b: Option<nat>) {
    a.Some? ==> b.Some? && a.value <= b.value
  }

  /** Only a stamp moves the refresh clock and only an install the cache. */
  lemma ClockAndCacheMove(decode: Decoder, s: State, e: Event)
    requires Enabled(s, e)
    ensures var next := Apply(decode, s, e);
            && s.now <= next.now
            && next.lastRefresh == (if Stamps(s, e) then Some(s.tasks[e.task].pc.stamp) else s.lastRefresh)
            && (!Installs(s, e) ==> next.cache == s.cache)
  {
  }

  /** A stamp about to be written is not older than the one it replaces. */
  lemma StampsMoveForward(s: State, e: Event)
    requires GateInv(s) && Enabled(s, e) && Stamps(s, e)
    ensures NotAfter(s.lastRefresh, Some(s.tasks[e.task].pc.stamp))
  {
    assert s.gate == Some(e.task);
  }

  lemma {:induction false} RefreshClockGrows(decode: Decoder, run: seq<Event>, i: nat)
    requires Run(decode, run) && i <= |run|
    ensures NotAfter(At(decode, run, i).lastRefresh, After(decode, run).lastRefresh)
    ensures At(decode, run, i).now <= After(decode, run).now
  {
    if i == |run| {
      assert run[..i] == run;
    } else {
      var n := |run| - 1;
      AtOfPrefix(decode, run, n, i);
      RefreshClockGrows(decode, run[..n], i);
      var s := After(decode, run[..n]);
      ClockAndCacheMove(decode, s, run[n]);
      if Stamps(s, run[n]) {
        GateInvHolds(decode, run[..n]);
        StampsMoveForward(s, run[n]);
      }
    }
  }

  /** A set that was due and is due no more was stamped in between, and the latest stamp stands. */
  lemma {:induction false} StampedBetween(decode: Decoder, run: seq<Event>, i: nat) returns (m: nat)
    requires Run(decode, run) && i <= |run|
    requires Due(At(decode, run, i).lastRefresh, MAX_AGE, At(decode, run, i).now)
    requires !Due(After(decode, run).lastRefresh, MAX_AGE, After(decode, run).now)
    ensures i <= m < |run| && Stamps(At(decode, run, m), run[m])
    ensures After(decode, run).lastRefresh == Some(At(decode, run, m).tasks[run[m].task].pc.stamp)
  {
    AtEnd(decode, run);
    var n := |run| - 1;
    var s := After(decode, run[..n]);
    assert At(decode, run, n) == s;
    ClockAndCacheMove(decode, s, run[n]);
    if Stamps(s, run[n]) {
      m := n;
    } else {
      AtOfPrefix(decode, run, n, i);
      m := StampedBetween(decode, run[..n], i);
      AtOfPrefix(decode, run, n, m);
    }
  }

  lemma {:induction false} InstalledBetween(decode: Decoder, run: seq<Event>, i: nat) returns (m: nat)
    requires Run(decode, run) && i <= |run| && At(decode, run, i).cache != After(decode, run).cache
    ensures i <= m < |run| && Installs(At(decode, run, m), run[m])
  {
    AtEnd(decode, run);
    var n := |run| - 1;
    var s := After(decode, run[..n]);
    assert At(decode, run, n) == s;
    if Installs(s, run[n]) {
      m := n;
    } else {
      ClockAndCacheMove(decode, s, run[n]);
      AtOfPrefix(decode, run, n, i);
      m := InstalledBetween(decode, run[..n], i);
      AtOfPrefix(decode, run, n, m);
    }
  }

  lemma ReachesAgeCheckByReading(decode: Decoder, s: State, e: Event, t: TaskId)
    requires Enabled(s, e) && t in Apply(decode, s, e).tasks && Apply(decode, s, e).tasks[t].pc.CheckAge?
    ensures FirstReadOf(s, e, t) || (t in s.tasks && s.tasks[t] == Apply(decode, s, e).tasks[t])
  {
    if t in s.tasks && !Owns(e, t) {
      OthersLeaveTaskAlone(decode, s, e, t);
    }
  }

  /** A call at its age check has been there since its first read. */
  lemma {:induction false} AtAgeCheckSinceReading(decode: Decoder, run: seq<Event>, t: TaskId, i: nat, m: nat)
    requires Run(decode, run) && t in After(decode, run).tasks && After(decode, run).tasks[t].pc.CheckAge?
    requires i < m <= |run| && FirstRead(decode, run, i, t)
    ensures t in At(decode, run, m).tasks && At(decode, run, m).tasks[t] == After(decode, run).tasks[t]
  {
    if m == |run| {
      assert run[..m] == run;
    } else {
      var n := |run| - 1;
      assert At(decode, run, n) == After(decode, run[..n]);
      ReachesAgeCheckByReading(decode, After(decode, run[..n]), run[n], t);
      if FirstReadOf(After(decode, run[..n]), run[n], t) {
        FirstReadIsUnique(decode, run, t, i, n);
      }
      AtOfPrefix(decode, run, n, i);
      AtAgeCheckSinceReading(decode, run[..n], t, i, m);
      AtOfPrefix(decode, run, n, m);
    }
  }

  /** Event `m` is another call's stamp of a refresh that is still young at the end of the run. */
  predicate YoungStamp(decode: Decoder, run: seq<Event>, t: TaskId, m: nat)
    requires Run(decode, run) && m < |run|
  {
    && Stamps(At(decode, run, m), run[m]) && run[m].task != t
    && At(decode, run, m).tasks[run[m].task].pc.stamp + MAX_AGE > After(decode, run).now
  }

  /** What a call about to check the age of its set holds, and what happened since it read it. */
  lemma AgeCheckState(decode: Decoder, run: seq<Event>, t: TaskId, i: nat)
    requires Run(decode, run) && t in After(decode, run).tasks && After(decode, run).tasks[t].pc.CheckAge?
    requires i < |run| && FirstRead(decode, run, i, t)
    ensures var read, task := At(decode, run, i), After(decode, run).tasks[t];
            Lookup(read, task.kid) == Found(task.pc.key)
  {
    var j := HeldKeyWasRead(decode, run, t);
    FirstReadIsUnique(decode, run, t, i, j);
  }

  /**
    A call whose first read hit a set past its age returns that key from its age check exactly
    when another call stamped a refresh in between that is still young: the clock it checks is
    no longer that of the set it read.
   */
  lemma OverAgeHitReturnsExactlyWhenOvertaken(decode: Decoder, run: seq<Event>, t: TaskId, i: nat)
    requires Run(decode, run) && t in After(decode, run).tasks && After(decode, run).tasks[t].pc.CheckAge?
    requires i < |run| && FirstRead(decode, run, i, t)
    requires Due(At(decode, run, i).lastRefresh, MAX_AGE, At(decode, run, i).now)
    ensures StepTask(After(decode, run), t).tasks[t].pc == Done(Found(After(decode, run).tasks[t].pc.key)) <==>
            exists m :: i < m < |run| && YoungStamp(decode, run, t, m)
  {
    var s := After(decode, run);
    if !Due(s.lastRefresh, MAX_AGE, s.now) {
      var m := StampedBetween(decode, run, i);
      assert FirstReadOf(At(decode, run, i), run[i], t);
      assert m != i;
      AtAgeCheckSinceReading(decode, run, t, i, m);
      assert YoungStamp(decode, run, t, m);
    } else if m :| i < m < |run| && YoungStamp(decode, run, t, m) {
      StampStands(decode, run, m);
    }
  }

  lemma StampStands(decode: Decoder, run: seq<Event>, m: nat)
    requires Run(decode, run) && m < |run| && Stamps(At(decode, run, m), run[m])
    ensures NotAfter(Some(At(decode, run, m).tasks[run[m].task].pc.stamp), After(decode, run).lastRefresh)
  {
    AtOfPrefix(decode, run, m + 1, m);
    assert run[..m + 1][..m] == run[..m];
    ClockAndCacheMove(decode, At(decode, run, m), run[m]);
    RefreshClockGrows(decode, run, m + 1);
  }

  /** A key returned from the age check is the cached one unless another call replaced the set in between. */
  lemma AgeCheckedKeyIsCachedOrReplaced(decode: Decoder, run: seq<Event>, t: TaskId, i: nat)
    requires Run(decode, run) && t in After(decode, run).tasks && After(decode, run).tasks[t].pc.CheckAge?
    requires i < |run| && FirstRead(decode, run, i, t)
    ensures var s := After(decode, run);
            || Lookup(s, s.tasks[t].kid) == Found(s.tasks[t].pc.key)
            || exists m :: i < m < |run| && Installs(At(decode, run, m), run[m]) && run[m].task != t
  {
    var s := After(decode, run);
    AgeCheckState(decode, run, t, i);
    if Lookup(s, s.tasks[t].kid) != Found(s.tasks[t].pc.key) {
      var m := InstalledBetween(decode, run, i);
      assert FirstReadOf(At(decode, run, i), run[i], t);
      assert m != i;
      AtAgeCheckSinceReading(decode, run, t, i, m);
      assert i < m < |run| && Installs(At(decode, run, m), run[m]) && run[m].task != t;
    }
  }

  /**
    A call whose first read hit returns either what it read, and then the set was young when
    read, or another call's refresh overtook its age check, or the refresh was throttled, or
    its own fetch failed; or it returns the entry of a set it found fresh or fetched itself.
   */
  lemma HitReturnsFreshOrExcused(decode: Decoder, run: seq<Event>, t: TaskId, key: Key) returns (i: nat, j: nat)
    requires Run(decode, run) && run != [] && Returns(decode, run, t, Found(key))
    ensures i < |run| && FirstRead(decode, run, i, t)
    ensures var s, read, e := After(decode, run), At(decode, run, i), run[|run| - 1];
            var kid := s.tasks[t].kid;
            kid in read.cache ==>
              || (&& read.cache[kid] == key
                  && (|| !Due(read.lastRefresh, MAX_AGE, read.now)
                      || (i < j < |run| && YoungStamp(decode, run, t, j))
                      || !Due(s.lastAttempt, COOLDOWN, s.now)
                      || (e.FetchDone? && e.task == t && Delivered(decode, e.doc).None?)))
              || (Lookup(s, kid) == Found(key) && j < |run| && Renews(decode, At(decode, run, j), run[j], t))
  {
    var n := |run| - 1;
    var before, e := run[..n], run[n];
    var s := After(decode, before);
    assert At(decode, run, n) == s;
    ReturnsForAReason(decode, s, e, t, Found(key));
    i := HeldKeyWasRead(decode, before, t);
    AtOfPrefix(decode, run, n, i);
    j := i;
    if s.tasks[t].pc.FinalRead? {
      j := RenewedAtSomeEvent(decode, before, t);
      AtOfPrefix(decode, run, n, j);
    } else if s.tasks[t].pc.RecheckCache? {
      var k := MissedWasAbsent(decode, before, t);
      FirstReadIsUnique(decode, before, t, i, k);
    } else if s.tasks[t].pc.CheckAge? && Due(At(decode, run, i).lastRefresh, MAX_AGE, At(decode, run, i).now) {
      OverAgeHitReturnsExactlyWhenOvertaken(decode, before, t, i);
      j :| i < j < n && YoungStamp(decode, before, t, j);
      AtOfPrefix(decode, run, n, j);
    }
  }

  // ---- behind the gate ----------------------------------------------------------------

  /** At this event a call whose first read found `key` takes the gate. */
  predicate TakesGateHolding(s: State, e: Event, t: TaskId, key: Key) {
    e == Step(t) && t in s.tasks && s.tasks[t].pc == WaitGate(Some(key))
  }

  /** Event `f` brought call `t` a usable set. */
  predicate Fetched(decode: Decoder, e: Event, t: TaskId) {
    e.FetchDone? && e.task == t && Delivered(decode, e.doc).Some?
  }

  /** On the way to its own fetch with the key the first read found. */
  predicate Carries(pc: Pc, key: Key) {
    (pc.CheckCooldown? || pc.Mark? || pc.WriteMark? || pc.Fetching?) && pc.held == Some(key)
  }

  /**
    Where a call that took the gate can be. It has yet to move; or it read the age again, and
    still past the maximum goes on to a fetch of its own, otherwise only to the cache.
   */
  predicate Stage(pc: Pc, key: Key, moved: bool, due: bool, fetched: bool) {
    if !moved then pc == RecheckAge(key)
    else if due then Carries(pc, key) || (Renewed(pc) && fetched)
    else pc == FinalRead
  }

  lemma StageMoves(decode: Decoder, s: State, e: Event, t: TaskId, key: Key, moved: bool, due: bool, fetched: bool)
    requires Enabled(s, e) && Owns(e, t) && Live(s, t) && Live(Apply(decode, s, e), t)
    requires Stage(s.tasks[t].pc, key, moved, due, fetched)
    ensures !moved ==> e == Step(t)
    ensures Stage(Apply(decode, s, e).tasks[t].pc, key, true,
                  if moved then due else Due(s.lastRefresh, MAX_AGE, s.now), fetched || (moved && Fetched(decode, e, t)))
  {
  }

  /** The age that event `m` reads is past the maximum. */
  predicate DueAt(decode: Decoder, run: seq<Event>, m: nat)
    requires Run(decode, run) && m < |run|
  {
    Due(At(decode, run, m).lastRefresh, MAX_AGE, At(decode, run, m).now)
  }

  /** The first event of `t` after `g` is `m`, if any, and `f` is a later one that fetched, if `fetched`. */
  predicate SinceTheGate(decode: Decoder, run: seq<Event>, t: TaskId, g: nat, m: nat, f: nat, fetched: bool) {
    && g < m <= |run| && (forall j :: g < j < m ==> !Owns(run[j], t))
    && (m < |run| ==> run[m] == Step(t))
    && (fetched ==> m < f < |run| && Fetched(decode, run[f], t))
  }

  lemma SinceTheGateGrows(decode: Decoder, run: seq<Event>, t: TaskId, g: nat, m: nat, f: nat, fetched: bool)
    requires run != [] && SinceTheGate(decode, run[..|run| - 1], t, g, m, f, fetched)
    ensures var n, e := |run| - 1, run[|run| - 1];
            if !Owns(e, t) then SinceTheGate(decode, run, t, g, if m == n then n + 1 else m, f, fetched)
            else if m < n && Fetched(decode, e, t) then SinceTheGate(decode, run, t, g, m, n, true)
            else m < n || e == Step(t) ==> SinceTheGate(decode, run, t, g, m, f, fetched)
  {
    var n := |run| - 1;
    assert forall j :: 0 <= j < n ==> run[..n][j] == run[j];
  }

  lemma {:induction false} CallSinceTheGate(decode: Decoder, run: seq<Event>, t: TaskId, key: Key, g: nat)
    returns (m: nat, f: nat, fetched: bool)
    requires Run(decode, run) && g < |run| && TakesGateHolding(At(decode, run, g), run[g], t, key)
    requires Live(After(decode, run), t)
    ensures SinceTheGate(decode, run, t, g, m, f, fetched)
    ensures Stage(After(decode, run).tasks[t].pc, key, m < |run|, m < |run| && DueAt(decode, run, m), fetched)
  {
    var n := |run| - 1;
    var before, e := run[..n], run[n];
    var s := After(decode, before);
    assert At(decode, run, n) == s;
    m, f, fetched := n + 1, 0, false;
    if g < n {
      AtOfPrefix(decode, run, n, g);
      StaysInTheRun(decode, before, t, g);
      LiveBefore(decode, s, e, t);
      m, f, fetched := CallSinceTheGate(decode, before, t, key, g);
      SinceTheGateGrows(decode, run, t, g, m, f, fetched);
      AtOfPrefix(decode, run, n, m);
      if Owns(e, t) {
        StageMoves(decode, s, e, t, key, m < n, m < n && DueAt(decode, run, m), fetched);
        if m < n && Fetched(decode, e, t) {
          f, fetched := n, true;
        }
      } else {
        OthersLeaveTaskAlone(decode, s, e, t);
        m := if m == n then n + 1 else m;
      }
    }
  }

  lemma StaysInTheState(decode: Decoder, s: State, e: Event, t: TaskId)
    requires Enabled(s, e) && t in s.tasks
    ensures t in Apply(decode, s, e).tasks
  {
  }

  lemma {:induction false} StaysInTheRun(decode: Decoder, run: seq<Event>, t: TaskId, g: nat)
    requires Run(decode, run) && g < |run| && t in At(decode, run, g).tasks
    ensures t in After(decode, run).tasks
  {
    var n := |run| - 1;
    if g < n {
      AtOfPrefix(decode, run, n, g);
      StaysInTheRun(decode, run[..n], t, g);
    }
    StaysInTheState(decode, After(decode, run[..n]), run[n], t);
  }

  lemma LiveBefore(decode: Decoder, s: State, e: Event, t: TaskId)
    requires Enabled(s, e) && t in s.tasks && Live(Apply(decode, s, e), t)
    ensures Live(s, t)
  {
    if !Owns(e, t) {
      OthersLeaveTaskAlone(decode, s, e, t);
    }
  }

  lemma EndsBehindTheGate(decode: Decoder, s: State, e: Event, t: TaskId, key: Key, answer: Answer)
    requires Live(s, t) && Reason(decode, s, e, t, answer)
    ensures var pc := s.tasks[t].pc;
            && !TakesGateHolding(s, e, t, key) && pc != RecheckAge(key) && (Renewed(pc) ==> pc.FinalRead?)
            && (pc.FinalRead? ==> answer == Lookup(s, s.tasks[t].kid))
            && (Carries(pc, key) ==>
                  && answer == Found(key)
                  && (|| (e == Step(t) && !Due(s.lastAttempt, COOLDOWN, s.now))
                      || (e.FetchDone? && e.task == t && Delivered(decode, e.doc).None?)))
  {
  }

  /**
    What a call that hit and took the gate at `g` answers. Its next event `m` reads the age again.
    Found young there, the answer is the cache's at its return, the key or its absence. Only if the
    age is still past the maximum can the key it first read be returned, when the attempt is
    throttled or its own fetch brings nothing; otherwise its own fetch brought a set and the
    answer is the cache's.
   */
  lemma AnswerBehindTheGate(decode: Decoder, run: seq<Event>, t: TaskId, key: Key, g: nat, answer: Answer)
    returns (m: nat, f: nat)
    requires Run(decode, run) && run != [] && Returns(decode, run, t, answer)
    requires g < |run| && TakesGateHolding(At(decode, run, g), run[g], t, key)
    ensures g < m < |run| && run[m] == Step(t) && forall j :: g < j < m ==> !Owns(run[j], t)
    ensures var s, e := After(decode, run), run[|run| - 1];
            var current := Lookup(s, s.tasks[t].kid);
            if DueAt(decode, run, m) then
              || (answer == Found(key) && e == Step(t) && !Due(s.lastAttempt, COOLDOWN, s.now))
              || (answer == Found(key) && e.FetchDone? && e.task == t && Delivered(decode, e.doc).None?)
              || (answer == current && m < f < |run| && Fetched(decode, run[f], t))
            else answer == current
  {
    var n := |run| - 1;
    var before, e := run[..n], run[n];
    var s := After(decode, before);
    assert At(decode, run, n) == s;
    ReturnsForAReason(decode, s, e, t, answer);
    EndsBehindTheGate(decode, s, e, t, key, answer);
    AtOfPrefix(decode, run, n, g);
    var fetched;
    m, f, fetched := CallSinceTheGate(decode, before, t, key, g);
    AtOfPrefix(decode, run, n, if m < n then m else 0);
  }

  /** The age check of a call at the gate with a key in hand, or on its way from there. */
  predicate Doubted(pc: Pc) {
    pc.RecheckAge? || ((pc.WaitGate? || pc.CheckCooldown? || pc.Mark? || pc.WriteMark? || pc.Fetching?) && pc.held.Some?)
  }

  /** Event `c` is the age check of call `t`, and finds the clock past the maximum. */
  predicate FindsDue(s: State, e: Event, t: TaskId) {
    e == Step(t) && t in s.tasks && s.tasks[t].pc.CheckAge? && Due(s.lastRefresh, MAX_AGE, s.now)
  }

  lemma DoubtsForAReason(decode: Decoder, s: State, e: Event, t: TaskId)
    requires Enabled(s, e) && Owns(e, t) && t in s.tasks && Doubted(Apply(decode, s, e).tasks[t].pc)
    ensures Doubted(s.tasks[t].pc) || FindsDue(s, e, t)
  {
  }

  /** A key in hand goes to the gate only past an age check that found the clock due. */
  lemma {:induction false} HitGoesToTheGateOnlyIfDue(decode: Decoder, run: seq<Event>, t: TaskId) returns (c: nat)
    requires Run(decode, run) && t in After(decode, run).tasks && Doubted(After(decode, run).tasks[t].pc)
    ensures c < |run| && FindsDue(At(decode, run, c), run[c], t)
  {
    var n := |run| - 1;
    var before, e := run[..n], run[n];
    var s := After(decode, before);
    assert At(decode, run, n) == s;
    if !Owns(e, t) {
      OthersLeaveTaskAlone(decode, s, e, t);
    } else if t in s.tasks {
      DoubtsForAReason(decode, s, e, t);
    }
    if FindsDue(s, e, t) {
      c := n;
    } else {
      c := HitGoesToTheGateOnlyIfDue(decode, before, t);
      AtOfPrefix(decode, run, n, c);
    }
  }

  /** A name is reported unknown only when throttled, or after the call found the set young or fetched one itself. */
  lemma UnknownForAReason(decode: Decoder, run: seq<Event>, t: TaskId) returns (j: nat)
    requires Run(decode, run) && run != [] && Returns(decode, run, t, UnknownKid)
    ensures var s := After(decode, run);
            || !Due(s.lastAttempt, COOLDOWN, s.now)
            || (j < |run| && Renews(decode, At(decode, run, j), run[j], t))
  {
    var n := |run| - 1;
    var before, e := run[..n], run[n];
    var s := After(decode, before);
    ReturnsForAReason(decode, s, e, t, UnknownKid);
    j := 0;
    if s.tasks[t].pc.FinalRead? {
      j := RenewedAtSomeEvent(decode, before, t);
      AtOfPrefix(decode, run, n, j);
    }
  }
}
