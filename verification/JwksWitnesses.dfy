/** Runs of the key cache, event by event, that show a bound or a condition is met. */
module JwksWitnesses {
  import opened Wrappers
  import opened JwksKeys
  import opened JwksCache
  import opened JwksAnswers

  // ---- the mark is read before it is written ------------------------------------------

  /** One more event, from a state to the next. */
  lemma Grow(decode: Decoder, run: seq<Event>, e: Event, from: State, to: State) returns (longer: seq<Event>)
    requires Run(decode, run) && After(decode, run) == from
    requires Enabled(from, e) && Apply(decode, from, e) == to
    ensures Run(decode, longer) && After(decode, longer) == to && longer == run + [e]
  {
    longer := run + [e];
    assert longer[..|run|] == run;
  }

  /** The same, with the attempt it may log. */
  lemma Extend(decode: Decoder, run: seq<Event>, e: Event, from: State, to: State) returns (longer: seq<Event>)
    requires Run(decode, run) && After(decode, run) == from
    requires Enabled(from, e) && Apply(decode, from, e) == to
    ensures Run(decode, longer) && After(decode, longer) == to && longer == run + [e]
    ensures Attempts(decode, longer) == Attempts(decode, run)
              + if e.Step? && from.tasks[e.task].pc.WriteMark?
                then [Attempt(e.task, from.tasks[e.task].pc.stamp, from.now)] else []
  {
    longer := Grow(decode, run, e, from, to);
    assert longer[..|run|] == run;
  }

  function With(s: State, t: TaskId, kid: string, pc: Pc): State {
    s.(tasks := s.tasks[t := Task(kid, pc)])
  }

  lemma WithStep(s: State, t: TaskId, kid: string)
    requires kid !in s.cache && Due(s.lastAttempt, COOLDOWN, s.now)
    ensures StepTask(With(s, t, kid, Start), t) == With(s, t, kid, WaitGate(None))
    ensures StepTask(With(s, t, kid, WaitGate(None)), t) == With(s.(gate := Some(t)), t, kid, RecheckCache)
    ensures StepTask(With(s, t, kid, RecheckCache), t) == With(s, t, kid, CheckCooldown(None))
    ensures StepTask(With(s, t, kid, CheckCooldown(None)), t) == With(s, t, kid, Mark(None))
    ensures StepTask(With(s, t, kid, Mark(None)), t) == With(s, t, kid, WriteMark(None, s.now))
  {
  }

  lemma WithWriteMark(s: State, t: TaskId, kid: string, stamp: nat)
    ensures StepTask(With(s, t, kid, WriteMark(None, stamp)), t)
         == With(s.(lastAttempt := Some(stamp)), t, kid, Fetching(None))
  {
  }

  /** A call whose name is not cached arrives at the gate. */
  lemma MissingCallArrives(decode: Decoder, run: seq<Event>, s: State, t: TaskId, kid: string) returns (longer: seq<Event>)
    requires Run(decode, run) && After(decode, run) == s
    requires t !in s.tasks && kid !in s.cache && s.gate.None? && Due(s.lastAttempt, COOLDOWN, s.now)
    ensures Run(decode, longer) && run <= longer && Attempts(decode, longer) == Attempts(decode, run)
    ensures After(decode, longer) == With(s.(gate := Some(t)), t, kid, RecheckCache)
  {
    WithStep(s, t, kid);
    longer := Extend(decode, run, Call(t, kid), s, With(s, t, kid, Start));
    longer := Extend(decode, longer, Step(t), With(s, t, kid, Start), With(s, t, kid, WaitGate(None)));
    longer := Extend(decode, longer, Step(t), With(s, t, kid, WaitGate(None)), With(s.(gate := Some(t)), t, kid, RecheckCache));
  }

  /** It finds the cooldown over and reads the stamp for its mark. */
  lemma MissingCallPasses(decode: Decoder, run: seq<Event>, s: State, t: TaskId, kid: string) returns (longer: seq<Event>)
    requires Run(decode, run) && After(decode, run) == With(s, t, kid, RecheckCache)
    requires kid !in s.cache && Due(s.lastAttempt, COOLDOWN, s.now)
    ensures Run(decode, longer) && run <= longer && Attempts(decode, longer) == Attempts(decode, run)
    ensures After(decode, longer) == With(s, t, kid, WriteMark(None, s.now))
  {
    WithStep(s, t, kid);
    longer := Extend(decode, run, Step(t), With(s, t, kid, RecheckCache), With(s, t, kid, CheckCooldown(None)));
    longer := Extend(decode, longer, Step(t), With(s, t, kid, CheckCooldown(None)), With(s, t, kid, Mark(None)));
    longer := Extend(decode, longer, Step(t), With(s, t, kid, Mark(None)), With(s, t, kid, WriteMark(None, s.now)));
  }

  /** It waits `delay` for the lock, writes the mark and starts its fetch. */
  lemma MissingCallMarks(decode: Decoder, run: seq<Event>, s: State, t: TaskId, kid: string, delay: nat)
    returns (longer: seq<Event>)
    requires Run(decode, run) && After(decode, run) == With(s, t, kid, WriteMark(None, s.now))
    requires kid !in s.cache && Due(s.lastAttempt, COOLDOWN, s.now)
    ensures Run(decode, longer) && run <= longer
    ensures After(decode, longer) == With(s.(now := s.now + delay, lastAttempt := Some(s.now)), t, kid, Fetching(None))
    ensures Attempts(decode, longer) == Attempts(decode, run) + [Attempt(t, s.now, s.now + delay)]
  {
    var later := s.(now := s.now + delay);
    var marked := later.(lastAttempt := Some(s.now));
    WithWriteMark(later, t, kid, s.now);
    longer := Extend(decode, run, Tick(delay), With(s, t, kid, WriteMark(None, s.now)), With(later, t, kid, WriteMark(None, s.now)));
    longer := Extend(decode, longer, Step(t), With(later, t, kid, WriteMark(None, s.now)), With(marked, t, kid, Fetching(None)));
  }

  /** Its fetch fails. */
  lemma MissingCallFails(decode: Decoder, run: seq<Event>, s: State, t: TaskId, kid: string) returns (longer: seq<Event>)
    requires Run(decode, run) && After(decode, run) == With(s, t, kid, Fetching(None)) && s.gate == Some(t)
    ensures Run(decode, longer) && run <= longer && Attempts(decode, longer) == Attempts(decode, run)
    ensures After(decode, longer) == With(s.(gate := None), t, kid, Done(RefreshFailed))
  {
    longer := Extend(decode, run, FetchDone(t, None), With(s, t, kid, Fetching(None)),
                     With(s.(gate := None), t, kid, Done(RefreshFailed)));
  }

  /** Two fetches can begin at one instant: the first was held up for a cooldown at its mark. */
  lemma StartsCanCoincide(decode: Decoder) returns (run: seq<Event>)
    ensures Run(decode, run)
    ensures var log := Attempts(decode, run); |log| == 2 && log[0].start == log[1].start
  {
    var s := INITIAL;
    run := MissingCallArrives(decode, [], s, 1, "kid");
    run := MissingCallPasses(decode, run, s.(gate := Some(1)), 1, "kid");
    run := MissingCallMarks(decode, run, s.(gate := Some(1)), 1, "kid", COOLDOWN);
    run := MissingCallFails(decode, run, s.(gate := Some(1), now := COOLDOWN, lastAttempt := Some(0)), 1, "kid");
    s := With(s.(now := COOLDOWN, lastAttempt := Some(0)), 1, "kid", Done(RefreshFailed));
    run := MissingCallArrives(decode, run, s, 2, "kid");
    run := MissingCallPasses(decode, run, s.(gate := Some(2)), 2, "kid");
    run := MissingCallMarks(decode, run, s.(gate := Some(2)), 2, "kid", 0);
  }

  // ---- the age check reads a clock that may have moved --------------------------------

  lemma WithDelivery(decode: Decoder, s: State, t: TaskId, kid: string, doc: seq<Entry>, next: Cache)
    requires Delivered(decode, Some(doc)) == Some(next)
    ensures FinishFetch(decode, With(s, t, kid, Fetching(None)), t, Some(doc)) == With(s, t, kid, Install(next))
  {
  }

  lemma WithInstall(s: State, t: TaskId, kid: string, next: Cache)
    ensures StepTask(With(s, t, kid, Install(next)), t) == With(s.(cache := next), t, kid, Stamp)
    ensures StepTask(With(s, t, kid, Stamp), t) == With(s, t, kid, WriteStamp(s.now))
  {
  }

  lemma WithWriteStamp(s: State, t: TaskId, kid: string, stamp: nat)
    ensures StepTask(With(s, t, kid, WriteStamp(stamp)), t) == With(s.(lastRefresh := Some(stamp)), t, kid, FinalRead)
    ensures s.gate == Some(t) ==>
              StepTask(With(s, t, kid, FinalRead), t) == With(s.(gate := None), t, kid, Done(Lookup(s, kid)))
  {
  }

  /** A fetched set is installed and stamped in one instant, and read. */
  lemma MissingCallRefreshes(
    decode: Decoder, run: seq<Event>, s: State, t: TaskId, kid: string, doc: seq<Entry>, next: Cache)
    returns (longer: seq<Event>)
    requires Run(decode, run) && After(decode, run) == With(s, t, kid, Fetching(None)) && s.gate == Some(t)
    requires Delivered(decode, Some(doc)) == Some(next)
    ensures var stamped := s.(cache := next, lastRefresh := Some(s.now));
            && Run(decode, longer) && run <= longer
            && After(decode, longer) == With(stamped.(gate := None), t, kid, Done(Lookup(stamped, kid)))
  {
    var installed, stamped := s.(cache := next), s.(cache := next, lastRefresh := Some(s.now));
    WithDelivery(decode, s, t, kid, doc, next);
    longer := Grow(decode, run, FetchDone(t, Some(doc)), With(s, t, kid, Fetching(None)), With(s, t, kid, Install(next)));
    WithInstall(s, t, kid, next);
    longer := Grow(decode, longer, Step(t), With(s, t, kid, Install(next)), With(installed, t, kid, Stamp));
    WithInstall(installed, t, kid, next);
    longer := Grow(decode, longer, Step(t), With(installed, t, kid, Stamp), With(installed, t, kid, WriteStamp(s.now)));
    WithWriteStamp(installed, t, kid, s.now);
    longer := Grow(decode, longer, Step(t), With(installed, t, kid, WriteStamp(s.now)), With(stamped, t, kid, FinalRead));
    WithWriteStamp(stamped, t, kid, s.now);
    longer := Grow(decode, longer, Step(t), With(stamped, t, kid, FinalRead),
                   With(stamped.(gate := None), t, kid, Done(Lookup(stamped, kid))));
  }

  /** A call whose name is not cached fetches, installs and stamps a set in one instant. */
  lemma MissingCallFetches(
    decode: Decoder, run: seq<Event>, s: State, t: TaskId, kid: string, doc: seq<Entry>, next: Cache)
    returns (longer: seq<Event>)
    requires Run(decode, run) && After(decode, run) == s
    requires t !in s.tasks && kid !in s.cache && s.gate.None? && Due(s.lastAttempt, COOLDOWN, s.now)
    requires Delivered(decode, Some(doc)) == Some(next)
    ensures var stamped := s.(cache := next, lastRefresh := Some(s.now), lastAttempt := Some(s.now));
            && Run(decode, longer) && run <= longer
            && After(decode, longer) == With(stamped, t, kid, Done(Lookup(stamped, kid)))
  {
    var held := s.(gate := Some(t));
    longer := MissingCallArrives(decode, run, s, t, kid);
    longer := MissingCallPasses(decode, longer, held, t, kid);
    longer := MissingCallMarks(decode, longer, held, t, kid, 0);
    longer := MissingCallRefreshes(decode, longer, held.(lastAttempt := Some(s.now)), t, kid, doc, next);
  }

  lemma WithHit(s: State, t: TaskId, kid: string)
    requires kid in s.cache
    ensures StepTask(With(s, t, kid, Start), t) == With(s, t, kid, CheckAge(s.cache[kid]))
  {
  }

  /** At an age check with a young clock the call returns what it holds. */
  lemma YoungClockReturns(decode: Decoder, s: State, t: TaskId, key: Key)
    requires t in s.tasks && s.tasks[t].pc == CheckAge(key) && !Due(s.lastRefresh, MAX_AGE, s.now)
    ensures Enabled(s, Step(t)) && Apply(decode, s, Step(t)) == Leave(s, t, Done(Found(key)))
  {
  }

  /**
    A call about to read its key is overtaken: it reads, another call rotates the set, and a
    cooldown later its age check finds the new set's clock young and returns the old set's key.
   */
  lemma OvertakenCallReturns(
    decode: Decoder, run: seq<Event>, s: State, t: TaskId, kid: string, u: TaskId, other: string,
    doc: seq<Entry>, next: Cache) returns (longer: seq<Event>)
    requires Run(decode, run) && After(decode, run) == With(s, t, kid, Start)
    requires kid in s.cache && u != t && u !in s.tasks && other !in s.cache && s.gate.None?
    requires Due(s.lastAttempt, COOLDOWN, s.now) && Delivered(decode, Some(doc)) == Some(next)
    ensures Run(decode, longer) && |run| + 1 < |longer| && longer[..|run|] == run && longer[|run|] == Step(t)
    ensures longer[|longer| - 1] == Step(t)
    ensures var before, after := After(decode, longer[..|longer| - 1]), After(decode, longer);
            && t in before.tasks && before.tasks[t] == Task(kid, CheckAge(s.cache[kid]))
            && t in after.tasks && after.tasks[t] == Task(kid, Done(Found(s.cache[kid])))
            && after.cache == next && after.lastAttempt == Some(s.now) && after.now == s.now + COOLDOWN
  {
    var key := s.cache[kid];
    var read := With(s, t, kid, CheckAge(key));
    WithHit(s, t, kid);
    longer := Grow(decode, run, Step(t), With(s, t, kid, Start), read);
    var early := longer;
    longer := MissingCallFetches(decode, longer, read, u, other, doc, next);
    var from := After(decode, longer);
    var later := from.(now := s.now + COOLDOWN);
    longer := Grow(decode, longer, Tick(COOLDOWN), from, later);
    var before := longer;
    YoungClockReturns(decode, later, t, key);
    longer := Grow(decode, longer, Step(t), later, Leave(later, t, Done(Found(key))));
    assert longer[..|longer| - 1] == before;
    assert longer[..|early|] == early && early[..|run|] == run;
  }

  /** One RSA key under a name. */
  function OneKey(kid: string): seq<Entry> {
    [Entry(Jwk(Some(kid), "RSA", Some("AQAB"), Some("AQAB"), None, None, None, None, None, false))]
  }

  function AnyDecoder(): Decoder {
    (text: string) => Some(3)
  }

  lemma OneKeyIsDelivered(kid: string)
    ensures Delivered(AnyDecoder(), Some(OneKey(kid))) == Some(map[kid := RsaKey("AQAB", "AQAB")])
  {
    var doc, keys := OneKey(kid), map[kid := RsaKey("AQAB", "AQAB")];
    assert Tolerant(doc[0].jwk) == doc[0].jwk;
    assert Usable(AnyDecoder(), doc[0]) == Some((kid, RsaKey("AQAB", "AQAB")));
    assert doc[..|doc| - 1] == [];
    assert TolerantKeys(AnyDecoder(), doc) == keys;
    assert kid in keys;
  }

  /**
    The key of a set past its age can be returned after a refresh removed it, by a call that
    neither was throttled nor fetched.
   */
  lemma RotatedOutKeyIsReturned() returns (i: nat, run: seq<Event>)
    ensures var decode, key := AnyDecoder(), RsaKey("AQAB", "AQAB");
            && Run(decode, run) && i < |run| && FirstRead(decode, run, i, 2)
            && Due(At(decode, run, i).lastRefresh, MAX_AGE, At(decode, run, i).now)
            && Returns(decode, run, 2, Found(key)) && After(decode, run).tasks[2].kid == "old"
            && "old" !in After(decode, run).cache
            && Due(After(decode, run).lastAttempt, COOLDOWN, After(decode, run).now)
            && After(decode, run[..|run| - 1]).tasks[2].pc == CheckAge(key) && run[|run| - 1] == Step(2)
  {
    var decode, key := AnyDecoder(), RsaKey("AQAB", "AQAB");
    OneKeyIsDelivered("old");
    OneKeyIsDelivered("new");
    run := MissingCallFetches(decode, [], INITIAL, 1, "old", OneKey("old"), map["old" := key]);
    var s := After(decode, run);
    var late := s.(now := MAX_AGE);
    run := Grow(decode, run, Tick(MAX_AGE), s, late);
    run := Grow(decode, run, Call(2, "old"), late, With(late, 2, "old", Start));
    i := |run|;
    run := OvertakenCallReturns(decode, run, late, 2, "old", 3, "new", OneKey("new"), map["new" := key]);
  }
}
