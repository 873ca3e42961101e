/**
  A long-lived stream wrapped with expiry, lifetime and revocation checks. Each poll is one
  step of the environment: whether the inner stream is ready and what each timer and the
  epoch check answer if they are asked.
 */
module RevalidatedStream {
  import opened Wrappers

  datatype Poll<I> = Ready(item: Option<I>) | Pending

  /** What one poll would find. `reply` is the answer of an epoch check in flight, if it has one. */
  datatype Env = Env(ready: bool, lifetimeOver: bool, expired: bool, tick: bool, reply: Option<nat>)

  /** What never changes: the inner items, the epoch the caller was authenticated at, what is checked. */
  datatype Wrapping<I> = Wrapping(source: seq<I>, epoch: nat, expires: bool, authenticated: bool)

  datatype State = State(pos: nat, checking: bool, closing: bool, closed: bool)

  const START := State(0, false, false, false)

  // ---- one poll -----------------------------------------------------------------------

  /** Does this observation end the stream, and is an epoch check in flight after it? */
  function Observe(w: Wrapping, checking: bool, env: Env): (bool, bool) {
    if env.lifetimeOver || (w.expires && env.expired) then (true, checking)
    else
      var inFlight := checking || (w.authenticated && env.tick);
      if inFlight && env.reply.Some? then (env.reply.value > w.epoch, false) else (false, inFlight)
  }

  function Inner<I>(w: Wrapping<I>, pos: nat, env: Env): Poll<I> {
    if !env.ready then Pending else if pos < |w.source| then Ready(Some(w.source[pos])) else Ready(None)
  }

  function Step<I>(w: Wrapping<I>, s: State, env: Env): (Poll<I>, State) {
    var inner := Inner(w, s.pos, env);
    var (ends, checking) := Observe(w, s.checking, env);
    if s.closed then (Ready(None), s)
    else if inner.Ready? && inner.item.Some? then
      (inner, if s.closing then s.(pos := s.pos + 1) else State(s.pos + 1, checking, ends, false))
    else if s.closing || inner.Ready? then (Ready(None), s.(closed := true))
    else if ends then (Ready(None), s.(checking := checking, closed := true))
    else (Pending, s.(checking := checking))
  }

  class Stream<I> {
    const w: Wrapping<I>
    var pos: nat
    var epochCheck: bool
    var closing: bool
    var closed: bool

    function Now(): State
      reads this
    {
      State(pos, epochCheck, closing, closed)
    }

    constructor (w: Wrapping<I>)
      ensures this.w == w && Now() == START
    {
      this.w, pos, epochCheck, closing, closed := w, 0, false, false, false;
    }

    method ObserveTermination(env: Env) returns (ends: bool)
      modifies this`epochCheck
      ensures (ends, epochCheck) == Observe(w, old(epochCheck), env)
    {
      if env.lifetimeOver {
        return true;
      }
      if w.expires && env.expired {
        return true;
      }
      if w.authenticated && env.tick && !epochCheck {
        epochCheck := true;
      }
      if epochCheck && env.reply.Some? {
        epochCheck := false;
        return env.reply.value > w.epoch;
      }
      return false;
    }

    method PollInner(env: Env) returns (r: Poll<I>)
      modifies this`pos
      ensures r == Inner(w, old(pos), env)
      ensures pos == if r.Ready? && r.item.Some? then old(pos) + 1 else old(pos)
    {
      r := Inner(w, pos, env);
      if r.Ready? && r.item.Some? {
        pos := pos + 1;
      }
    }

    method PollNext(env: Env) returns (r: Poll<I>)
      modifies this
      ensures (r, Now()) == Step(w, old(Now()), env)
    {
      if closed {
        return Ready(None);
      }
      r := PollInner(env);
      if closing {
        if r.Pending? || r.item.None? {
          closed := true;
          r := Ready(None);
        }
        return;
      }
      if r.Ready? && r.item.Some? {
        closing := ObserveTermination(env);
      } else if r.Ready? {
        closed := true;
      } else {
        var ends := ObserveTermination(env);
        if ends {
          closed := true;
          r := Ready(None);
        }
      }
    }
  }

  // ---- whole schedules ----------------------------------------------------------------

  /** `states` are the states a schedule of polls goes through: one before each poll and one at the end. */
  ghost predicate Run(w: Wrapping, polls: seq<Env>, states: seq<State>) {
    && |states| == |polls| + 1
    && states[0] == START
    && forall i :: 0 <= i < |polls| ==> states[i + 1] == Step(w, states[i], polls[i]).1
  }

  /** Every schedule has such states. */
  lemma {:induction false} EveryScheduleRuns(w: Wrapping, polls: seq<Env>) returns (states: seq<State>)
    ensures Run(w, polls, states)
  {
    if polls == [] {
      return [START];
    }
    var n := |polls| - 1;
    var before := EveryScheduleRuns(w, polls[..n]);
    states := before + [Step(w, before[n], polls[n]).1];
  }

  /** What poll number `i` answered. */
  function Answer<I>(w: Wrapping<I>, polls: seq<Env>, states: seq<State>, i: nat): Poll<I>
    requires i < |polls| && i < |states|
  {
    Step(w, states[i], polls[i]).0
  }

  /** The items delivered by the first `n` polls, in order. */
  function Delivered<I>(w: Wrapping<I>, polls: seq<Env>, states: seq<State>, n: nat): seq<I>
    requires n <= |polls| && n <= |states|
  {
    if n == 0 then []
    else
      var answer := Answer(w, polls, states, n - 1);
      Delivered(w, polls, states, n - 1) + if answer.Ready? && answer.item.Some? then [answer.item.value] else []
  }

  /** An open stream looks for termination unless its inner stream has just ended. */
  predicate Looks(w: Wrapping, s: State, env: Env) {
    !s.closing && !s.closed && !(env.ready && s.pos >= |w.source|)
  }

  /** Did this poll see a deadline passed or a newer epoch? */
  predicate Saw(w: Wrapping, s: State, env: Env) {
    Looks(w, s, env) && Observe(w, s.checking, env).0
  }

  lemma StepKeepsStopping(w: Wrapping, s: State, env: Env)
    ensures s.closing ==> Step(w, s, env).1.closing
    ensures s.closed ==> Step(w, s, env).1 == s
  {
  }

  /** The state after a poll that delivers nothing has moved nothing; one that delivers moved by one. */
  lemma StepDelivers<I>(w: Wrapping<I>, s: State, env: Env)
    requires s.pos <= |w.source|
    ensures var (answer, next) := Step(w, s, env);
            if answer.Ready? && answer.item.Some?
            then s.pos < |w.source| && answer.item.value == w.source[s.pos] && next.pos == s.pos + 1
            else next.pos == s.pos
  {
  }

  /** Every schedule delivers a prefix of the inner items, in order and without gaps. */
  lemma {:induction false} DeliveredIsAPrefix<I>(w: Wrapping<I>, polls: seq<Env>, states: seq<State>, n: nat)
    requires Run(w, polls, states) && n <= |polls|
    ensures states[n].pos <= |w.source|
    ensures Delivered(w, polls, states, n) == w.source[..states[n].pos]
    decreases n
  {
    if n > 0 {
      DeliveredIsAPrefix(w, polls, states, n - 1);
      StepDelivers(w, states[n - 1], polls[n - 1]);
    }
  }

  /** Once closing, always closing; once closed, always closed. */
  lemma {:induction false} StoppingIsForever(w: Wrapping, polls: seq<Env>, states: seq<State>, i: nat, j: nat)
    requires Run(w, polls, states) && i <= j <= |polls|
    ensures states[i].closing ==> states[j].closing
    ensures states[i].closed ==> states[j] == states[i]
    decreases j - i
  {
    if i < j {
      StoppingIsForever(w, polls, states, i, j - 1);
      StepKeepsStopping(w, states[j - 1], polls[j - 1]);
    }
  }

  /** After an end, every later poll answers none. */
  lemma EndIsForever<I>(w: Wrapping<I>, polls: seq<Env>, states: seq<State>, i: nat, j: nat)
    requires Run(w, polls, states) && i < j < |polls| && Answer(w, polls, states, i) == Ready(None)
    ensures Answer(w, polls, states, j) == Ready(None)
  {
    assert states[i + 1].closed;
    StoppingIsForever(w, polls, states, i + 1, j);
  }

  /**
    From the poll that saw termination on, no poll is ever pending: the first one that finds the
    inner stream not ready ends the stream, and every later one answers none.
   */
  lemma TerminationEndsAtFirstNotReady<I>(
    w: Wrapping<I>, polls: seq<Env>, states: seq<State>, i: nat, j: nat, k: nat)
    requires Run(w, polls, states) && i <= j <= k < |polls| && Saw(w, states[i], polls[i])
    ensures Answer(w, polls, states, j).Ready?
    ensures !polls[j].ready ==> Answer(w, polls, states, k) == Ready(None)
  {
    assert states[i + 1].closing || states[i + 1].closed;
    if i < j {
      StoppingIsForever(w, polls, states, i + 1, j);
    }
    if !polls[j].ready && j < k {
      EndIsForever(w, polls, states, j, k);
    }
  }

  /** A stopping stream was stopped by a poll that saw termination, or has ended with its inner stream. */
  lemma {:induction false} StoppedForAReason(w: Wrapping, polls: seq<Env>, states: seq<State>, j: nat)
    requires Run(w, polls, states) && j <= |polls| && (states[j].closing || states[j].closed)
    ensures (exists i :: 0 <= i < j && Saw(w, states[i], polls[i])) || states[j].pos == |w.source|
    decreases j
  {
    if j > 0 {
      DeliveredIsAPrefix(w, polls, states, j - 1);
      var s, env := states[j - 1], polls[j - 1];
      if s.closing || s.closed {
        StoppedForAReason(w, polls, states, j - 1);
      } else if states[j].pos < |w.source| {
        assert Saw(w, s, env);
      }
    }
  }

  /** The stream never ends early: none means termination was seen or every inner item was delivered. */
  lemma NoPrematureEnd<I>(w: Wrapping<I>, polls: seq<Env>, states: seq<State>, j: nat)
    requires Run(w, polls, states) && j < |polls| && Answer(w, polls, states, j) == Ready(None)
    ensures (exists i :: 0 <= i <= j && Saw(w, states[i], polls[i])) || Delivered(w, polls, states, j) == w.source
  {
    DeliveredIsAPrefix(w, polls, states, j);
    StepDelivers(w, states[j], polls[j]);
    assert states[j + 1].closed;
    StoppedForAReason(w, polls, states, j + 1);
  }

  /**
    Until termination is seen the wrapper is invisible: a poll answers what the inner stream
    would, and after the inner stream has ended it answers none.
   */
  lemma TransparentUntilSeen<I>(w: Wrapping<I>, polls: seq<Env>, states: seq<State>, j: nat)
    requires Run(w, polls, states) && j < |polls|
    requires forall i :: 0 <= i <= j ==> !Saw(w, states[i], polls[i])
    ensures var before := Delivered(w, polls, states, j);
            || Answer(w, polls, states, j) == Inner(w, |before|, polls[j])
            || (Answer(w, polls, states, j) == Ready(None) && before == w.source)
  {
    DeliveredIsAPrefix(w, polls, states, j);
    if states[j].closing || states[j].closed {
      StoppedForAReason(w, polls, states, j);
    } else {
      assert !Saw(w, states[j], polls[j]);
    }
  }

  // ---- the epoch check ----------------------------------------------------------------

  /** Does an epoch check in flight get asked by this poll? */
  predicate Asks(w: Wrapping, s: State, env: Env) {
    Looks(w, s, env) && !env.lifetimeOver && !(w.expires && env.expired)
  }

  /** Does this poll start an epoch check, unless one is in flight? */
  predicate Starts(w: Wrapping, polls: seq<Env>, states: seq<State>, k: nat)
    requires k < |polls| && k < |states|
  {
    w.authenticated && polls[k].tick && Asks(w, states[k], polls[k])
  }

  /** An epoch check in flight was started by a tick and has had no answer at any poll that asked since. */
  lemma {:induction false} CheckInFlight(w: Wrapping, polls: seq<Env>, states: seq<State>, j: nat) returns (k: nat)
    requires Run(w, polls, states) && j <= |polls| && states[j].checking
    ensures k < j && Starts(w, polls, states, k)
    ensures forall m :: k <= m < j && Asks(w, states[m], polls[m]) ==> polls[m].reply.None?
    decreases j
  {
    if states[j - 1].checking {
      k := CheckInFlight(w, polls, states, j - 1);
    } else {
      k := j - 1;
    }
  }

  lemma {:induction false} CheckStaysInFlight(w: Wrapping, polls: seq<Env>, states: seq<State>, k: nat, j: nat)
    requires Run(w, polls, states) && k < j <= |polls| && Starts(w, polls, states, k)
    requires forall m :: k <= m < j && Asks(w, states[m], polls[m]) ==> polls[m].reply.None?
    ensures states[j].checking
    decreases j - k
  {
    if k < j - 1 {
      CheckStaysInFlight(w, polls, states, k, j - 1);
    }
  }

  /** A check is in flight exactly while a tick has started one and no poll that asked had an answer since. */
  lemma CheckInFlightExactly(w: Wrapping, polls: seq<Env>, states: seq<State>, j: nat)
    requires Run(w, polls, states) && j <= |polls|
    ensures states[j].checking <==>
            exists k :: && 0 <= k < j && Starts(w, polls, states, k)
                        && forall m :: k <= m < j && Asks(w, states[m], polls[m]) ==> polls[m].reply.None?
  {
    if states[j].checking {
      var k := CheckInFlight(w, polls, states, j);
    } else if k: nat :| && k < j && Starts(w, polls, states, k)
                        && forall m :: k <= m < j && Asks(w, states[m], polls[m]) ==> polls[m].reply.None? {
      CheckStaysInFlight(w, polls, states, k, j);
    }
  }

  /**
    Termination is seen for exactly three reasons: the lifetime is over, the identity has
    expired, or a check that a tick started answers with a newer epoch.
   */
  lemma SeenForAReason(w: Wrapping, polls: seq<Env>, states: seq<State>, i: nat)
    requires Run(w, polls, states) && i < |polls| && Looks(w, states[i], polls[i])
    ensures Saw(w, states[i], polls[i]) ==>
              || polls[i].lifetimeOver
              || (w.expires && polls[i].expired)
              || (&& w.authenticated && polls[i].reply.Some? && polls[i].reply.value > w.epoch
                  && exists k :: 0 <= k <= i && polls[k].tick)
    ensures polls[i].lifetimeOver || (w.expires && polls[i].expired) ==> Saw(w, states[i], polls[i])
    ensures polls[i].reply.Some? && polls[i].reply.value > w.epoch && w.authenticated ==>
              states[i].checking || polls[i].tick ==> Saw(w, states[i], polls[i])
  {
    if states[i].checking {
      var k := CheckInFlight(w, polls, states, i);
    }
  }
}
