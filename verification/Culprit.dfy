/** Finding the commit that turned a branch red: which commits to probe, and what the probes prove. */
module Culprit {
  import opened Wrappers
  import opened Lists

  type Commit = string

  // ---- choosing the probes ------------------------------------------------------------

  /** The nearest integer to a / b, a tie going to the even one. */
  function RoundHalfEven(a: nat, b: nat): nat
    requires b > 0
  {
    var q, rest := a / b, a % b;
    if 2 * rest < b || (2 * rest == b && q % 2 == 0) then q else q + 1
  }

  lemma Distributes(b: int, x: int, y: int)
    ensures b * (x + y) == b * x + b * y
    ensures b * (x - y) == b * x - b * y
  {
  }

  lemma ProductsCompare(b: nat, x: int, y: int)
    requires b > 0
    ensures b * x < b * y <==> x < y
  {
    Distributes(b, x, y - x);
    Distributes(b, y, x - y);
  }

  /** Rounding is off by at most a half, and by exactly a half only to an even number. */
  lemma RoundingIsNear(a: nat, b: nat)
    requires b > 0
    ensures var near := 2 * (b * RoundHalfEven(a, b));
            && 2 * a - b <= near <= 2 * a + b
            && (near == 2 * a - b || near == 2 * a + b ==> RoundHalfEven(a, b) % 2 == 0)
  {
    var q := a / b;
    var whole := b * q;
    assert a == whole + a % b;
    Distributes(b, q, 1);
  }

  /** The index of pick `i` when `n` commits are cut into `limit` steps. */
  function Pick(i: nat, n: nat, limit: nat): int
    requires limit > 0
  {
    RoundHalfEven((i + 1) * n, limit) - 1
  }

  /** Pick `i` counts the commits nearest to the share (i + 1) / limit of all, a tie going to the even count. */
  lemma PickIsNearest(i: nat, n: nat, limit: nat)
    requires limit > 0
    ensures var share, counted := (i + 1) * n, Pick(i, n, limit) + 1;
            && 2 * share - limit <= 2 * (limit * counted) <= 2 * share + limit
            && (2 * (limit * counted) == 2 * share - limit || 2 * (limit * counted) == 2 * share + limit ==> counted % 2 == 0)
  {
    RoundingIsNear((i + 1) * n, limit);
  }

  lemma RoundingKeepsGaps(a: nat, n: nat, b: nat)
    requires 0 < b < n
    ensures RoundHalfEven(a, b) < RoundHalfEven(a + n, b)
    ensures n - b <= b * (RoundHalfEven(a + n, b) - RoundHalfEven(a, b)) <= n + b
  {
    var r, next := RoundHalfEven(a, b), RoundHalfEven(a + n, b);
    RoundingIsNear(a, b);
    RoundingIsNear(a + n, b);
    ProductsCompare(b, r, next);
    Distributes(b, next, r);
  }

  /** Picks move forward, and each gap is within one of n / limit. */
  lemma PicksAreEvenlySpaced(i: nat, n: nat, limit: nat)
    requires 0 < limit < n
    ensures Pick(i, n, limit) < Pick(i + 1, n, limit)
    ensures n - limit <= limit * (Pick(i + 1, n, limit) - Pick(i, n, limit)) <= n + limit
  {
    var a := (i + 1) * n;
    Distributes(n, i + 1, 1);
    assert (i + 2) * n == a + n;
    RoundingKeepsGaps(a, n, limit);
    assert Pick(i + 1, n, limit) - Pick(i, n, limit) == RoundHalfEven(a + n, limit) - RoundHalfEven(a, limit);
  }

  lemma FirstPickIsACommit(n: nat, limit: nat)
    requires 0 < limit < n
    ensures 0 <= Pick(0, n, limit)
  {
    RoundingIsNear(n, limit);
    ProductsCompare(limit, 0, RoundHalfEven(n, limit));
    assert (0 + 1) * n == n;
  }

  lemma LastPickIsTheTip(n: nat, limit: nat)
    requires 0 < limit
    ensures Pick(limit - 1, n, limit) == n - 1
  {
    RoundingIsNear(limit * n, limit);
    NearestToWhole(limit, n, RoundHalfEven(limit * n, limit));
    assert (limit - 1 + 1) * n == limit * n;
  }

  lemma NearestToWhole(b: nat, n: nat, r: nat)
    requires b > 0 && 2 * (b * n) - b <= 2 * (b * r) <= 2 * (b * n) + b
    ensures r == n
  {
    Distributes(b, n, 1);
    ProductsCompare(b, r, n + 1);
    ProductsCompare(b, n - 1, r);
  }

  lemma {:induction false} PicksIncrease(i: nat, j: nat, n: nat, limit: nat)
    requires 0 < limit < n && i < j
    ensures Pick(i, n, limit) < Pick(j, n, limit)
    decreases j
  {
    PicksAreEvenlySpaced(j - 1, n, limit);
    if i < j - 1 {
      PicksIncrease(i, j - 1, n, limit);
    }
  }

  lemma PickIsACommit(i: nat, n: nat, limit: nat)
    requires 0 < limit < n && i < limit
    ensures 0 <= Pick(i, n, limit) < n
  {
    FirstPickIsACommit(n, limit);
    LastPickIsTheTip(n, limit);
    if i > 0 {
      PicksIncrease(0, i, n, limit);
    }
    if i < limit - 1 {
      PicksIncrease(i, limit - 1, n, limit);
    }
  }

  /** The indices of the picks, oldest first. */
  function Picks(n: nat, limit: nat): (at: seq<nat>)
    requires 0 < limit < n
    ensures |at| == limit
    ensures forall i :: 0 <= i < limit ==> at[i] == Pick(i, n, limit)
  {
    seq(limit, i requires 0 <= i < limit => PickIsACommit(i, n, limit); Pick(i, n, limit))
  }

  ghost predicate Increasing(at: seq<nat>, n: nat) {
    && (forall i, j :: 0 <= i < j < |at| ==> at[i] < at[j])
    && (forall i :: 0 <= i < |at| ==> at[i] < n)
  }

  lemma PicksAreIncreasing(n: nat, limit: nat)
    requires 0 < limit < n
    ensures Increasing(Picks(n, limit), n)
  {
    var at := Picks(n, limit);
    forall i | 0 <= i < limit ensures at[i] < n {
      PickIsACommit(i, n, limit);
    }
    forall i, j | 0 <= i < j < limit ensures at[i] < at[j] {
      PicksIncrease(i, j, n, limit);
    }
  }

  datatype SampleError = NoCommits | DivisionByZero

  function In(picked: set<Commit>): Commit -> bool {
    (c: Commit) => c in picked
  }

  /** Pick a set of commits, then list them in the order of the history. */
  function Sample(commits: seq<Commit>, limit: nat): Result<seq<Commit>, SampleError> {
    if commits == [] then Err(NoCommits)
    else if |commits| <= limit then Ok(commits)
    else if limit == 0 then Err(DivisionByZero)
    else
      var at := Picks(|commits|, limit);
      PicksAreIncreasing(|commits|, limit);
      var picked := set i | 0 <= i < limit :: commits[at[i]];
      Ok(Filter(In(picked), commits))
  }

  ghost predicate Distinct(commits: seq<Commit>) {
    forall i, j :: 0 <= i < j < |commits| ==> commits[i] != commits[j]
  }

  /** The elements of a list at some indices. */
  function At(commits: seq<Commit>, at: seq<nat>): (r: seq<Commit>)
    requires forall i :: 0 <= i < |at| ==> at[i] < |commits|
    ensures |r| == |at|
  {
    seq(|at|, i requires 0 <= i < |at| => commits[at[i]])
  }

  /** Filtering a prefix of distinct commits by a set of picks lists the picks that fall in it, in order. */
  lemma {:induction false} FilterListsThePicks(commits: seq<Commit>, at: seq<nat>, picked: set<Commit>, m: nat, k: nat)
    requires Distinct(commits) && Increasing(at, |commits|) && m <= |commits| && k <= |at|
    requires forall c :: c in picked <==> exists i :: 0 <= i < |at| && commits[at[i]] == c
    requires (forall i :: 0 <= i < k ==> at[i] < m) && (forall i :: k <= i < |at| ==> at[i] >= m)
    ensures Filter(In(picked), commits[..m]) == At(commits, at[..k])
    decreases m
  {
    if m > 0 {
      var last := commits[m - 1];
      FilterOfConcat(In(picked), commits[..m - 1], [last]);
      assert commits[..m] == commits[..m - 1] + [last];
      if k > 0 && at[k - 1] == m - 1 {
        FilterListsThePicks(commits, at, picked, m - 1, k - 1);
        assert At(commits, at[..k]) == At(commits, at[..k - 1]) + [last];
        assert commits[at[k - 1]] in picked;
      } else {
        FilterListsThePicks(commits, at, picked, m - 1, k);
        assert last !in picked;
      }
    }
  }

  /** A long history gives exactly `limit` commits, evenly spaced, oldest first and ending at the tip. */
  lemma LongHistoryIsSampled(commits: seq<Commit>, limit: nat)
    requires Distinct(commits) && 0 < limit < |commits|
    ensures Increasing(Picks(|commits|, limit), |commits|)
    ensures Sample(commits, limit) == Ok(At(commits, Picks(|commits|, limit)))
    ensures |Sample(commits, limit).value| == limit
    ensures Sample(commits, limit).value[limit - 1] == commits[|commits| - 1]
  {
    var n := |commits|;
    var at := Picks(n, limit);
    PicksAreIncreasing(n, limit);
    LastPickIsTheTip(n, limit);
    var picked := set i | 0 <= i < limit :: commits[at[i]];
    assert forall c :: c in picked <==> exists i :: 0 <= i < |at| && commits[at[i]] == c;
    FilterListsThePicks(commits, at, picked, n, limit);
    assert commits[..n] == commits && at[..limit] == at;
  }

  /** A history within the limit is probed whole; none, and a limit of zero for a history beyond it, is an error. */
  lemma ShortHistoryIsProbedWhole(commits: seq<Commit>, limit: nat)
    ensures commits != [] && |commits| <= limit ==> Sample(commits, limit) == Ok(commits)
    ensures Sample(commits, limit).Err? <==> commits == [] || limit == 0
  {
  }

  // ---- reading a probe's jobs ---------------------------------------------------------

  datatype Outcome = Green | Red | Unknown

  const GREEN_CONCLUSIONS := {"success", "skipped", "neutral"}
  const RED_CONCLUSIONS := {"failure", "timed_out", "startup_failure"}

  predicate IsRed(conclusion: Option<string>) {
    conclusion.Some? && conclusion.value in RED_CONCLUSIONS
  }

  predicate IsGreen(conclusion: Option<string>) {
    conclusion.Some? && conclusion.value in GREEN_CONCLUSIONS
  }

  function OutcomeOf(conclusions: seq<Option<string>>): Outcome {
    if exists c :: c in conclusions && IsRed(c) then Red
    else if conclusions != [] && forall c :: c in conclusions ==> IsGreen(c) then Green
    else Unknown
  }

  /** Red with any failed job; green when there are jobs and each succeeded, was skipped or neutral; else unknown. */
  lemma OutcomeExactly(conclusions: seq<Option<string>>)
    ensures OutcomeOf(conclusions) == Red <==>
            Some("failure") in conclusions || Some("timed_out") in conclusions || Some("startup_failure") in conclusions
    ensures OutcomeOf(conclusions) == Green <==>
            conclusions != [] && forall c :: c in conclusions ==> c in {Some("success"), Some("skipped"), Some("neutral")}
  {
    if conclusions != [] && forall c :: c in conclusions ==> IsGreen(c) {
      assert forall c :: c in conclusions ==> !IsRed(c);
    }
    assert forall word :: word in RED_CONCLUSIONS && Some(word) in conclusions ==> IsRed(Some(word));
  }

  /** One more job can only turn a probe towards red: no job undoes a failure or clears an unknown one. */
  lemma MoreJobsNeverClear(conclusions: seq<Option<string>>, conclusion: Option<string>)
    ensures OutcomeOf(conclusions) == Red ==> OutcomeOf(conclusions + [conclusion]) == Red
    ensures OutcomeOf(conclusions + [conclusion]) == Green <==>
            IsGreen(conclusion) && (conclusions == [] || OutcomeOf(conclusions) == Green)
  {
    assert forall c :: c in conclusions ==> c in conclusions + [conclusion];
    assert conclusion in conclusions + [conclusion];
  }

  // ---- the verdict --------------------------------------------------------------------

  datatype Verdict = Revert(culprit: Commit) | Range(after: Commit, upto: Commit) | Healed

  /** The newest probe known to be green, or the base. */
  function LastGreen(base: Commit, probes: seq<Commit>, outcomes: map<Commit, Outcome>): Commit
    requires forall i :: 0 <= i < |probes| ==> probes[i] in outcomes
  {
    if probes == [] then base
    else if outcomes[probes[|probes| - 1]] == Green then probes[|probes| - 1]
    else LastGreen(base, probes[..|probes| - 1], outcomes)
  }

  lemma {:induction false} LastGreenIsNewest(base: Commit, probes: seq<Commit>, outcomes: map<Commit, Outcome>, i: nat)
    requires forall j :: 0 <= j < |probes| ==> probes[j] in outcomes
    requires i <= |probes| && forall j :: i <= j < |probes| ==> outcomes[probes[j]] != Green
    requires i > 0 ==> outcomes[probes[i - 1]] == Green
    ensures LastGreen(base, probes, outcomes) == if i == 0 then base else probes[i - 1]
  {
    if i < |probes| {
      LastGreenIsNewest(base, probes[..|probes| - 1], outcomes, i);
    }
  }

  /** `k` is the first red probe. */
  ghost predicate FirstRed(probes: seq<Commit>, outcomes: map<Commit, Outcome>, k: nat)
    requires forall i :: 0 <= i < |probes| ==> probes[i] in outcomes
  {
    && k < |probes| && outcomes[probes[k]] == Red
    && forall i :: 0 <= i < k ==> outcomes[probes[i]] != Red
  }

  /** The verdict on the first red probe, given the newest green one before it. */
  function Accuse(culprit: Commit, lastGreen: Commit, parentOf: Commit -> Commit): Verdict {
    if parentOf(culprit) == lastGreen then Revert(culprit) else Range(lastGreen, culprit)
  }

  method Judge(base: Commit, probes: seq<Commit>, outcomes: map<Commit, Outcome>, parentOf: Commit -> Commit)
    returns (verdict: Verdict)
    requires probes != [] && forall i :: 0 <= i < |probes| ==> probes[i] in outcomes
    ensures verdict == Healed <==> outcomes[probes[|probes| - 1]] != Red
    ensures verdict != Healed ==>
              exists k: nat :: && FirstRed(probes, outcomes, k)
                               && verdict == Accuse(probes[k], LastGreen(base, probes[..k], outcomes), parentOf)
  {
    if outcomes[probes[|probes| - 1]] != Red {
      return Healed;
    }
    var lastGreen := base;
    var k := 0;
    while k < |probes|
      invariant 0 <= k <= |probes|
      invariant forall i :: 0 <= i < k ==> outcomes[probes[i]] != Red
      invariant lastGreen == LastGreen(base, probes[..k], outcomes)
    {
      var sha := probes[k];
      assert probes[..k + 1][..k] == probes[..k];
      match outcomes[sha] {
        case Green =>
          lastGreen := sha;
        case Unknown =>
        case Red =>
          assert FirstRed(probes, outcomes, k);
          if parentOf(sha) == lastGreen {
            return Revert(sha);
          }
          return Range(lastGreen, sha);
      }
      k := k + 1;
    }
    assert false;
  }

  // ---- what a verdict proves ----------------------------------------------------------

  /** A first-parent history from the base: each commit is the parent of the next. */
  ghost predicate Linear(history: seq<Commit>, parentOf: Commit -> Commit) {
    && history != [] && Distinct(history)
    && forall i :: 0 < i < |history| ==> parentOf(history[i]) == history[i - 1]
  }

  /** The probes are the commits of a history at increasing places after the base. */
  ghost predicate Probed(history: seq<Commit>, probes: seq<Commit>, at: seq<nat>) {
    && |at| == |probes| && Increasing(at, |history|)
    && forall k :: 0 <= k < |probes| ==> at[k] > 0 && history[at[k]] == probes[k]
  }

  /** Green probes are good, red ones are bad, and the base is good. */
  ghost predicate Faithful(base: Commit, probes: seq<Commit>, outcomes: map<Commit, Outcome>, bad: Commit -> bool) {
    && !bad(base)
    && forall k :: 0 <= k < |probes| ==>
         && probes[k] in outcomes
         && (outcomes[probes[k]] == Green ==> !bad(probes[k]))
         && (outcomes[probes[k]] == Red ==> bad(probes[k]))
  }

  /** Where the newest green probe is in the history. */
  lemma {:induction false} LastGreenIsGood(
    history: seq<Commit>, probes: seq<Commit>, at: seq<nat>, outcomes: map<Commit, Outcome>, bad: Commit -> bool)
    returns (i: nat)
    requires history != [] && Probed(history, probes, at) && Faithful(history[0], probes, outcomes, bad)
    ensures i < |history| && history[i] == LastGreen(history[0], probes, outcomes) && !bad(history[i])
    ensures i == 0 || exists k :: 0 <= k < |probes| && at[k] == i
  {
    if probes == [] {
      return 0;
    }
    var n := |probes| - 1;
    if outcomes[probes[n]] == Green {
      return at[n];
    }
    i := LastGreenIsGood(history, probes[..n], at[..n], outcomes, bad);
    if i != 0 {
      var k :| 0 <= k < n && at[..n][k] == i;
      assert at[k] == i;
    }
  }

  /** Between a good commit and a later bad one there is a good commit whose child is bad. */
  lemma {:induction false} SomeStepBreaks(history: seq<Commit>, bad: Commit -> bool, i: nat, j: nat) returns (m: nat)
    requires i < j < |history| && !bad(history[i]) && bad(history[j])
    ensures i < m <= j && !bad(history[m - 1]) && bad(history[m])
    decreases j
  {
    if bad(history[j - 1]) {
      m := SomeStepBreaks(history, bad, i, j - 1);
    } else {
      m := j;
    }
  }

  lemma GreenBeforeRed(
    history: seq<Commit>, probes: seq<Commit>, at: seq<nat>, outcomes: map<Commit, Outcome>, bad: Commit -> bool, k: nat)
    returns (i: nat)
    requires history != [] && Probed(history, probes, at) && Faithful(history[0], probes, outcomes, bad)
    requires k < |probes|
    ensures i < at[k] && history[i] == LastGreen(history[0], probes[..k], outcomes) && !bad(history[i])
  {
    i := LastGreenIsGood(history, probes[..k], at[..k], outcomes, bad);
    if i != 0 {
      var j :| 0 <= j < k && at[..k][j] == i;
      assert at[j] == i;
    }
  }

  /** A revert names a bad commit whose parent is good. */
  lemma RevertIsJust(
    history: seq<Commit>, probes: seq<Commit>, at: seq<nat>, outcomes: map<Commit, Outcome>, bad: Commit -> bool,
    parentOf: Commit -> Commit, k: nat)
    requires Linear(history, parentOf) && Probed(history, probes, at) && Faithful(history[0], probes, outcomes, bad)
    requires FirstRed(probes, outcomes, k)
    requires Accuse(probes[k], LastGreen(history[0], probes[..k], outcomes), parentOf).Revert?
    ensures bad(probes[k]) && !bad(parentOf(probes[k]))
  {
    var i := GreenBeforeRed(history, probes, at, outcomes, bad, k);
  }

  /** A range starts at a good commit, ends at a bad one, and holds a good commit whose child is bad. */
  lemma RangeHoldsTheBreak(
    history: seq<Commit>, probes: seq<Commit>, at: seq<nat>, outcomes: map<Commit, Outcome>, bad: Commit -> bool,
    parentOf: Commit -> Commit, k: nat) returns (i: nat, m: nat)
    requires Linear(history, parentOf) && Probed(history, probes, at) && Faithful(history[0], probes, outcomes, bad)
    requires FirstRed(probes, outcomes, k)
    requires Accuse(probes[k], LastGreen(history[0], probes[..k], outcomes), parentOf).Range?
    ensures i < m <= at[k] && i + 1 < at[k]
    ensures Accuse(probes[k], LastGreen(history[0], probes[..k], outcomes), parentOf) == Range(history[i], history[at[k]])
    ensures !bad(history[m - 1]) && bad(history[m]) && parentOf(history[m]) == history[m - 1]
  {
    i := GreenBeforeRed(history, probes, at, outcomes, bad, k);
    m := SomeStepBreaks(history, bad, i, at[k]);
  }

  /**
    The verdict is a revert exactly when the newest green probe, or the base, is the parent of
    the first red one; so when every commit is probed and none is unknown it always is.
   */
  lemma EveryCommitProbedReverts(
    history: seq<Commit>, probes: seq<Commit>, outcomes: map<Commit, Outcome>, parentOf: Commit -> Commit, k: nat)
    requires Linear(history, parentOf) && probes == history[1..]
    requires forall i :: 0 <= i < |probes| ==> probes[i] in outcomes && outcomes[probes[i]] != Unknown
    requires FirstRed(probes, outcomes, k)
    ensures Accuse(probes[k], LastGreen(history[0], probes[..k], outcomes), parentOf) == Revert(probes[k])
  {
    assert probes[k] == history[k + 1];
    if k > 0 {
      assert probes[..k][k - 1] == probes[k - 1] == history[k];
      assert outcomes[probes[k - 1]] == Green;
    }
  }

  /** Where bad commits stay bad, a revert names the first bad commit of all and a range holds it. */
  lemma StayingBadPinsTheCulprit(
    history: seq<Commit>, probes: seq<Commit>, at: seq<nat>, outcomes: map<Commit, Outcome>, bad: Commit -> bool,
    parentOf: Commit -> Commit, k: nat, j: nat)
    requires Linear(history, parentOf) && Probed(history, probes, at) && Faithful(history[0], probes, outcomes, bad)
    requires FirstRed(probes, outcomes, k) && j < |history|
    requires forall x, y :: 0 <= x <= y < |history| && bad(history[x]) ==> bad(history[y])
    ensures match Accuse(probes[k], LastGreen(history[0], probes[..k], outcomes), parentOf)
            case Revert(_) => bad(history[j]) <==> j >= at[k]
            case Range(after, _) => (j >= at[k] ==> bad(history[j])) && (history[j] == after ==> !bad(history[j]))
            case Healed => false
  {
    var i := GreenBeforeRed(history, probes, at, outcomes, bad, k);
    if Accuse(probes[k], LastGreen(history[0], probes[..k], outcomes), parentOf).Revert? {
      assert !bad(history[at[k] - 1]);
    }
  }

  // ---- from sample to verdict ---------------------------------------------------------

  /** What `Sample` picks from the commits after the base are probes of that history. */
  lemma SampleProbesTheHistory(history: seq<Commit>, limit: nat) returns (at: seq<nat>)
    requires history != [] && Distinct(history) && Sample(history[1..], limit).Ok?
    ensures Probed(history, Sample(history[1..], limit).value, at)
    ensures |at| > 0 && at[|at| - 1] == |history| - 1
    ensures |at| == if |history| - 1 <= limit then |history| - 1 else limit
  {
    var commits := history[1..];
    if |commits| <= limit {
      at := seq(|commits|, i requires 0 <= i < |commits| => i + 1);
    } else {
      LongHistoryIsSampled(commits, limit);
      var picks := Picks(|commits|, limit);
      at := seq(limit, i requires 0 <= i < limit => picks[i] + 1);
      LastPickIsTheTip(|commits|, limit);
    }
  }

  /** The place of probe `k` counted from the base, and of the base before the first. */
  function PlaceOf(k: nat, n: nat, limit: nat): int
    requires limit > 0
  {
    if k == 0 then 0 else Pick(k - 1, n, limit) + 1
  }

  lemma StretchIsNarrow(k: nat, n: nat, limit: nat)
    requires 0 < limit < n
    ensures PlaceOf(k, n, limit) < PlaceOf(k + 1, n, limit)
    ensures limit * (PlaceOf(k + 1, n, limit) - PlaceOf(k, n, limit)) <= n + limit
  {
    if k == 0 {
      FirstPickIsACommit(n, limit);
      RoundingIsNear(n, limit);
      assert (0 + 1) * n == n;
    } else {
      PicksAreEvenlySpaced(k - 1, n, limit);
    }
  }

  /** When no probe is unknown, the commits to search after the verdict are at most n / limit + 1. */
  lemma RangeIsNarrow(
    history: seq<Commit>, limit: nat, outcomes: map<Commit, Outcome>, k: nat) returns (i: nat)
    requires history != [] && Distinct(history) && 0 < limit < |history| - 1
    requires Sample(history[1..], limit).Ok?
    requires var probes := Sample(history[1..], limit).value;
             && (forall j :: 0 <= j < |probes| ==> probes[j] in outcomes && outcomes[probes[j]] != Unknown)
             && FirstRed(probes, outcomes, k)
    ensures var probes := Sample(history[1..], limit).value;
            var upto := Pick(k, |history| - 1, limit) + 1;
            && i < upto < |history| && probes[k] == history[upto]
            && history[i] == LastGreen(history[0], probes[..k], outcomes)
            && limit * (upto - i) <= |history| - 1 + limit
  {
    var n, commits := |history| - 1, history[1..];
    LongHistoryIsSampled(commits, limit);
    var probes, picks := Sample(commits, limit).value, Picks(n, limit);
    assert probes[k] == commits[picks[k]] == history[picks[k] + 1];
    StretchIsNarrow(k, n, limit);
    i := 0;
    if k > 0 {
      assert probes[..k][k - 1] == probes[k - 1] && outcomes[probes[k - 1]] == Green;
      assert probes[k - 1] == commits[picks[k - 1]] == history[picks[k - 1] + 1];
      i := picks[k - 1] + 1;
    }
  }
}
