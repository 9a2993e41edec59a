/** The token bucket behind one client address, as `RateLimiter::check` keeps it:
    its state, the decisions over a whole trace of requests, and what those
    decisions mean without mentioning tokens. Times are seconds of a monotonic
    clock and levels are reals. */
module TokenBucket {
  import opened Text

  /** `rate` tokens per second, at most `burst` tokens. */
  datatype Limits = Limits(rate: real, burst: real)

  datatype Bucket = Bucket(tokens: real, last: real)

  datatype Verdict = Verdict(bucket: Bucket, admitted: bool)

  /** The settings that the documentation of the limiter gives a meaning. */
  predicate Sensible(lim: Limits) {
    lim.rate >= 0.0 && lim.burst >= 0.0
  }

  function Min(a: real, b: real): real {
    if a <= b then a else b
  }

  /** `Instant::duration_since`, which saturates at zero. */
  function Elapsed(now: real, last: real): real {
    if now < last then 0.0 else now - last
  }

  function Refilled(lim: Limits, b: Bucket, now: real): real {
    Min(b.tokens + Supply(lim, Elapsed(now, b.last)), lim.burst)
  }

  /** The tokens that a stretch of `dt` seconds supplies. */
  function Supply(lim: Limits, dt: real): real {
    dt * lim.rate
  }

  lemma {:induction false} SupplyAdds(lim: Limits, a: real, b: real)
    ensures Supply(lim, a + b) == Supply(lim, a) + Supply(lim, b)
  {
  }

  lemma {:induction false} SupplyMonotone(lim: Limits, a: real, b: real)
    requires lim.rate >= 0.0 && a <= b
    ensures Supply(lim, a) <= Supply(lim, b)
    ensures a == 0.0 ==> Supply(lim, a) == 0.0
  {
  }

  /** One critical section: create a full bucket if there is none, refill, take a token. */
  function Check(lim: Limits, slot: Option<Bucket>, now: real): Verdict {
    var bucket := slot.GetOr(Bucket(lim.burst, now));
    var tokens := Refilled(lim, bucket, now);
    if tokens >= 1.0 then Verdict(Bucket(tokens - 1.0, now), true)
    else Verdict(Bucket(tokens, now), false)
  }

  /** The bucket after critical sections stamped `times`, in lock order. */
  function After(lim: Limits, times: seq<real>): (slot: Option<Bucket>)
    ensures slot.None? <==> times == []
    ensures times != [] ==> slot.value.last == times[|times| - 1]
  {
    if times == [] then None
    else
      var n := |times| - 1;
      Some(Check(lim, After(lim, times[..n]), times[n]).bucket)
  }

  /** What each of those critical sections answered. */
  function Decisions(lim: Limits, times: seq<real>): (ds: seq<bool>)
    ensures |ds| == |times|
  {
    if times == [] then []
    else
      var n := |times| - 1;
      Decisions(lim, times[..n]) + [Check(lim, After(lim, times[..n]), times[n]).admitted]
  }

  /** What one more critical section does. */
  lemma {:induction false} Snoc(lim: Limits, times: seq<real>, now: real)
    ensures After(lim, times + [now]) == Some(Check(lim, After(lim, times), now).bucket)
    ensures Decisions(lim, times + [now])
            == Decisions(lim, times) + [Check(lim, After(lim, times), now).admitted]
  {
    assert (times + [now])[..|times|] == times;
  }

  lemma {:induction false} DecisionsPrefix(lim: Limits, times: seq<real>, k: nat)
    requires k <= |times|
    ensures Decisions(lim, times)[..k] == Decisions(lim, times[..k])
  {
    if k == |times| {
      assert times[..k] == times;
    } else {
      var n := |times| - 1;
      DecisionsPrefix(lim, times[..n], k);
      assert times[..n][..k] == times[..k];
    }
  }

  /** The number of admitted requests in a schedule. */
  function Admitted(schedule: seq<bool>): nat {
    if schedule == [] then 0
    else Admitted(schedule[..|schedule| - 1]) + (if schedule[|schedule| - 1] then 1 else 0)
  }

  lemma {:induction false} AdmittedSnoc(schedule: seq<bool>, b: bool)
    ensures Admitted(schedule + [b]) == Admitted(schedule) + (if b then 1 else 0)
  {
    assert (schedule + [b])[..|schedule|] == schedule;
  }

  /** Every stamp is at least the one before it. */
  predicate NonDecreasing(times: seq<real>) {
    var n := |times| - 1;
    n >= 1 ==> times[n - 1] <= times[n] && NonDecreasing(times[..n])
  }

  lemma {:induction false} NonDecreasingPrefix(times: seq<real>, k: nat)
    requires NonDecreasing(times) && k <= |times|
    ensures NonDecreasing(times[..k])
    decreases |times|
  {
    var n := |times| - 1;
    if k <= n {
      if n >= 1 {
        NonDecreasingPrefix(times[..n], k);
        assert times[..n][..k] == times[..k];
      }
    } else {
      assert times[..k] == times;
    }
  }

  // ---- Schedules and windows ----------------------------------------------

  /** What is left of the allowance of window i..j (both ends included). */
  function Slack(lim: Limits, times: seq<real>, schedule: seq<bool>, i: nat, j: nat): real
    requires i <= j < |times| && |schedule| == |times|
  {
    lim.burst + Supply(lim, times[j] - times[i]) - Admitted(schedule[i..j + 1]) as real
  }

  /** A schedule obeys the rate and the burst: no window holds more admissions
      than the burst plus what the rate supplies over the length of the window. */
  ghost predicate Conforms(lim: Limits, times: seq<real>, schedule: seq<bool>)
    requires |schedule| == |times|
  {
    forall i, j | 0 <= i <= j < |times| :: Slack(lim, times, schedule, i, j) >= 0.0
  }

  /** The level an arbitrary schedule would leave in the bucket after its last request. */
  function Level(lim: Limits, times: seq<real>, schedule: seq<bool>): real
    requires |schedule| == |times| > 0
  {
    var n := |times| - 1;
    var refilled :=
      if n == 0 then lim.burst
      else Min(Level(lim, times[..n], schedule[..n]) + Supply(lim, times[n] - times[n - 1]), lim.burst);
    refilled - if schedule[n] then 1.0 else 0.0
  }

  /** One more request: every older window loses the new admission and gains the refill. */
  lemma {:induction false} SlackStep(lim: Limits, times: seq<real>, schedule: seq<bool>, i: nat)
    requires |schedule| == |times| && i < |times| - 1
    ensures var n := |times| - 1;
            Slack(lim, times, schedule, i, n)
            == Slack(lim, times[..n], schedule[..n], i, n - 1) + Supply(lim, times[n] - times[n - 1])
               - (if schedule[n] then 1.0 else 0.0)
  {
    var n := |times| - 1;
    AdmittedSnoc(schedule[..n][i..n], schedule[n]);
    assert schedule[i..n + 1] == schedule[..n][i..n] + [schedule[n]];
    SupplyAdds(lim, times[n - 1] - times[i], times[n] - times[n - 1]);
  }

  lemma {:induction false} SlackPrefix(lim: Limits, times: seq<real>, schedule: seq<bool>, i: nat, j: nat, k: nat)
    requires |schedule| == |times| && i <= j < k <= |times|
    ensures Slack(lim, times[..k], schedule[..k], i, j) == Slack(lim, times, schedule, i, j)
  {
    assert schedule[..k][i..j + 1] == schedule[i..j + 1];
  }

  /** The window that holds the last request alone. */
  lemma {:induction false} LastSlack(lim: Limits, times: seq<real>, schedule: seq<bool>)
    requires |schedule| == |times| > 0
    ensures var n := |times| - 1;
            Slack(lim, times, schedule, n, n) == lim.burst - (if schedule[n] then 1.0 else 0.0)
  {
    var n := |times| - 1;
    assert schedule[n..n + 1] == [] + [schedule[n]];
    AdmittedSnoc([], schedule[n]);
  }

  /** Closed form: the level is the least slack of the windows that end at the last request. */
  lemma {:induction false} LevelIsLeastSlack(lim: Limits, times: seq<real>, schedule: seq<bool>)
    requires |schedule| == |times| > 0
    ensures var n := |times| - 1;
            && (forall i | 0 <= i <= n :: Level(lim, times, schedule) <= Slack(lim, times, schedule, i, n))
            && (exists i | 0 <= i <= n :: Level(lim, times, schedule) == Slack(lim, times, schedule, i, n))
    decreases |times|
  {
    hide Slack, Supply;
    var n := |times| - 1;
    LastSlack(lim, times, schedule);
    if n == 0 {
      assert Level(lim, times, schedule) == Slack(lim, times, schedule, n, n);
    } else {
      var before := Level(lim, times[..n], schedule[..n]);
      LevelIsLeastSlack(lim, times[..n], schedule[..n]);
      forall i | 0 <= i < n
        ensures Level(lim, times, schedule) <= Slack(lim, times, schedule, i, n)
      {
        SlackStep(lim, times, schedule, i);
      }
      var w :| 0 <= w <= n - 1 && before == Slack(lim, times[..n], schedule[..n], w, n - 1);
      SlackStep(lim, times, schedule, w);
      assert Level(lim, times, schedule) == Slack(lim, times, schedule, w, n)
        || Level(lim, times, schedule) == Slack(lim, times, schedule, n, n);
    }
  }

  /** The level never drops below zero: no request is admitted without a token. */
  predicate Funded(lim: Limits, times: seq<real>, schedule: seq<bool>)
    requires |schedule| == |times|
  {
    times != [] ==>
      && Level(lim, times, schedule) >= 0.0
      && Funded(lim, times[..|times| - 1], schedule[..|times| - 1])
  }

  lemma {:induction false} FundedPrefix(lim: Limits, times: seq<real>, schedule: seq<bool>, k: nat)
    requires |schedule| == |times| && k <= |times|
    requires Funded(lim, times, schedule)
    ensures Funded(lim, times[..k], schedule[..k])
    decreases |times|
  {
    var n := |times| - 1;
    if k <= n {
      FundedPrefix(lim, times[..n], schedule[..n], k);
      assert times[..n][..k] == times[..k] && schedule[..n][..k] == schedule[..k];
    } else {
      assert times[..k] == times && schedule[..k] == schedule;
    }
  }

  /** A schedule conforms exactly when its level never drops below zero. */
  lemma {:induction false} ConformsIffFunded(lim: Limits, times: seq<real>, schedule: seq<bool>)
    requires |schedule| == |times|
    ensures Conforms(lim, times, schedule) <==> Funded(lim, times, schedule)
    decreases |times|
  {
    if times == [] {
    } else {
      var n := |times| - 1;
      ConformsIffFunded(lim, times[..n], schedule[..n]);
      LevelIsLeastSlack(lim, times, schedule);
      forall i, j | 0 <= i <= j < n
        ensures Slack(lim, times[..n], schedule[..n], i, j) == Slack(lim, times, schedule, i, j)
      {
        SlackPrefix(lim, times, schedule, i, j, n);
      }
    }
  }

  // ---- The limiter's own schedule -----------------------------------------

  /** With times in order the tokens are the level of the limiter's own schedule. */
  lemma {:induction false} TokensAreLevel(lim: Limits, times: seq<real>)
    requires NonDecreasing(times) && times != []
    ensures After(lim, times).value.tokens == Level(lim, times, Decisions(lim, times))
    decreases |times|
  {
    var n := |times| - 1;
    if n == 0 {
    } else {
      TokensAreLevel(lim, times[..n]);
      DecisionsPrefix(lim, times, n);
      assert After(lim, times[..n]).value.last == times[n - 1];
    }
  }

  lemma {:induction false} TokensStayInRange(lim: Limits, times: seq<real>)
    requires Sensible(lim) && times != []
    ensures 0.0 <= After(lim, times).value.tokens <= lim.burst
    decreases |times|
  {
    var n := |times| - 1;
    if n == 0 {
    } else {
      TokensStayInRange(lim, times[..n]);
      assert Supply(lim, Elapsed(times[n], times[n - 1])) >= 0.0;
    }
  }

  lemma {:induction false} CheckIsFunded(lim: Limits, times: seq<real>)
    requires Sensible(lim) && NonDecreasing(times)
    ensures Funded(lim, times, Decisions(lim, times))
    decreases |times|
  {
    if times == [] {
    } else {
      TokensAreLevel(lim, times);
      TokensStayInRange(lim, times);
      CheckIsFunded(lim, times[..|times| - 1]);
      DecisionsPrefix(lim, times, |times| - 1);
    }
  }

  /** The limiter's schedule obeys the rate and the burst in every window. */
  lemma {:induction false} CheckConforms(lim: Limits, times: seq<real>)
    requires Sensible(lim) && NonDecreasing(times)
    ensures Conforms(lim, times, Decisions(lim, times))
  {
    CheckIsFunded(lim, times);
    ConformsIffFunded(lim, times, Decisions(lim, times));
  }

  /** One request, seen by the limiter at level `own` and by a rival at level `other`
      with `lead` admissions fewer: the greedy choice keeps both halves of the invariant. */
  lemma {:induction false} GreedyStep(own: real, lead: int, other: real, rivalAdmits: bool)
    requires lead >= 0 && own + lead as real >= other
    requires rivalAdmits ==> other >= 1.0
    ensures var lead' := lead + (if own >= 1.0 then 1 else 0) - (if rivalAdmits then 1 else 0);
            && lead' >= 0
            && (if own >= 1.0 then own - 1.0 else own) + lead' as real
               >= (if rivalAdmits then other - 1.0 else other)
  {
  }

  /** The greedy invariant: the limiter is never behind a rival, and its tokens
      together with its lead in admissions are never below the rival's level. */
  lemma {:induction false} GreedyInvariant(lim: Limits, times: seq<real>, rival: seq<bool>)
    requires NonDecreasing(times) && |rival| == |times| > 0
    requires Funded(lim, times, rival)
    ensures Admitted(Decisions(lim, times)) >= Admitted(rival)
    ensures After(lim, times).value.tokens
            + (Admitted(Decisions(lim, times)) - Admitted(rival)) as real >= Level(lim, times, rival)
    decreases |times|
  {
    var n := |times| - 1;
    var init, others := times[..n], rival[..n];
    var slot := After(lim, init);
    var own := Refilled(lim, slot.GetOr(Bucket(lim.burst, times[n])), times[n]);
    var other := Level(lim, times, rival) + if rival[n] then 1.0 else 0.0;
    var lead := Admitted(Decisions(lim, init)) - Admitted(others);
    assert lead >= 0 && own + lead as real >= other by {
      if n > 0 {
        GreedyInvariant(lim, init, others);
      }
    }
    GreedyStep(own, lead, other, rival[n]);
    AdmittedSnoc(Decisions(lim, init), own >= 1.0);
  }

  /** Greedy optimality: after every prefix the limiter has admitted at least as
      many requests as any other schedule that obeys the same rate and burst. */
  lemma {:induction false} GreedyOptimal(lim: Limits, times: seq<real>, rival: seq<bool>, k: nat)
    requires NonDecreasing(times) && |rival| == |times| && k <= |times|
    requires Conforms(lim, times, rival)
    ensures Admitted(Decisions(lim, times)[..k]) >= Admitted(rival[..k])
  {
    ConformsIffFunded(lim, times, rival);
    FundedPrefix(lim, times, rival, k);
    NonDecreasingPrefix(times, k);
    DecisionsPrefix(lim, times, k);
    if k > 0 {
      GreedyInvariant(lim, times[..k], rival[..k]);
    }
  }

  /** Every decision, without tokens: a request is admitted exactly when admitting
      it keeps every window of the schedule so far within the allowance. */
  lemma {:induction false} AdmitsIffStillConforms(lim: Limits, times: seq<real>, k: nat)
    requires Sensible(lim) && NonDecreasing(times) && k < |times|
    ensures Decisions(lim, times)[k]
            <==> Conforms(lim, times[..k + 1], Decisions(lim, times)[..k] + [true])
  {
    hide Decisions, After, Conforms, NonDecreasing;
    var ts, ds := times[..k + 1], Decisions(lim, times);
    DecisionsPrefix(lim, times, k);
    DecisionsPrefix(lim, times, k + 1);
    assert ts[..k] == times[..k];
    NonDecreasingPrefix(times, k + 1);
    CheckConforms(lim, ts);
    assert ds[..k + 1] == ds[..k] + [ds[k]];
    var greedy := ds[..k] + [true];
    AdmittedSnoc(ds[..k], true);
    AdmittedSnoc(ds[..k], false);
    assert greedy[..k + 1] == greedy && ds[..k + 1][..k + 1] == ds[..k + 1];
    if Conforms(lim, ts, greedy) {
      GreedyOptimal(lim, ts, greedy, k + 1);
    }
  }

  lemma {:induction false} AllAdmitted(schedule: seq<bool>)
    ensures Admitted(schedule) <= |schedule|
    ensures Admitted(schedule) == |schedule| <==> forall k | 0 <= k < |schedule| :: schedule[k]
  {
    if schedule == [] {
    } else {
      var n := |schedule| - 1;
      AllAdmitted(schedule[..n]);
      assert forall k | 0 <= k < n :: schedule[..n][k] == schedule[k];
    }
  }

  /** The schedule that admits everybody. */
  function Everybody(n: nat): (all: seq<bool>)
    ensures |all| == n && forall k | 0 <= k < n :: all[k]
  {
    seq(n, _ => true)
  }

  /** The windows of a trace fit: each holds at most the burst plus what its length supplies. */
  ghost predicate WindowsFit(lim: Limits, times: seq<real>) {
    forall i, j | 0 <= i <= j < |times| ::
      (j - i + 1) as real <= lim.burst + Supply(lim, times[j] - times[i])
  }

  lemma {:induction false} WindowsFitIffEverybodyConforms(lim: Limits, times: seq<real>)
    ensures WindowsFit(lim, times) <==> Conforms(lim, times, Everybody(|times|))
  {
    hide Supply;
    var all := Everybody(|times|);
    forall i, j | 0 <= i <= j < |times|
      ensures Slack(lim, times, all, i, j) == lim.burst + Supply(lim, times[j] - times[i]) - (j - i + 1) as real
    {
      AllAdmitted(all[i..j + 1]);
    }
  }

  /** Exact conformance: nobody is turned away exactly when every window of the
      trace holds at most the burst plus the rate times its length. */
  lemma {:induction false} AdmitsAllIffWindowsFit(lim: Limits, times: seq<real>)
    requires Sensible(lim) && NonDecreasing(times)
    ensures Decisions(lim, times) == Everybody(|times|) <==> WindowsFit(lim, times)
  {
    hide Decisions, Conforms, WindowsFit;
    var all, ds := Everybody(|times|), Decisions(lim, times);
    WindowsFitIffEverybodyConforms(lim, times);
    CheckConforms(lim, times);
    if WindowsFit(lim, times) {
      GreedyOptimal(lim, times, all, |times|);
      assert all[..|times|] == all && ds[..|times|] == ds;
      AllAdmitted(all);
      AllAdmitted(ds);
    }
  }

  // ---- Lock races -----------------------------------------------------------

  /** How far the stamps of a trace step back in all. */
  function Backward(times: seq<real>): real {
    if |times| < 2 then 0.0
    else
      var n := |times| - 1;
      Backward(times[..n]) + if times[n] < times[n - 1] then times[n - 1] - times[n] else 0.0
  }

  /** The trace on a clock that stands still whenever a stamp steps back. */
  function Warp(times: seq<real>): (w: seq<real>)
    ensures |w| == |times|
  {
    if times == [] then []
    else
      var n := |times| - 1;
      Warp(times[..n]) + [times[n] + Backward(times)]
  }

  lemma {:induction false} WarpAt(times: seq<real>, k: nat)
    requires k < |times|
    ensures Warp(times)[k] == times[k] + Backward(times[..k + 1])
  {
    var n := |times| - 1;
    if k < n {
      WarpAt(times[..n], k);
      assert times[..n][..k + 1] == times[..k + 1];
    } else {
      assert times[..k + 1] == times;
    }
  }

  lemma {:induction false} BackwardGrows(times: seq<real>, k: nat)
    requires k + 1 < |times|
    ensures Backward(times[..k + 2])
            == Backward(times[..k + 1]) + if times[k + 1] < times[k] then times[k] - times[k + 1] else 0.0
  {
    assert times[..k + 2][..k + 1] == times[..k + 1];
  }

  lemma {:induction false} WarpStep(times: seq<real>, k: nat)
    requires k + 1 < |times|
    ensures Warp(times)[k + 1] - Warp(times)[k] == Elapsed(times[k + 1], times[k])
  {
    WarpAt(times, k);
    WarpAt(times, k + 1);
    BackwardGrows(times, k);
  }

  lemma {:induction false} WarpNonDecreasing(times: seq<real>)
    ensures NonDecreasing(Warp(times))
    decreases |times|
  {
    var n := |times| - 1;
    if n < 1 {
    } else {
      WarpNonDecreasing(times[..n]);
      assert Warp(times)[..n] == Warp(times[..n]);
      WarpStep(times, n - 1);
    }
  }

  /** Backward steps before a window do not count in it. */
  lemma {:induction false} BackwardSplit(times: seq<real>, i: nat, j: nat)
    requires i <= j < |times|
    ensures Backward(times[..j + 1]) == Backward(times[..i + 1]) + Backward(times[i..j + 1])
    decreases j - i
  {
    if i == j {
    } else {
      BackwardSplit(times, i, j - 1);
      BackwardGrows(times, j - 1);
      assert times[i..j + 1][..j - i] == times[i..j];
    }
  }

  /** A racing limiter is a limiter whose requests arrive in order on the warped clock:
      it takes the same decisions and holds the same tokens. */
  lemma {:induction false} RaceIsOrderedRunOnWarpedClock(lim: Limits, times: seq<real>)
    ensures Decisions(lim, times) == Decisions(lim, Warp(times))
    ensures times != [] ==> After(lim, times).value.tokens == After(lim, Warp(times)).value.tokens
    decreases |times|
  {
    if times == [] {
    } else {
      var n := |times| - 1;
      RaceIsOrderedRunOnWarpedClock(lim, times[..n]);
      assert Warp(times)[..n] == Warp(times[..n]);
      if n > 0 {
        WarpStep(times, n - 1);
        assert Warp(times[..n])[n - 1] == Warp(times)[n - 1];
      }
    }
  }

  /** Whatever order the stamps reach the lock in, a run of consecutive critical
      sections admits at most the burst plus the rate over the elapsed time and
      over all backward steps inside the run. */
  lemma {:induction false} RaceWindowBound(lim: Limits, times: seq<real>, i: nat, j: nat)
    requires Sensible(lim) && i <= j < |times|
    ensures Admitted(Decisions(lim, times)[i..j + 1]) as real
            <= lim.burst + Supply(lim, times[j] - times[i] + Backward(times[i..j + 1]))
  {
    hide Decisions, After, Warp, Backward, Admitted, NonDecreasing, Supply;
    var w := Warp(times);
    WarpNonDecreasing(times);
    RaceIsOrderedRunOnWarpedClock(lim, times);
    CheckConforms(lim, w);
    assert Slack(lim, w, Decisions(lim, w), i, j) >= 0.0;
    WarpAt(times, i);
    WarpAt(times, j);
    BackwardSplit(times, i, j);
  }

  /** The exact description of every decision, for stamps in any order: admitting the
      request must keep every window within the allowance on the warped clock. */
  lemma {:induction false} RaceAdmitsIffStillConforms(lim: Limits, times: seq<real>, k: nat)
    requires Sensible(lim) && k < |times|
    ensures Decisions(lim, times)[k]
            <==> Conforms(lim, Warp(times)[..k + 1], Decisions(lim, times)[..k] + [true])
  {
    hide Conforms, Decisions, Warp;
    WarpNonDecreasing(times);
    RaceIsOrderedRunOnWarpedClock(lim, times);
    AdmitsIffStillConforms(lim, Warp(times), k);
  }

  lemma {:induction false} OrderedHasNoBackward(times: seq<real>)
    requires NonDecreasing(times)
    ensures Backward(times) == 0.0
  {
    if |times| < 2 {
    } else {
      OrderedHasNoBackward(times[..|times| - 1]);
    }
  }

  /** Enough burst admits everything. */
  lemma {:induction false} AmpleBurst(lim: Limits, times: seq<real>, n: nat)
    requires lim.rate >= 0.0 && |times| <= n && lim.burst >= n as real
    ensures forall k | 0 <= k < |times| :: Decisions(lim, times)[k]
    ensures times != [] ==> After(lim, times).value.tokens >= lim.burst - |times| as real
    decreases |times|
  {
    if times == [] {
    } else {
      AmpleBurst(lim, times[..|times| - 1], n);
      if |times| > 1 {
        assert Elapsed(times[|times| - 1], times[|times| - 2]) * lim.rate >= 0.0;
      }
    }
  }

  lemma {:induction false} OneStepBack(lim: Limits, times: seq<real>, k: nat)
    requires k + 1 < |times| && times[k + 1] < times[k]
    requires lim.burst == |times| as real
    requires Supply(lim, times[k] - times[k + 1]) == lim.burst
    requires lim.rate >= 0.0
    ensures !Conforms(lim, times, Decisions(lim, times))
  {
    AmpleBurst(lim, times, |times|);
    var ds := Decisions(lim, times);
    AllAdmitted(ds[k..k + 2]);
    SupplyAdds(lim, times[k + 1] - times[k], times[k] - times[k + 1]);
    assert Slack(lim, times, ds, k, k + 1) < 0.0;
  }

  /** The plain window bound, without the backward term, holds for every rate and
      burst exactly on the traces whose stamps reach the lock in order. */
  lemma {:induction false} PlainBoundIffOrdered(times: seq<real>)
    ensures NonDecreasing(times)
            <==> forall lim | Sensible(lim) :: Conforms(lim, times, Decisions(lim, times))
  {
    if NonDecreasing(times) {
      forall lim | Sensible(lim) ensures Conforms(lim, times, Decisions(lim, times)) {
        CheckConforms(lim, times);
      }
    } else {
      var k := SomeStepBack(times);
      var d := times[k] - times[k + 1];
      var lim := Limits(|times| as real / d, |times| as real);
      OneStepBack(lim, times, k);
      assert Sensible(lim);
    }
  }

  lemma {:induction false} SomeStepBack(times: seq<real>) returns (k: nat)
    requires !NonDecreasing(times)
    ensures k + 1 < |times| && times[k + 1] < times[k]
    decreases |times|
  {
    var n := |times| - 1;
    if NonDecreasing(times[..n]) {
      k := n - 1;
    } else {
      k := SomeStepBack(times[..n]);
    }
  }

  /** The limiter of the login and signup routes: five at once, five a minute. */
  const ROUTER_LIMITS: Limits := Limits(5.0 / 60.0, 5.0)

  lemma AfterNothing(lim: Limits)
    ensures After(lim, []) == None && Decisions(lim, []) == []
  {
  }

  lemma {:induction false} RouterSupply(lim: Limits)
    requires lim == ROUTER_LIMITS
    ensures Supply(lim, 0.0) == 0.0 && Supply(lim, 12.0) == 1.0
  {
  }

  /** Requests with the same stamp use the burst up one by one. */
  lemma {:induction false} SameStamp(lim: Limits, t: real, times: seq<real>)
    requires 1 <= |times| <= 5 && (forall k | 0 <= k < |times| :: times[k] == t)
    requires lim == ROUTER_LIMITS
    ensures After(lim, times) == Some(Bucket(5.0 - |times| as real, t))
    ensures forall k | 0 <= k < |times| :: Decisions(lim, times)[k]
  {
    hide Supply;
    RouterSupply(lim);
    if |times| > 1 {
      SameStamp(lim, t, times[..|times| - 1]);
    } else {
      AfterNothing(lim);
    }
  }

  lemma {:induction false} RouterChecks(lim: Limits)
    requires lim == ROUTER_LIMITS
    ensures Check(lim, Some(Bucket(0.0, 100.0)), 88.0) == Verdict(Bucket(0.0, 88.0), false)
    ensures Check(lim, Some(Bucket(0.0, 88.0)), 100.0) == Verdict(Bucket(0.0, 100.0), true)
  {
    hide Supply;
    RouterSupply(lim);
  }

  /** The plain bound broken at the limits the router uses: a stamp that comes twelve
      seconds late to the lock lets six requests through in a window of length zero. */
  lemma {:induction false} SixInNoTime(lim: Limits, times: seq<real>)
    requires lim == ROUTER_LIMITS
    requires times == [100.0, 100.0, 100.0, 100.0, 100.0, 88.0, 100.0]
    ensures Decisions(lim, times) == [true, true, true, true, true, false, true]
    ensures Admitted(Decisions(lim, times)) == 6 && times[6] == times[0]
    ensures !Conforms(lim, times, Decisions(lim, times))
  {
    hide After, Check, Decisions, Supply;
    var five, six := times[..5], times[..6];
    SameStamp(lim, 100.0, five);
    RouterChecks(lim);
    RouterSupply(lim);
    Snoc(lim, five, 88.0);
    assert six == five + [88.0];
    Snoc(lim, six, 100.0);
    assert times == six + [100.0];
    var ds := Decisions(lim, times);
    assert ds == [true, true, true, true, true, false, true];
    SixAdmitted(ds);
    assert ds[0..7] == ds;
    assert Slack(lim, times, ds, 0, 6) < 0.0;
  }

  lemma {:induction false} SixAdmitted(ds: seq<bool>)
    requires ds == [true, true, true, true, true, false, true]
    ensures Admitted(ds) == 6
  {
    var five := [true, true, true, true, true];
    AllAdmitted(five);
    AdmittedSnoc(five, false);
    AdmittedSnoc(five + [false], true);
    assert ds == five + [false] + [true];
  }
}
