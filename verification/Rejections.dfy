/** Rejected requests: when they leave no trace in later decisions, exactly. */
module Rejections {
  import opened Text
  import opened TokenBucket

  function Without<T>(s: seq<T>, k: nat): seq<T>
    requires k < |s|
  {
    s[..k] + s[k + 1..]
  }

  /** The stamp at k lies between its neighbours, in one direction or the other. */
  predicate BetweenNeighbours(times: seq<real>, k: nat)
    requires k < |times|
  {
    0 < k < |times| - 1 ==>
      times[k - 1] <= times[k] <= times[k + 1] || times[k + 1] <= times[k] <= times[k - 1]
  }

  /** Refilling by a and then by b is refilling by a + b under the same cap, so a
      bucket that turned a request away serves the next as if it had not been asked. */
  lemma {:induction false} RejectionRefillsOnce(lim: Limits, b: Bucket, now: real, next: real)
    requires lim.rate >= 0.0
    requires Elapsed(next, b.last) == Elapsed(now, b.last) + Elapsed(next, now)
    requires !Check(lim, Some(b), now).admitted
    ensures Check(lim, Some(Check(lim, Some(b), now).bucket), next) == Check(lim, Some(b), next)
  {
    SupplyAdds(lim, Elapsed(now, b.last), Elapsed(next, now));
    SupplyMonotone(lim, 0.0, Elapsed(next, now));
  }

  /** A new bucket is a full one: whether the first request was turned away or never came. */
  lemma {:induction false} FreshIsFull(lim: Limits, now: real, next: real)
    requires lim.rate >= 0.0
    requires !Check(lim, None, now).admitted
    ensures Check(lim, Some(Check(lim, None, now).bucket), next) == Check(lim, None, next)
  {
    SupplyMonotone(lim, 0.0, 0.0);
    SupplyMonotone(lim, 0.0, Elapsed(next, now));
  }

  /** The bucket in front of the request after a rejected one. */
  lemma {:induction false} RejectionThenNext(lim: Limits, times: seq<real>, now: real, next: real)
    requires lim.rate >= 0.0
    requires times != [] ==> var last := times[|times| - 1]; last <= now <= next || next <= now <= last
    requires !Check(lim, After(lim, times), now).admitted
    ensures Check(lim, After(lim, times + [now]), next) == Check(lim, After(lim, times), next)
  {
    Snoc(lim, times, now);
    if times == [] {
      FreshIsFull(lim, now, next);
    } else {
      RejectionRefillsOnce(lim, After(lim, times).value, now, next);
    }
  }

  /** Requests `after` a rejected one see the bucket they would have seen without it. */
  lemma {:induction false} RejectionThenRest(lim: Limits, before: seq<real>, now: real, after: seq<real>)
    requires lim.rate >= 0.0
    requires before != [] && after != [] ==>
               var last, next := before[|before| - 1], after[0];
               last <= now <= next || next <= now <= last
    requires !Check(lim, After(lim, before), now).admitted
    ensures after != [] ==> After(lim, before + [now] + after) == After(lim, before + after)
    ensures Decisions(lim, before + [now] + after)[|before| + 1..] == Decisions(lim, before + after)[|before|..]
    decreases |after|
  {
    hide After, Decisions, Check;
    var n := |after| - 1;
    if n < 0 {
      assert before + [now] + after == before + [now] && before + after == before;
    } else {
      var init := after[..n];
      RejectionThenRest(lim, before, now, init);
      Snoc(lim, before + [now] + init, after[n]);
      Snoc(lim, before + init, after[n]);
      assert before + [now] + after == before + [now] + init + [after[n]];
      assert before + after == before + init + [after[n]];
      if n == 0 {
        assert before + [now] + init == before + [now] && before + init == before;
        RejectionThenNext(lim, before, now, after[0]);
      }
    }
  }

  /** A rejected request leaves no trace: without it, every other request gets the
      same answer. It is enough that its stamp lies between its neighbours'. */
  lemma {:induction false} RejectionsAreInvisible(lim: Limits, times: seq<real>, k: nat)
    requires lim.rate >= 0.0 && k < |times|
    requires BetweenNeighbours(times, k)
    requires !Decisions(lim, times)[k]
    ensures Decisions(lim, Without(times, k)) == Without(Decisions(lim, times), k)
  {
    hide After, Decisions, Check;
    var before, now, after := times[..k], times[k], times[k + 1..];
    assert times == before + [now] + after && times[..k + 1] == before + [now];
    DecisionsPrefix(lim, times, k + 1);
    Snoc(lim, before, now);
    RejectionThenRest(lim, before, now, after);
    DecisionsPrefix(lim, times, k);
    DecisionsPrefix(lim, Without(times, k), k);
    assert Without(times, k)[..k] == before;
  }

  lemma {:induction false} OrderedIsBetween(times: seq<real>, k: nat)
    requires NonDecreasing(times) && k < |times|
    ensures BetweenNeighbours(times, k)
  {
    if 0 < k < |times| - 1 {
      NonDecreasingPrefix(times, k + 1);
      NonDecreasingPrefix(times, k + 2);
    }
  }

  // ---- When rejections show ------------------------------------------------------

  /** How far the stamps of a trace step forward in all. */
  function Forward(times: seq<real>): real {
    if |times| < 2 then 0.0
    else
      var n := |times| - 1;
      Forward(times[..n]) + Elapsed(times[n], times[n - 1])
  }

  lemma {:induction false} ForwardOfPrefix(times: seq<real>, k: nat)
    requires k <= |times|
    ensures 0.0 <= Forward(times[..k]) <= Forward(times)
    decreases |times|
  {
    var n := |times| - 1;
    if k == |times| {
      assert times[..k] == times;
      if k > 0 {
        ForwardOfPrefix(times[..n], n);
      }
    } else {
      ForwardOfPrefix(times[..n], k);
      assert times[..n][..k] == times[..k];
    }
  }

  lemma {:induction false} ForwardSnoc(times: seq<real>, t: real)
    requires times != []
    ensures Forward(times + [t]) == Forward(times) + Elapsed(t, times[|times| - 1])
  {
    assert (times + [t])[..|times|] == times;
  }

  /** What leaving a request out does to the forward steps. */
  lemma {:induction false} ForwardWithout(times: seq<real>, k: nat)
    requires 0 < k < |times| - 1
    ensures Forward(Without(times, k)) == Forward(times)
              - Elapsed(times[k], times[k - 1]) - Elapsed(times[k + 1], times[k]) + Elapsed(times[k + 1], times[k - 1])
    decreases |times|
  {
    hide Forward;
    var n := |times| - 1;
    var init, last := times[..n], times[n];
    assert times == init + [last];
    ForwardSnoc(init, last);
    if k == n - 1 {
      var before := times[..k];
      assert init == before + [times[k]] && Without(times, k) == before + [last];
      ForwardSnoc(before, times[k]);
      ForwardSnoc(before, last);
    } else {
      ForwardWithout(init, k);
      assert Without(times, k) == Without(init, k) + [last];
      ForwardSnoc(Without(init, k), last);
    }
  }

  lemma {:induction false} SupplyStrict(lim: Limits, a: real, b: real)
    requires lim.rate > 0.0 && a < b
    ensures Supply(lim, a) < Supply(lim, b)
  {
  }

  /** With a burst of one, as long as the forward steps supply less than one token,
      only the first request is admitted and the tokens are what was supplied. */
  lemma {:induction false} Filling(lim: Limits, times: seq<real>)
    requires lim.burst == 1.0 && lim.rate >= 0.0 && times != []
    requires Supply(lim, Forward(times)) < 1.0
    ensures After(lim, times).value.tokens == Supply(lim, Forward(times))
    ensures Decisions(lim, times)[|times| - 1] == (|times| == 1)
    decreases |times|
  {
    hide Supply;
    var n := |times| - 1;
    SupplyMonotone(lim, 0.0, 0.0);
    if n == 0 {
      AfterNothing(lim);
    } else {
      ForwardOfPrefix(times, n);
      SupplyMonotone(lim, Forward(times[..n]), Forward(times));
      SupplyAdds(lim, Forward(times[..n]), Elapsed(times[n], times[n - 1]));
      Filling(lim, times[..n]);
    }
  }

  /** The request at which the first whole token is there is admitted. */
  lemma {:induction false} Filled(lim: Limits, times: seq<real>)
    requires lim.burst == 1.0 && lim.rate >= 0.0 && |times| >= 2
    requires Supply(lim, Forward(times[..|times| - 1])) < 1.0 <= Supply(lim, Forward(times))
    ensures Decisions(lim, times)[|times| - 1]
  {
    hide Supply;
    var n := |times| - 1;
    Filling(lim, times[..n]);
    SupplyAdds(lim, Forward(times[..n]), Elapsed(times[n], times[n - 1]));
  }

  /** No stamp after the request at k steps forward. */
  predicate NoLaterForward(times: seq<real>, k: nat)
    requires k < |times|
  {
    forall p | k < p < |times| :: times[p] <= times[p - 1]
  }

  lemma {:induction false} OneTokenIn(lim: Limits, f: real)
    requires f > 0.0 && lim.rate == 1.0 / f
    ensures Supply(lim, f) == 1.0
  {
  }

  lemma WithoutPrefix(times: seq<real>, k: nat, p: nat)
    requires k < p < |times|
    ensures Without(times, k)[..p] == Without(times[..p + 1], k)
  {
  }

  /** Otherwise there are limits at which the request is rejected and matters: the
      token is complete at the later forward step with it, and not without it. */
  lemma {:induction false} RejectionShows(times: seq<real>, k: nat, p: nat) returns (lim: Limits)
    requires k < p < |times| && !BetweenNeighbours(times, k) && times[p] > times[p - 1]
    ensures Sensible(lim) && !Decisions(lim, times)[k]
    ensures Decisions(lim, Without(times, k)) != Without(Decisions(lim, times), k)
  {
    hide Decisions, After, Check, Supply, Forward;
    var upTo, before := times[..p + 1], times[..p];
    assert upTo == before + [times[p]];
    ForwardSnoc(before, times[p]);
    ForwardOfPrefix(before, 0);
    ForwardOfPrefix(before, k + 1);
    ForwardOfPrefix(before, p);
    assert before[..p] == before && before[..k + 1] == times[..k + 1];
    lim := Limits(1.0 / Forward(upTo), 1.0);
    OneTokenIn(lim, Forward(upTo));
    SupplyStrict(lim, Forward(before), Forward(upTo));
    SupplyStrict(lim, Forward(times[..k + 1]), Forward(upTo));
    Filling(lim, times[..k + 1]);
    DecisionsPrefix(lim, times, k + 1);
    assert upTo[..p] == before;
    Filled(lim, upTo);
    DecisionsPrefix(lim, times, p + 1);
    var others := Without(times, k);
    WithoutPrefix(times, k, p);
    ForwardWithout(upTo, k);
    SupplyStrict(lim, Forward(others[..p]), Forward(upTo));
    Filling(lim, others[..p]);
    DecisionsPrefix(lim, others, p);
    assert Without(Decisions(lim, times), k)[p - 1] == Decisions(lim, times)[p];
  }

  /** The schedule that admits nobody. */
  function Nobody(n: nat): seq<bool> {
    seq(n, _ => false)
  }

  lemma {:induction false} NoLaterForwardPrefix(times: seq<real>, k: nat, n: nat)
    requires k < n <= |times| && NoLaterForward(times, k)
    ensures NoLaterForward(times[..n], k)
  {
  }

  /** A bucket short of a token stays short when the stamp does not step forward. */
  lemma {:induction false} ShortStep(lim: Limits, before: seq<real>, now: real)
    requires lim.rate >= 0.0 && before != [] && now <= before[|before| - 1]
    requires After(lim, before).value.tokens < 1.0
    ensures Decisions(lim, before + [now]) == Decisions(lim, before) + [false]
    ensures After(lim, before + [now]).value.tokens < 1.0
  {
    hide Decisions, Supply;
    Snoc(lim, before, now);
    SupplyMonotone(lim, 0.0, 0.0);
  }

  lemma {:induction false} StaysShort(lim: Limits, times: seq<real>, k: nat)
    requires lim.rate >= 0.0 && k < |times| && NoLaterForward(times, k)
    requires After(lim, times[..k + 1]).value.tokens < 1.0
    ensures Decisions(lim, times) == Decisions(lim, times[..k + 1]) + Nobody(|times| - k - 1)
    ensures After(lim, times).value.tokens < 1.0
    decreases |times|
  {
    hide Decisions, After;
    var n := |times| - 1;
    if k == n {
      assert times[..k + 1] == times;
    } else {
      var init := times[..n];
      NoLaterForwardPrefix(times, k, n);
      assert init[..k + 1] == times[..k + 1] && init + [times[n]] == times;
      StaysShort(lim, init, k);
      assert times[n] <= times[n - 1];
      ShortStep(lim, init, times[n]);
    }
  }

  /** A request stamped no later than a rejected one would be rejected in its place. */
  lemma {:induction false} EarlierIsRejectedToo(lim: Limits, before: seq<real>, now: real, next: real)
    requires lim.rate >= 0.0 && before != [] && next <= now
    requires !Check(lim, After(lim, before), now).admitted
    ensures !Check(lim, After(lim, before), next).admitted
  {
    hide Supply;
    var last := before[|before| - 1];
    SupplyMonotone(lim, Elapsed(next, last), Elapsed(now, last));
  }

  lemma {:induction false} RejectedIsShort(lim: Limits, slot: Option<Bucket>, now: real)
    requires !Check(lim, slot, now).admitted
    ensures Check(lim, slot, now).bucket.tokens < 1.0
  {
  }

  lemma {:induction false} NoLaterForwardWithout(times: seq<real>, k: nat)
    requires k < |times| - 1 && NoLaterForward(times, k)
    ensures NoLaterForward(Without(times, k), k)
  {
    var others := Without(times, k);
    forall p | k < p < |others| ensures others[p] <= others[p - 1] {
      assert others[p] == times[p + 1] && others[p - 1] == times[p];
    }
  }

  lemma {:induction false} InvisibleAtTheEnd(lim: Limits, times: seq<real>, k: nat)
    requires lim.rate >= 0.0 && 0 < k < |times| - 1 && NoLaterForward(times, k)
    requires !Decisions(lim, times)[k]
    ensures Decisions(lim, Without(times, k)) == Without(Decisions(lim, times), k)
  {
    hide Decisions, After, Check;
    var before, now, next, others := times[..k], times[k], times[k + 1], Without(times, k);
    assert times[..k + 1] == before + [now] && others[..k + 1] == before + [next];
    DecisionsPrefix(lim, times, k + 1);
    Snoc(lim, before, now);
    Snoc(lim, before, next);
    EarlierIsRejectedToo(lim, before, now, next);
    RejectedIsShort(lim, After(lim, before), now);
    RejectedIsShort(lim, After(lim, before), next);
    StaysShort(lim, times, k);
    NoLaterForwardWithout(times, k);
    StaysShort(lim, others, k);
  }

  /** Exactly when a rejected request leaves no trace, whatever the limits: its stamp
      lies between its neighbours', or no later stamp steps forward. */
  lemma {:induction false} InvisibleIffBetweenOrLast(times: seq<real>, k: nat)
    requires k < |times|
    ensures (forall lim | Sensible(lim) && !Decisions(lim, times)[k] ::
               Decisions(lim, Without(times, k)) == Without(Decisions(lim, times), k))
            <==> BetweenNeighbours(times, k) || NoLaterForward(times, k)
  {
    hide Decisions, Without;
    if BetweenNeighbours(times, k) || NoLaterForward(times, k) {
      forall lim | Sensible(lim) && !Decisions(lim, times)[k]
        ensures Decisions(lim, Without(times, k)) == Without(Decisions(lim, times), k)
      {
        if BetweenNeighbours(times, k) {
          RejectionsAreInvisible(lim, times, k);
        } else {
          InvisibleAtTheEnd(lim, times, k);
        }
      }
    } else {
      var p :| k < p < |times| && times[p] > times[p - 1];
      var lim := RejectionShows(times, k, p);
      assert Sensible(lim);
    }
  }

  lemma {:induction false} UnitChecks(lim: Limits)
    requires lim == Limits(1.0, 1.0)
    ensures Check(lim, None, 0.0) == Verdict(Bucket(0.0, 0.0), true)
    ensures Check(lim, Some(Bucket(0.0, 0.0)), 1.0) == Verdict(Bucket(0.0, 1.0), true)
    ensures Check(lim, Some(Bucket(0.0, 1.0)), 0.0) == Verdict(Bucket(0.0, 0.0), false)
    ensures Check(lim, Some(Bucket(0.0, 1.0)), 1.0) == Verdict(Bucket(0.0, 1.0), false)
  {
    hide Supply;
    UnitSupply(lim, 0.0);
    UnitSupply(lim, 1.0);
  }

  lemma {:induction false} UnitSupply(lim: Limits, dt: real)
    requires lim.rate == 1.0
    ensures Supply(lim, dt) == dt
  {
  }

  /** Without that condition a rejected request can matter: here the third of four
      requests is rejected, and only because of it is the fourth admitted. */
  lemma {:induction false} RejectionVisibleUnderRace(lim: Limits, times: seq<real>)
    requires lim == Limits(1.0, 1.0) && times == [0.0, 1.0, 0.0, 1.0]
    ensures Decisions(lim, times) == [true, true, false, true]
    ensures Decisions(lim, Without(times, 2)) == [true, true, false]
  {
    hide After, Decisions, Check;
    UnitChecks(lim);
    AfterNothing(lim);
    var a, b, c := [0.0], [0.0, 1.0], [0.0, 1.0, 0.0];
    Snoc(lim, [], 0.0);
    assert [] + [0.0] == a;
    Snoc(lim, a, 1.0);
    assert a + [1.0] == b;
    Snoc(lim, b, 0.0);
    assert b + [0.0] == c;
    Snoc(lim, c, 1.0);
    assert c + [1.0] == times;
    Snoc(lim, b, 1.0);
    assert b + [1.0] == Without(times, 2);
  }
}
