/**
 * The rule `LogWatcher.detect_failover` applies to each pool it is given,
 * and what that rule does over a whole sequence of pools. The stored pool is
 * `last_pool`; it starts as `None`.
 */
module Failover {
  import opened Wrappers
  import opened LogParser

  function FailoverMessage(from: string, to: string): string {
    "Failover detected! From " + from + " to " + to
  }

  /** Python truthiness of `self.last_pool`: neither `None` nor the empty string. */
  predicate IsSet(last: Option<string>) {
    last.Some? && last.value != []
  }

  /** The alert raised for `pool` when `last` is the stored pool. */
  function StepAlert(last: Option<string>, pool: string): Option<string> {
    if IsSet(last) && pool != last.value && pool != Unknown then Some(FailoverMessage(last.value, pool))
    else None
  }

  /** The stored pool after `pool` has been seen: every known pool replaces it. */
  function StepPool(last: Option<string>, pool: string): Option<string> {
    if pool != Unknown then Some(pool) else last
  }

  function OptionToSeq(o: Option<string>): seq<string> {
    if o.Some? then [o.value] else []
  }

  /** The stored pool after feeding `pools`, in order, starting from `last`. */
  function FinalPool(last: Option<string>, pools: seq<string>): Option<string> {
    if pools == [] then last
    else StepPool(FinalPool(last, pools[..|pools| - 1]), pools[|pools| - 1])
  }

  /** The alerts raised while feeding `pools`, in order, starting from `last`. */
  function Alerts(last: Option<string>, pools: seq<string>): seq<string> {
    if pools == [] then []
    else
      var init := pools[..|pools| - 1];
      Alerts(last, init) + OptionToSeq(StepAlert(FinalPool(last, init), pools[|pools| - 1]))
  }

  /** Feeding one more pool adds its alert, if any, and applies its update. */
  lemma FeedOneMore(last: Option<string>, pools: seq<string>, pool: string)
    ensures Alerts(last, pools + [pool]) == Alerts(last, pools) + OptionToSeq(StepAlert(FinalPool(last, pools), pool))
    ensures FinalPool(last, pools + [pool]) == StepPool(FinalPool(last, pools), pool)
  {
    assert (pools + [pool])[..|pools|] == pools;
  }

  /** The pools other than `unknown`, in order. */
  function Known(pools: seq<string>): (ks: seq<string>)
    ensures |ks| <= |pools|
    ensures forall i :: 0 <= i < |ks| ==> ks[i] != Unknown && ks[i] in pools
  {
    if pools == [] then []
    else
      var init := Known(pools[..|pools| - 1]);
      if pools[|pools| - 1] == Unknown then init else init + [pools[|pools| - 1]]
  }

  /** One message for every place where a pool differs from the one before it. */
  function Transitions(ks: seq<string>): seq<string> {
    if |ks| < 2 then []
    else
      var a, b := ks[|ks| - 2], ks[|ks| - 1];
      Transitions(ks[..|ks| - 1]) + (if a != b then [FailoverMessage(a, b)] else [])
  }

  /**
   * Over any sequence of non-empty pools, the alerts are exactly the changes
   * between consecutive known pools (the stored pool, if any, counted as the
   * first of them), and the stored pool ends as the last known pool.
   */
  lemma {:induction false} AlertsAreTransitions(last: Option<string>, pools: seq<string>)
    requires last.None? || last.value != []
    requires forall i :: 0 <= i < |pools| ==> pools[i] != []
    ensures var ks := OptionToSeq(last) + Known(pools);
      && Alerts(last, pools) == Transitions(ks)
      && FinalPool(last, pools) == if ks == [] then None else Some(ks[|ks| - 1])
  {
    if pools != [] {
      var init, p := pools[..|pools| - 1], pools[|pools| - 1];
      AlertsAreTransitions(last, init);
      var ks := OptionToSeq(last) + Known(init);
      var fp := FinalPool(last, init);
      assert Alerts(last, pools) == Alerts(last, init) + OptionToSeq(StepAlert(fp, p));
      assert FinalPool(last, pools) == StepPool(fp, p);
      StoredPoolIsSet(last, init);
      if p != Unknown {
        assert Known(pools) == Known(init) + [p];
        assert OptionToSeq(last) + Known(pools) == ks + [p];
        TransitionsSnoc(ks, p);
      } else {
        assert Known(pools) == Known(init);
      }
    }
  }

  /** The stored pool is set exactly when some non-empty pool has been stored. */
  lemma StoredPoolIsSet(last: Option<string>, pools: seq<string>)
    requires last.None? || last.value != []
    requires forall i :: 0 <= i < |pools| ==> pools[i] != []
    requires var ks := OptionToSeq(last) + Known(pools);
      FinalPool(last, pools) == if ks == [] then None else Some(ks[|ks| - 1])
    ensures IsSet(FinalPool(last, pools)) <==> OptionToSeq(last) + Known(pools) != []
  {
    var ks := OptionToSeq(last) + Known(pools);
    if ks != [] && |ks| > |OptionToSeq(last)| {
      assert ks[|ks| - 1] == Known(pools)[|Known(pools)| - 1];
      assert ks[|ks| - 1] in pools;
    }
  }

  lemma TransitionsSnoc(ks: seq<string>, p: string)
    ensures Transitions(ks + [p])
         == Transitions(ks) + (if ks != [] && ks[|ks| - 1] != p then [FailoverMessage(ks[|ks| - 1], p)] else [])
  {
    assert (ks + [p])[..|ks|] == ks;
  }

  /** Without any `unknown` pool, every pool is a known one. */
  lemma {:induction false} KnownWithoutUnknown(pools: seq<string>)
    requires forall i :: 0 <= i < |pools| ==> pools[i] != Unknown
    ensures Known(pools) == pools
  {
    if pools != [] {
      KnownWithoutUnknown(pools[..|pools| - 1]);
    }
  }

  lemma TransitionsOfFlap(a: string, b: string)
    requires a != b
    ensures Transitions([a, a, b, b, a]) == [FailoverMessage(a, b), FailoverMessage(b, a)]
  {
    assert Transitions([a, a]) == [] by {
      TransitionsSnoc([a], a);
      assert [a] + [a] == [a, a];
    }
    assert Transitions([a, a, b]) == [FailoverMessage(a, b)] by {
      TransitionsSnoc([a, a], b);
      assert [a, a] + [b] == [a, a, b];
    }
    assert Transitions([a, a, b, b]) == [FailoverMessage(a, b)] by {
      TransitionsSnoc([a, a, b], b);
      assert [a, a, b] + [b] == [a, a, b, b];
    }
    TransitionsSnoc([a, a, b, b], a);
    assert [a, a, b, b] + [a] == [a, a, b, b, a];
  }

  /** Feeding `[a, a, b, b, a]` (as in blue, blue, green, green, blue) raises exactly a to b, then b to a. */
  lemma FlapRaisesTwoAlerts(a: string, b: string)
    requires a != [] && a != Unknown && b != [] && b != Unknown && a != b
    ensures Alerts(None, [a, a, b, b, a]) == [FailoverMessage(a, b), FailoverMessage(b, a)]
    ensures FinalPool(None, [a, a, b, b, a]) == Some(a)
  {
    var pools := [a, a, b, b, a];
    AlertsAreTransitions(None, pools);
    KnownWithoutUnknown(pools);
    assert OptionToSeq(None) + pools == pools;
    TransitionsOfFlap(a, b);
  }

  /** Feeding the same known pool over and over raises nothing and leaves it stored. */
  lemma SteadyPoolIsQuiet(pool: string, n: nat)
    requires pool != [] && pool != Unknown
    ensures Alerts(None, seq(n, _ => pool)) == []
    ensures n > 0 ==> FinalPool(None, seq(n, _ => pool)) == Some(pool)
  {
    var pools := seq(n, _ => pool);
    AlertsAreTransitions(None, pools);
    KnownWithoutUnknown(pools);
    assert OptionToSeq(None) + pools == pools;
    TransitionsOfSteady(pool, n);
  }

  lemma {:induction false} TransitionsOfSteady(pool: string, n: nat)
    ensures Transitions(seq(n, _ => pool)) == []
  {
    if n >= 2 {
      assert seq(n, _ => pool)[..n - 1] == seq(n - 1, _ => pool);
      TransitionsOfSteady(pool, n - 1);
    }
  }

  /** `unknown` pools neither raise an alert nor reset the stored pool. */
  lemma UnknownIsTransparent(last: Option<string>, pools: seq<string>)
    requires last.None? || last.value != []
    requires forall i :: 0 <= i < |pools| ==> pools[i] != []
    ensures Alerts(last, pools) == Alerts(last, Known(pools))
    ensures FinalPool(last, pools) == FinalPool(last, Known(pools))
  {
    AlertsAreTransitions(last, pools);
    KnownIdempotent(pools);
    forall i | 0 <= i < |Known(pools)| ensures Known(pools)[i] != [] {
      assert Known(pools)[i] in pools;
    }
    AlertsAreTransitions(last, Known(pools));
  }

  lemma {:induction false} KnownIdempotent(pools: seq<string>)
    ensures Known(Known(pools)) == Known(pools)
  {
    if pools != [] {
      var init := pools[..|pools| - 1];
      KnownIdempotent(init);
      var k := Known(pools);
      if pools[|pools| - 1] != Unknown {
        assert k[..|k| - 1] == Known(init);
      }
    }
  }

  /**
   * Feeding the same pools a second time, from the pool the first pass ended
   * on, raises an alert again for every change, and one more for the step
   * from the last pool back to the first when they differ.
   */
  lemma RepeatedPassRealerts(pools: seq<string>)
    requires forall i :: 0 <= i < |pools| ==> pools[i] != []
    requires Known(pools) != []
    ensures var ks := Known(pools);
      Alerts(FinalPool(None, pools), pools) == Transitions([ks[|ks| - 1]] + ks)
  {
    AlertsAreTransitions(None, pools);
    var ks := Known(pools);
    assert OptionToSeq(None) + ks == ks;
    AlertsAreTransitions(FinalPool(None, pools), pools);
  }

  lemma TransitionsOfSwitchBack(a: string, b: string)
    requires a != b
    ensures Transitions([a, b]) == [FailoverMessage(a, b)]
    ensures Transitions([b, a, b]) == [FailoverMessage(b, a), FailoverMessage(a, b)]
  {
    TransitionsSnoc([a], b);
    assert [a] + [b] == [a, b];
    TransitionsSnoc([b], a);
    assert [b] + [a] == [b, a];
    TransitionsSnoc([b, a], b);
    assert [b, a] + [b] == [b, a, b];
  }

  /** Feeding `[a, b]` once raises a to b and leaves b stored. */
  lemma SwitchRaisesOneAlert(a: string, b: string)
    requires a != [] && a != Unknown && b != [] && b != Unknown && a != b
    ensures Alerts(None, [a, b]) == [FailoverMessage(a, b)]
    ensures FinalPool(None, [a, b]) == Some(b)
  {
    var pools := [a, b];
    KnownWithoutUnknown(pools);
    AlertsAreTransitions(None, pools);
    assert OptionToSeq(None) + pools == pools;
    TransitionsOfSwitchBack(a, b);
  }

  /** Feeding `[a, b]` a second time, with b stored, raises b to a and a to b again. */
  lemma SecondPassRealerts(a: string, b: string)
    requires a != [] && a != Unknown && b != [] && b != Unknown && a != b
    ensures Alerts(Some(b), [a, b]) == [FailoverMessage(b, a), FailoverMessage(a, b)]
  {
    assert Alerts(Some(b), [a, b]) == Transitions(OptionToSeq(Some(b)) + Known([a, b])) by {
      AlertsAreTransitions(Some(b), [a, b]);
    }
    assert OptionToSeq(Some(b)) + Known([a, b]) == [b, a, b] by {
      KnownWithoutUnknown([a, b]);
    }
    TransitionsOfSwitchBack(a, b);
  }
}
