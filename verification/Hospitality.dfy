/** What the platform reports about its free ways: the hospitality score
    (modules/hospitality/hospitality.go, GetByRequestMaxMin) and the policy count
    (modules/cache/cache.go, getAvailablePolicyCount). */
module Hospitality {
  import opened Words
  import opened WaySets
  import opened Bitmaps
  import opened Text
  import opened Ranges
  import opened Search
  import opened CachePools
  import opened Packing
  import opened Enforcement

  ghost predicate SomeFit(s: set<nat>, n: nat) {
    exists p: nat :: Fits(s, p, n)
  }

  /** The score of one cache for a request of `max` and at least `min` ways: the longest free run
      in percent of `max`, capped at 100, and 0 when the run is shorter than `min`. A guaranteed
      request scores 100 or 0. */
  method ScoreOn(v: Bitmap, max: nat, min: nat) returns (score: nat)
    requires v.Valid() && v.len * 100 < UINT32 && 1 <= min <= max
    ensures score <= 100
    ensures forall n: nat :: LongestBlock(v.View(), n) ==> score == Percent(n, max, min)
    ensures forall n: nat :: LongestBlock(v.View(), n) && min <= n < max ==> PartOf(n, max, score)
    ensures forall n: nat :: LongestBlock(v.View(), n) && n >= max ==> score == 100
    ensures score > 0 <==> exists n: nat :: LongestBlock(v.View(), n) && n >= min && 100 * n >= max
    ensures max == min ==> score == if SomeFit(v.View(), max) then 100 else 0
    ensures max <= 100 * min ==> (score > 0 <==> SomeFit(v.View(), min))
  {
    var longest := LongestFree(v, min);
    LongestDecides(v.View(), longest, min, max);
    score := Rescale(longest, max);
    forall n: nat | LongestBlock(v.View(), n) && min <= n ensures if n < max then PartOf(n, max, score) else score == 100 {
      PercentIsPart(n, max, min);
    }
  }

  /** `score` is `n` in percent of `max`, rounded down. */
  ghost predicate PartOf(n: nat, max: nat, score: nat) {
    score * max <= 100 * n < (score + 1) * max
  }

  lemma PercentIsPart(n: nat, max: nat, min: nat)
    requires max >= 1 && min <= n
    ensures if n < max then PartOf(n, max, Percent(n, max, min)) else Percent(n, max, min) == 100
  {
    var k := n * 100 / max - 100;
    QuotientBounds(n * 100, max);
    Percentage(n, max);
    ScaleBy(k, max);
    assert k * max == n * 100 / max * max - 100 * max;
    assert n < max ==> k * max < 0;
  }

  lemma QuotientBounds(x: nat, d: nat)
    requires d >= 1
    ensures x / d * d <= x < (x / d + 1) * d
  {
    assert x == x / d * d + x % d;
    assert (x / d + 1) * d == x / d * d + d;
  }

  /** A longer free run never scores lower. */
  lemma LongerScoresNoLess(m: nat, n: nat, max: nat, min: nat)
    requires 1 <= min <= max && m <= n
    ensures Percent(m, max, min) <= Percent(n, max, min)
  {
    QuotientMonotone(m * 100, n * 100, max);
  }

  lemma QuotientMonotone(x: nat, y: nat, d: nat)
    requires d >= 1 && x <= y
    ensures x / d <= y / d
  {
    var q := x / d;
    QuotientBounds(x, d);
    QuotientAtLeast(y, d, q);
  }

  /** The score a longest run of `n` ways stands for. */
  function Percent(n: nat, max: nat, min: nat): nat
    requires max >= 1
  {
    if n < min then 0 else if n * 100 / max > 100 then 100 else n * 100 / max
  }

  /** In percent of `max`, capped. */
  method Rescale(longest: nat, max: nat) returns (score: nat)
    requires max >= 1
    ensures score <= 100 && score == Percent(longest, max, 1)
    ensures score > 0 <==> longest > 0 && 100 * longest >= max
    ensures longest >= max ==> score == 100
  {
    score := longest;
    Percentage(longest, max);
    if score > 0 {
      score := score * 100 / max;
      if score > 100 {
        score := 100;
      }
    }
  }

  /** The longest run settles both questions: does `min` fit, and is it a hundredth of `max`. */
  lemma LongestDecides(s: set<nat>, longest: nat, min: nat, max: nat)
    requires min >= 1 && (longest == 0 <==> forall p: nat :: !Fits(s, p, min))
    requires longest > 0 ==> longest >= min && LongestBlock(s, longest)
    ensures SomeFit(s, min) <==> longest > 0
    ensures (exists n: nat :: LongestBlock(s, n) && n >= min && 100 * n >= max) <==> longest > 0 && 100 * longest >= max
    ensures forall n: nat :: LongestBlock(s, n) ==> if longest == 0 then n < min else n == longest
  {
    forall n: nat | LongestBlock(s, n) ensures if longest == 0 then n < min else n == longest {
      if longest > 0 {
        OneLongest(s, n, longest);
      } else if n >= min {
        ShorterFits(s, n, min);
      }
    }
    if n: nat :| LongestBlock(s, n) && n >= min && 100 * n >= max {
      ShorterFits(s, n, min);
      OneLongest(s, n, longest);
    }
  }

  lemma OneLongest(s: set<nat>, m: nat, n: nat)
    requires LongestBlock(s, m) && LongestBlock(s, n)
    ensures m == n
  {
    var p: nat :| Fits(s, p, m);
    var q: nat :| Fits(s, q, n);
  }

  lemma Percentage(n: nat, max: nat)
    requires max >= 1
    ensures n * 100 / max > 0 <==> 100 * n >= max
    ensures n >= max ==> n * 100 / max >= 100
  {
    AtLeast(n * 100, max);
    if n >= max {
      QuotientAtLeast(n * 100, max, 100);
    }
  }

  lemma QuotientAtLeast(x: nat, d: nat, c: nat)
    requires d >= 1 && x >= c * d
    ensures x / d >= c
  {
    var q := x / d;
    assert x == q * d + x % d;
    assert (q - c) * d == q * d - c * d;
    ScaleBy(q - c, d);
  }

  /** On the same free ways the report and the allocator agree up to rounding: the score is
      positive exactly when the request would be granted and the longest free run is at least a
      hundredth of `max`. So a guaranteed request scores 100 or 0 by whether it is granted, and
      for best effort the two agree on all inputs with `max` at most 100 times `min`. */
  method ScoreForeseesGrant(v: Bitmap, max: nat, min: nat) returns (score: nat, granted: Option<Bitmap>)
    requires v.Valid() && v.len * 100 < UINT32 && 1 <= min <= max < UINT32
    ensures granted.Some? <==> SomeFit(v.View(), min)
    ensures score > 0 <==> granted.Some? && exists n: nat :: LongestBlock(v.View(), n) && 100 * n >= max
    ensures max == min ==> (score == 100 <==> granted.Some?) && (score == 0 <==> granted.None?)
    ensures max <= 100 * min ==> (score > 0 <==> granted.Some?)
  {
    score := ScoreOn(v, max, min);
    if max == min {
      granted := HighestBlock(v, max);
    } else {
      granted := BestEffortBlock(v, max, min);
    }
    assert granted.Some? <==> SomeFit(v.View(), min);
    PositiveMeans(v.View(), max, min);
  }

  lemma PositiveMeans(s: set<nat>, max: nat, min: nat)
    ensures (exists n: nat :: LongestBlock(s, n) && n >= min && 100 * n >= max)
      <==> SomeFit(s, min) && exists n: nat :: LongestBlock(s, n) && 100 * n >= max
  {
    if n: nat :| LongestBlock(s, n) && n >= min && 100 * n >= max {
      ShorterFits(s, n, min);
    }
    if SomeFit(s, min) && exists n: nat :: LongestBlock(s, n) && 100 * n >= max {
      var n: nat :| LongestBlock(s, n) && 100 * n >= max;
      var p: nat :| Fits(s, p, min);
      assert n >= min;
    }
  }

  /** One free way, at most 200 and at least 1 asked for: scored 0, yet granted. */
  method ScoreMissesGrant() returns (v: Bitmap, score: nat, granted: Option<Bitmap>)
    ensures v.Valid() && v.len == 11 && v.View() == Interval(0, 1)
    ensures score == 0 && granted.Some?
  {
    v := FromBlock(11, 0, 0);
    score, granted := ScoreForeseesGrant(v, 200, 1);
    OneFreeWay(v.View());
  }

  lemma OneFreeWay(s: set<nat>)
    requires s == Interval(0, 1)
    ensures SomeFit(s, 1) && forall n: nat :: LongestBlock(s, n) ==> n == 1
  {
    assert Fits(s, 0, 1);
    forall n: nat | LongestBlock(s, n) ensures n == 1 {
      var p: nat :| Fits(s, p, n);
      assert p in Interval(p, p + n) && p + n - 1 in Interval(p, p + n);
    }
  }

  /** The scores of all caches, or of the one asked for. */
  method Scores(av: map<nat, Bitmap>, max: nat, min: nat, cacheId: Option<nat>) returns (scores: map<nat, nat>)
    requires forall k :: k in av ==> av[k].Valid() && av[k].len * 100 < UINT32
    requires 1 <= min <= max
    ensures forall k :: k in scores <==> k in av && (cacheId.None? || cacheId.value == k)
    ensures forall k, n: nat :: k in scores && LongestBlock(av[k].View(), n) ==> scores[k] == Percent(n, max, min)
    ensures forall k, n: nat :: k in scores && LongestBlock(av[k].View(), n) ==>
      if n < min then scores[k] == 0 else if n < max then PartOf(n, max, scores[k]) else scores[k] == 100
    ensures forall j, k, m: nat, n: nat ::
      j in scores && k in scores && LongestBlock(av[j].View(), m) && LongestBlock(av[k].View(), n) && m <= n ==> scores[j] <= scores[k]
    ensures max == min ==> forall k :: k in scores ==> scores[k] == if SomeFit(av[k].View(), max) then 100 else 0
    ensures max <= 100 * min ==> forall k :: k in scores ==> (scores[k] > 0 <==> SomeFit(av[k].View(), min))
  {
    scores := map[];
    var todo := av.Keys;
    while todo != {}
      invariant todo <= av.Keys
      invariant forall k :: k in scores <==> k in av && k !in todo && (cacheId.None? || cacheId.value == k)
      invariant forall k, n: nat :: k in scores && LongestBlock(av[k].View(), n) ==> scores[k] == Percent(n, max, min)
      invariant max == min ==> forall k :: k in scores ==> scores[k] == if SomeFit(av[k].View(), max) then 100 else 0
      invariant max <= 100 * min ==> forall k :: k in scores ==> (scores[k] > 0 <==> SomeFit(av[k].View(), min))
    {
      var k :| k in todo;
      todo := todo - {k};
      var score := ScoreOn(av[k], max, min);
      if cacheId.None? || cacheId.value == k {
        scores := scores[k := score];
      }
    }
    forall k, n: nat | k in scores && LongestBlock(av[k].View(), n)
      ensures if n < min then scores[k] == 0 else if n < max then PartOf(n, max, scores[k]) else scores[k] == 100
    {
      assert scores[k] == Percent(n, max, min);
      if min <= n {
        PercentIsPart(n, max, min);
      }
    }
    forall j, k, m: nat, n: nat |
        j in scores && k in scores && LongestBlock(av[j].View(), m) && LongestBlock(av[k].View(), n) && m <= n
      ensures scores[j] <= scores[k]
    {
      LongerScoresNoLess(m, n, max, min);
    }
  }

  /** The ways of a pool that the groups in `names` leave free. */
  ghost function LeftIn(cfg: Config, allres: map<string, Masks>, names: set<string>, pool: set<nat>, k: nat): set<nat> {
    set i | i in pool && !TakenBy(cfg, allres, names, k, i)
  }

  /** getAvailablePolicyCount: how many more workloads of a policy fit on one cache. */
  method AvailablePolicyCount(cfg: Config, numClosids: nat, pools: map<PoolKind, map<nat, Bitmap>>, quota: nat,
                              allres: map<string, Masks>, ignoreGroups: set<string>, max: nat, min: nat, k: nat)
      returns (count: Option<nat>)
    requires forall kind :: kind in pools ==> k in pools[kind] && GoodGroups(cfg, allres, pools[kind].Keys)
    requires forall kind, j :: kind in pools && j in pools[kind] ==> pools[kind][j].Valid() && pools[kind][j].len == cfg.width
    ensures max == 0 ==> count == Some(if Shared in pools then quota else 0)
    ensures max > 0 ==> (count.None? <==> |allres| >= numClosids)
    ensures count.Some? && max > 0 && ((max == min && Guarantee !in pools) || (max > min && Besteffort !in pools)) ==> count.value == 0
    ensures count.Some? && max > 0 && (min > max || min == 0) ==> count.value == 0
    ensures count.Some? && max == min > 0 && Guarantee in pools ==>
      MostBlocks(LeftIn(cfg, allres, allres.Keys - ignoreGroups, pools[Guarantee][k].View(), k), max, count.value)
    ensures count.Some? && max > min > 0 && Besteffort in pools ==>
      MostBlocks(LeftIn(cfg, allres, allres.Keys - ignoreGroups, pools[Besteffort][k].View(), k), min, count.value)
  {
    var name := PoolName(max, min);
    KindByNumbers(max, min);
    if name == Some(Shared) {
      return Some(if Shared in pools then quota else 0);
    }
    if |allres| >= numClosids {
      return None;
    }
    if name.None? || name.value !in pools {
      return Some(0);
    }
    var pool := pools[name.value];
    var pav := GetAvailableCacheSchemata(cfg, numClosids, allres, ignoreGroups, pool);
    assert LeftOver(cfg, allres, allres.Keys - ignoreGroups, pool, pav.value, k);
    assert pav.value[k].View() == LeftIn(cfg, allres, allres.Keys - ignoreGroups, pool[k].View(), k);
    var n := CountBlocks(pav.value[k], if name.value == Guarantee then max else min);
    count := Some(n);
  }
}
