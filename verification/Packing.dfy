/** How many more requests of a given size fit (modules/cache/cache.go,
    getAvailablePolicyCount): the count is the optimum, and the allocator attains it. */
module Packing {
  import opened Words
  import opened WaySets
  import opened Bitmaps
  import opened Text
  import opened Runs
  import opened Search

  /** Starts of pairwise disjoint blocks of `w` members of `s`. */
  ghost predicate Blocks(s: set<nat>, w: nat, starts: set<nat>) {
    && (forall p :: p in starts ==> Fits(s, p, w))
    && forall p, q :: p in starts && q in starts && p != q ==> p + w <= q || q + w <= p
  }

  /** `n` blocks fit, and no more. */
  ghost predicate MostBlocks(s: set<nat>, w: nat, n: nat) {
    && (exists starts: set<nat> :: Blocks(s, w, starts) && |starts| == n)
    && forall starts: set<nat> :: Blocks(s, w, starts) ==> |starts| <= n
  }

  // ----- counting by scanning: a block is complete at every w-th member of a run -----

  ghost function Phase(s: set<nat>, n: nat, w: nat): (f: nat)
    requires w >= 1
    ensures f < w
  {
    if n == 0 || n - 1 !in s then 0
    else if Phase(s, n - 1, w) + 1 == w then 0
    else Phase(s, n - 1, w) + 1
  }

  ghost function Capacity(s: set<nat>, n: nat, w: nat): nat
    requires w >= 1
  {
    if n == 0 then 0
    else Capacity(s, n - 1, w) + if n - 1 in s && Phase(s, n - 1, w) + 1 == w then 1 else 0
  }

  lemma {:induction false} InsideBlock(s: set<nat>, w: nat, a: nat, j: nat)
    requires w >= 1 && j <= w && forall i: nat :: a <= i < a + j ==> i in s
    ensures var f := Phase(s, a, w);
      if f + j < w then Phase(s, a + j, w) == f + j && Capacity(s, a + j, w) == Capacity(s, a, w)
      else Phase(s, a + j, w) == f + j - w && Capacity(s, a + j, w) == Capacity(s, a, w) + 1
  {
    if j > 0 {
      InsideBlock(s, w, a, j - 1);
      assert a + j - 1 in s;
    }
  }

  lemma {:induction false} CapacityMonotone(s: set<nat>, w: nat, m: nat, n: nat)
    requires w >= 1 && m <= n
    ensures Capacity(s, m, w) <= Capacity(s, n, w)
  {
    if m < n {
      CapacityMonotone(s, w, m, n - 1);
    }
  }

  /** No packing beats the capacity. */
  lemma {:induction false} CapacityIsBound(s: set<nat>, w: nat, n: nat, starts: set<nat>)
    requires w >= 1 && Blocks(s, w, starts) && forall p :: p in starts ==> p + w <= n
    ensures |starts| <= Capacity(s, n, w)
    decreases |starts|
  {
    if starts != {} {
      var last := Greatest(starts);
      BlockAdds(s, w, last);
      CapacityIsBound(s, w, last, starts - {last});
      CapacityMonotone(s, w, last + w, n);
    }
  }

  lemma {:induction false} Greatest(s: set<nat>) returns (m: nat)
    requires s != {}
    ensures m in s && forall p :: p in s ==> p <= m
    decreases |s|
  {
    var x :| x in s;
    m := x;
    var rest := s - {x};
    if rest != {} {
      var r := Greatest(rest);
      m := if r > x then r else x;
    }
    assert forall p :: p in s ==> p == x || p in rest;
  }

  lemma BlockAdds(s: set<nat>, w: nat, a: nat)
    requires w >= 1 && Fits(s, a, w)
    ensures Capacity(s, a + w, w) == Capacity(s, a, w) + 1
  {
    InsideBlock(s, w, a, w);
  }

  /** And some packing attains it. */
  lemma {:induction false} CapacityIsAttained(s: set<nat>, w: nat, n: nat) returns (starts: set<nat>)
    requires w >= 1
    ensures Blocks(s, w, starts) && |starts| == Capacity(s, n, w)
    ensures forall p :: p in starts ==> p + w + Phase(s, n, w) <= n
  {
    starts := {};
    if n > 0 {
      starts := CapacityIsAttained(s, w, n - 1);
      if n - 1 in s && Phase(s, n - 1, w) + 1 == w {
        PhaseFits(s, w, n - 1);
        AddLast(s, w, n, starts);
        starts := starts + {n - w};
      }
    }
  }

  lemma AddLast(s: set<nat>, w: nat, n: nat, starts: set<nat>)
    requires w >= 1 && Blocks(s, w, starts) && w <= n && Fits(s, n - w, w)
    requires forall p :: p in starts ==> p + w <= n - w
    ensures Blocks(s, w, starts + {n - w}) && |starts + {n - w}| == |starts| + 1
  {
    assert n - w !in starts;
  }

  lemma {:induction false} PhaseFits(s: set<nat>, w: nat, n: nat)
    requires w >= 1
    ensures Phase(s, n, w) <= n && forall i: nat :: n - Phase(s, n, w) <= i < n ==> i in s
  {
    if n > 0 {
      PhaseFits(s, w, n - 1);
    }
  }

  lemma CapacityIsMost(s: set<nat>, w: nat, n: nat)
    requires w >= 1 && forall i :: i in s ==> i < n
    ensures MostBlocks(s, w, Capacity(s, n, w))
  {
    var best := CapacityIsAttained(s, w, n);
    forall starts: set<nat> | Blocks(s, w, starts) ensures |starts| <= Capacity(s, n, w) {
      forall p | p in starts ensures p + w <= n {
        assert Fits(s, p, w) && p + w - 1 in Interval(p, p + w);
      }
      CapacityIsBound(s, w, n, starts);
    }
  }

  // ----- the count: one division per run -----

  lemma DivStep(m: nat, w: nat)
    requires w >= 1
    ensures if m % w + 1 == w then (m + 1) / w == m / w + 1 && (m + 1) % w == 0
            else (m + 1) / w == m / w && (m + 1) % w == m % w + 1
  {
    var q, r := m / w, m % w;
    assert m == q * w + r;
    if r + 1 == w {
      assert m + 1 == (q + 1) * w + 0;
      DivUnique(m + 1, w, q + 1, 0);
    } else {
      DivUnique(m + 1, w, q, r + 1);
    }
  }

  lemma {:induction false} OnesCapacity(s: set<nat>, w: nat, a: nat, m: nat)
    requires w >= 1 && Phase(s, a, w) == 0 && forall i: nat :: a <= i < a + m ==> i in s
    ensures Capacity(s, a + m, w) == Capacity(s, a, w) + m / w && Phase(s, a + m, w) == m % w
  {
    if m == 0 {
      DivUnique(0, w, 0, 0);
    } else {
      OnesCapacity(s, w, a, m - 1);
      DivStep(m - 1, w);
      assert a + m - 1 in s;
    }
  }

  lemma {:induction false} ZerosCapacity(s: set<nat>, w: nat, a: nat, m: nat)
    requires w >= 1 && forall i: nat :: a <= i < a + m ==> i !in s
    ensures Capacity(s, a + m, w) == Capacity(s, a, w)
  {
    if m > 0 {
      ZerosCapacity(s, w, a, m - 1);
    }
  }

  lemma RunCapacity(ss: seq<string>, s: set<nat>, n: nat, k: nat, w: nat)
    requires IsRuns(ss, s, n) && k < |ss| && w >= 1
    ensures Capacity(s, Offset(ss, k + 1), w) ==
      Capacity(s, Offset(ss, k), w) + if ss[k][0] == '1' then |ss[k]| / w else 0
  {
    var a, m := Offset(ss, k), |ss[k]|;
    assert RunMeans(ss, k, s);
    if ss[k][0] == '1' {
      if k > 0 {
        assert Uniform(ss[k - 1]) && ss[k - 1][0] != ss[k][0];
        assert RunMeans(ss, k - 1, s);
        assert a - 1 !in s;
      }
      OnesCapacity(s, w, a, m);
    } else {
      ZerosCapacity(s, w, a, m);
    }
  }

  /** The sum of run/ways over the free runs is the largest number of disjoint blocks of that
      size that fit. */
  method CountBlocks(v: Bitmap, ways: nat) returns (count: nat)
    requires v.Valid() && ways >= 1
    ensures count == Capacity(v.View(), v.len, ways)
    ensures MostBlocks(v.View(), ways, count)
  {
    count := 0;
    var strs := ToBinStrings(v);
    for k := 0 to |strs|
      invariant count == Capacity(v.View(), Offset(strs, k), ways)
    {
      RunCapacity(strs, v.View(), v.len, k, ways);
      if strs[k][0] == '1' {
        var valLen := |strs[k]|;
        count := count + valLen / ways;
      }
    }
    CapacityIsMost(v.View(), ways, v.len);
  }

  // ----- the allocator attains it -----

  lemma {:induction false} AgreeBelow(s: set<nat>, t: set<nat>, w: nat, n: nat)
    requires w >= 1 && forall i: nat :: i < n ==> (i in s <==> i in t)
    ensures Phase(s, n, w) == Phase(t, n, w) && Capacity(s, n, w) == Capacity(t, n, w)
  {
    if n > 0 {
      AgreeBelow(s, t, w, n - 1);
    }
  }

  lemma {:induction false} AgreeAbove(s: set<nat>, t: set<nat>, w: nat, m: nat, n: nat)
    requires w >= 1 && m <= n && Phase(s, m, w) == Phase(t, m, w)
    requires forall i: nat :: m <= i < n ==> (i in s <==> i in t)
    ensures Phase(s, n, w) == Phase(t, n, w)
    ensures Capacity(s, n, w) - Capacity(s, m, w) == Capacity(t, n, w) - Capacity(t, m, w)
  {
    if m < n {
      AgreeAbove(s, t, w, m, n - 1);
    }
  }

  /** Taking the highest block uses up exactly one. */
  lemma TakeHighest(s: set<nat>, w: nat, n: nat, p: nat)
    requires w >= 1 && HighestFit(s, w, n, p) && forall i :: i in s ==> i < n
    ensures Capacity(s - Interval(p, p + w), n, w) == Capacity(s, n, w) - 1
  {
    var t := s - Interval(p, p + w);
    AgreeBelow(s, t, w, p);
    InsideBlock(s, w, p, w);
    ZerosCapacity(t, w, p, w);
    if p + w < n {
      if p + w in s {
        assert Interval(p + 1, p + 1 + w) <= Interval(p, p + w) + {p + w};
        assert Fits(s, p + 1, w);
      }
      AgreeAbove(s, t, w, p + w + 1, n);
    }
  }

  lemma NoFitNoCapacity(s: set<nat>, w: nat, n: nat)
    requires w >= 1 && forall p: nat :: p + w <= n ==> !Fits(s, p, w)
    ensures Capacity(s, n, w) == 0
  {
    var starts := CapacityIsAttained(s, w, n);
    assert forall p :: p in starts ==> Fits(s, p, w);
    assert starts == {};
  }

  /** `r` is a block of `w` members of `s`. */
  ghost predicate IsBlock(s: set<nat>, w: nat, r: set<nat>) {
    exists p: nat :: Fits(s, p, w) && r == Interval(p, p + w)
  }

  /** The grants are blocks of `free`, disjoint from each other and from what is left. */
  ghost predicate HandedOut(free: set<nat>, left: set<nat>, w: nat, granted: seq<Bitmap>) {
    && left <= free
    && (forall k :: 0 <= k < |granted| ==> granted[k].View() !! left && IsBlock(free, w, granted[k].View()))
    && forall j, k :: 0 <= j < k < |granted| ==> granted[j].View() !! granted[k].View()
  }

  lemma HandOut(free: set<nat>, left: set<nat>, w: nat, granted: seq<Bitmap>, next: Bitmap)
    requires HandedOut(free, left, w, granted) && IsBlock(left, w, next.View())
    ensures HandedOut(free, left - next.View(), w, granted + [next])
  {
    var p: nat :| Fits(left, p, w) && next.View() == Interval(p, p + w);
    assert Fits(free, p, w);
  }

  /** Handing out the highest block again and again, as guaranteed requests do, succeeds exactly
      that many times and then fails. */
  method AllocateUntilFull(free: Bitmap, ways: nat) returns (granted: seq<Bitmap>)
    requires free.Valid() && 1 <= ways < UINT32 && free.len < UINT32
    ensures MostBlocks(free.View(), ways, |granted|)
    ensures HandedOut(free.View(), {}, ways, granted)
  {
    granted := [];
    var left := free;
    ghost var n := free.len;
    while true
      invariant left.Valid() && left.len == n
      invariant Capacity(left.View(), n, ways) + |granted| == Capacity(free.View(), n, ways)
      invariant HandedOut(free.View(), left.View(), ways, granted)
      decreases Capacity(left.View(), n, ways)
    {
      var next, rest := GrantNext(left, ways);
      if next.None? {
        break;
      }
      HandOut(free.View(), left.View(), ways, granted, next.value);
      left := rest;
      granted := granted + [next.value];
    }
    CapacityIsMost(free.View(), ways, n);
  }

  /** One grant, and what it leaves. */
  method GrantNext(left: Bitmap, ways: nat) returns (next: Option<Bitmap>, rest: Bitmap)
    requires left.Valid() && 1 <= ways < UINT32 && left.len < UINT32
    ensures next.None? ==> Capacity(left.View(), left.len, ways) == 0
    ensures next.Some? ==> rest.Valid() && rest.len == left.len && rest.View() == left.View() - next.value.View()
    ensures next.Some? ==> IsBlock(left.View(), ways, next.value.View())
    ensures next.Some? ==> Capacity(rest.View(), left.len, ways) == Capacity(left.View(), left.len, ways) - 1
  {
    var block := GetConnectiveBits(left, ways, 0, false);
    var empty := block.IsEmpty();
    if empty {
      NoFitNoCapacity(left.View(), ways, left.len);
      return None, left;
    }
    OneLess(left.View(), ways, left.len, block.View());
    rest := left.Axor(block);
    next := Some(block);
  }

  lemma OneLess(s: set<nat>, w: nat, n: nat, r: set<nat>)
    requires w >= 1 && TakesHighest(s, w, n, r) && r != {} && forall i :: i in s ==> i < n
    ensures IsBlock(s, w, r) && Capacity(s - r, n, w) == Capacity(s, n, w) - 1
  {
    var p: nat :| HighestFit(s, w, n, p) && r == Interval(p, p + w);
    TakeHighest(s, w, n, p);
  }
}
