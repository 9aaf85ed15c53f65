/** Shrinking best-effort workloads to make room (modules/workload/workload.go, shrinkBEPool). */
module Shrink {
  import opened WaySets
  import opened Bitmaps
  import opened Text
  import opened Search
  import opened CachePools
  import opened Allocation
  import ClosPools
  import HexText

  // ----- which groups -----

  const BEST_EFFORT_SUFFIX := "-besteffort"

  /** The test by which shrinkBEPool selects the groups to shrink. */
  predicate BestEffortName(name: string) {
    |name| >= |BEST_EFFORT_SUFFIX| && name[|name| - |BEST_EFFORT_SUFFIX|..] == BEST_EFFORT_SUFFIX
  }

  lemma HasSuffix(name: string)
    ensures BestEffortName(name) <==> exists front: string :: name == front + "-besteffort"
  {
    if BestEffortName(name) {
      assert name == name[..|name| - |BEST_EFFORT_SUFFIX|] + BEST_EFFORT_SUFFIX;
    }
  }

  /** A class name ends in a digit, so shrinkBEPool never selects one. */
  lemma ClassNotSelected(i: nat)
    ensures !BestEffortName(ClosPools.ClosName(i))
  {
    var name := ClosPools.ClosName(i);
    FormatParses(i, 10);
    var last := |Itoa(i)| - 1;
    assert name[|name| - 1] == Itoa(i)[last] && IsDigit(Itoa(i)[last], 10);
    SuffixEnd(name);
  }

  lemma SuffixEnd(name: string)
    requires name != ""
    ensures BestEffortName(name) ==> name[|name| - 1] == 't'
  {
    if BestEffortName(name) {
      assert name[|name| - 1] == name[|name| - |BEST_EFFORT_SUFFIX|..][|BEST_EFFORT_SUFFIX| - 1];
    }
  }

  // ----- what one call does to the selected groups, on the sets of ways of one cache -----

  /** Every group keeps the `min` highest of its ways; the new workload gets the lowest block of
      the pool outside those; whatever a group held of that block it loses. */
  ghost predicate ShrinkStep(before: map<string, set<nat>>, mins: map<string, nat>, pool: set<nat>, width: nat, ways: nat,
                             kept: map<string, set<nat>>, cand: set<nat>, after: map<string, set<nat>>) {
    && before.Keys == kept.Keys == after.Keys && before.Keys <= mins.Keys
    && (forall n :: n in before ==> TakesHighest(before[n], mins[n], width, kept[n]))
    && TakesLowest(Outside(pool, kept), ways, 0, cand)
    && forall n :: n in before ==> after[n] == before[n] - cand
  }

  ghost function Outside(pool: set<nat>, kept: map<string, set<nat>>): set<nat> {
    set i | i in pool && forall n :: n in kept ==> i !in kept[n]
  }

  /** The best-effort groups on one cache: disjoint blocks of the pool, none below its minimum. */
  ghost predicate BestEffortOk(masks: map<string, set<nat>>, mins: map<string, nat>, pool: set<nat>) {
    && masks.Keys <= mins.Keys
    && (forall n :: n in masks ==> BlockOf(pool, masks[n], mins[n]))
    && forall m, n :: m in masks && n in masks && m != n ==> masks[m] !! masks[n]
  }

  ghost predicate BlockOf(pool: set<nat>, mask: set<nat>, min: nat) {
    Contiguous(mask) && mask <= pool && 1 <= min <= |mask|
  }

  lemma HighestOfBlock(a: nat, b: nat, min: nat, width: nat, r: set<nat>)
    requires 1 <= min && a + min <= b <= width && TakesHighest(Interval(a, b), min, width, r)
    ensures r == Interval(b - min, b)
  {
    var s := Interval(a, b);
    assert Fits(s, b - min, min);
    var p: nat :| HighestFit(s, min, width, p) && r == Interval(p, p + min);
    assert p + min - 1 in Interval(p, p + min);
    assert p + min <= b;
  }

  /** The heart of it: the group holds a..b, its spare ways a..lo are free, its kept ways lo..b
      are not. The lowest free block then cuts the group, if at all, from below. */
  lemma CutFromBelow(free: set<nat>, ways: nat, a: nat, lo: nat, b: nat, c: nat) returns (d: nat)
    requires a <= lo < b && ways >= 1 && LowestFit(free, ways, 0, c)
    requires forall i: nat :: a <= i < lo ==> i in free
    requires forall i: nat :: lo <= i < b ==> i !in free
    ensures a <= d <= lo && Interval(a, b) - Interval(c, c + ways) == Interval(d, b)
  {
    assert forall i: nat :: i in Interval(c, c + ways) ==> i in free;
    assert c in Interval(c, c + ways);
    assert !(c <= lo < c + ways) by {
      assert lo in Interval(c, c + ways) ==> lo in free;
    }
    assert !(lo <= c < b);
    if c + ways <= a || b <= c {
      d := a;
    } else {
      if a < c {
        OneLower(free, ways, a, lo, c);
      }
      d := c + ways;
    }
    assert Interval(a, b) - Interval(c, c + ways) == Interval(d, b);
  }

  /** A block that starts inside the spare ways could have started one way lower. */
  lemma OneLower(free: set<nat>, ways: nat, a: nat, lo: nat, c: nat)
    requires a < c <= lo && Fits(free, c, ways) && forall i: nat :: a <= i < lo ==> i in free
    ensures Fits(free, c - 1, ways)
  {
    forall i: nat | i in Interval(c - 1, c - 1 + ways) ensures i in free {
      assert i != c - 1 ==> i in Interval(c, c + ways);
    }
  }

  /** The kept ways of a group are its `min` highest. */
  lemma KeptIsTop(before: map<string, set<nat>>, mins: map<string, nat>, pool: set<nat>, width: nat, ways: nat,
                  kept: map<string, set<nat>>, cand: set<nat>, after: map<string, set<nat>>, n: string)
      returns (a: nat, lo: nat, b: nat)
    requires ShrinkStep(before, mins, pool, width, ways, kept, cand, after) && BestEffortOk(before, mins, pool)
    requires n in before && forall i :: i in pool ==> i < width
    ensures a <= lo < b && b - lo == mins[n] && before[n] == Interval(a, b) && kept[n] == Interval(lo, b)
  {
    assert BlockOf(pool, before[n], mins[n]);
    a, lo, b := TopOfBlock(pool, before[n], mins[n], width, kept[n]);
  }

  lemma TopOfBlock(pool: set<nat>, mask: set<nat>, min: nat, width: nat, top: set<nat>) returns (a: nat, lo: nat, b: nat)
    requires BlockOf(pool, mask, min) && TakesHighest(mask, min, width, top) && forall i :: i in pool ==> i < width
    ensures a <= lo < b && b - lo == min && mask == Interval(a, b) && top == Interval(lo, b)
  {
    a, b :| a < b && mask == Interval(a, b);
    IntervalSize(a, b);
    assert b - 1 in mask;
    lo := b - min;
    HighestOfBlock(a, b, min, width, top);
  }

  lemma KeptIsOwn(before: map<string, set<nat>>, mins: map<string, nat>, pool: set<nat>, width: nat, ways: nat,
                  kept: map<string, set<nat>>, cand: set<nat>, after: map<string, set<nat>>)
    requires ShrinkStep(before, mins, pool, width, ways, kept, cand, after) && BestEffortOk(before, mins, pool)
    requires forall i :: i in pool ==> i < width
    ensures forall n :: n in before ==> kept[n] <= before[n]
  {
    forall n | n in before ensures kept[n] <= before[n] {
      var a, lo, b := KeptIsTop(before, mins, pool, width, ways, kept, cand, after, n);
    }
  }

  lemma SpareIsFree(before: map<string, set<nat>>, pool: set<nat>, kept: map<string, set<nat>>, n: string)
    requires before.Keys == kept.Keys && n in before && before[n] <= pool
    requires forall m :: m in before ==> kept[m] <= before[m]
    requires forall m :: m in before && m != n ==> before[m] !! before[n]
    ensures forall i :: i in before[n] ==> (i in Outside(pool, kept) <==> i !in kept[n])
  {
    forall i | i in before[n] && i !in kept[n] ensures i in Outside(pool, kept) {
      forall m | m in kept ensures i !in kept[m] {
        assert m != n ==> i !in before[m];
      }
    }
  }

  /** One group after a call: still one block, of at least its minimum, cut from below. */
  lemma GroupSafe(before: map<string, set<nat>>, mins: map<string, nat>, pool: set<nat>, width: nat, ways: nat,
                  kept: map<string, set<nat>>, cand: set<nat>, after: map<string, set<nat>>, n: string)
    requires ShrinkStep(before, mins, pool, width, ways, kept, cand, after) && BestEffortOk(before, mins, pool)
    requires n in before && ways >= 1 && forall i :: i in pool ==> i < width
    ensures Contiguous(after[n]) && |after[n]| >= mins[n]
  {
    var a, lo, b := KeptIsTop(before, mins, pool, width, ways, kept, cand, after, n);
    KeptIsOwn(before, mins, pool, width, ways, kept, cand, after);
    SpareIsFree(before, pool, kept, n);
    var d := LeftOfGroup(Outside(pool, kept), ways, before[n], kept[n], a, lo, b, cand);
    IntervalSize(d, b);
  }

  lemma LeftOfGroup(free: set<nat>, ways: nat, mine: set<nat>, top: set<nat>, a: nat, lo: nat, b: nat, cand: set<nat>)
      returns (d: nat)
    requires a <= lo < b && ways >= 1 && TakesLowest(free, ways, 0, cand)
    requires mine == Interval(a, b) && top == Interval(lo, b)
    requires forall i :: i in mine ==> (i in free <==> i !in top)
    ensures a <= d <= lo && mine - cand == Interval(d, b)
  {
    d := a;
    if cand != {} {
      var c: nat :| LowestFit(free, ways, 0, c) && cand == Interval(c, c + ways);
      assert forall i: nat :: a <= i < b ==> i in mine;
      d := CutFromBelow(free, ways, a, lo, b, c);
    }
  }

  /** Shrink safety: the groups stay contiguous, keep their minimum and stay disjoint from each
      other and from the new block, which is a block of exactly the ways asked for inside the
      pool; and when there is no such block nothing changes. */
  lemma ShrinkSafe(before: map<string, set<nat>>, mins: map<string, nat>, pool: set<nat>, width: nat, ways: nat,
                   kept: map<string, set<nat>>, cand: set<nat>, after: map<string, set<nat>>)
    requires ShrinkStep(before, mins, pool, width, ways, kept, cand, after) && BestEffortOk(before, mins, pool)
    requires ways >= 1 && forall i :: i in pool ==> i < width
    ensures BestEffortOk(after, mins, pool)
    ensures forall n :: n in after ==> after[n] !! cand
    ensures if cand == {} then after == before else Contiguous(cand) && |cand| == ways && cand <= pool
  {
    forall n | n in after ensures BlockOf(pool, after[n], mins[n]) {
      GroupSafe(before, mins, pool, width, ways, kept, cand, after, n);
    }
    if cand == {} {
      NothingTaken(before, after);
    } else {
      TakenLowest(Outside(pool, kept), ways, 0, cand);
    }
  }

  lemma NothingTaken(before: map<string, set<nat>>, after: map<string, set<nat>>)
    requires before.Keys == after.Keys && forall n :: n in before ==> after[n] == before[n] - {}
    ensures after == before
  {
    assert forall n :: n in before ==> before[n] - {} == before[n];
  }

  // ----- groups that do not run on this cache -----

  /** A group shows the full mask on a cache it does not run on. */
  predicate Idle(width: nat, mask: set<nat>) {
    mask == Interval(0, width)
  }

  ghost function Busy(masks: map<string, set<nat>>, width: nat): map<string, set<nat>> {
    map n | n in masks && !Idle(width, masks[n]) :: masks[n]
  }

  ghost predicate NoneIdle(masks: map<string, set<nat>>, width: nat) {
    forall n :: n in masks ==> !Idle(width, masks[n])
  }

  /** Every group is idle here or holds a block of the pool of at least its minimum, and the
      blocks are disjoint. */
  ghost predicate GroupsOk(masks: map<string, set<nat>>, mins: map<string, nat>, pool: set<nat>, width: nat) {
    masks.Keys <= mins.Keys && BestEffortOk(Busy(masks, width), mins, pool)
  }

  lemma AllBusy(masks: map<string, set<nat>>, width: nat)
    requires NoneIdle(masks, width)
    ensures Busy(masks, width) == masks
  {
  }

  /** No block of a pool is the full mask. */
  lemma BlocksAreBusy(masks: map<string, set<nat>>, mins: map<string, nat>, pool: set<nat>, width: nat)
    requires BestEffortOk(masks, mins, pool) && pool < Interval(0, width)
    ensures NoneIdle(masks, width) && GroupsOk(masks, mins, pool, width)
  {
    AllBusy(masks, width);
  }

  lemma CandidateInPool(pool: set<nat>, kept: map<string, set<nat>>, ways: nat, cand: set<nat>)
    requires TakesLowest(Outside(pool, kept), ways, 0, cand) && cand != {}
    ensures cand <= pool
  {
    TakenLowest(Outside(pool, kept), ways, 0, cand);
  }

  /** What a shrink leaves of an idle group: a mask that is no longer the full one and reaches
      outside the pool. */
  lemma IdleIsSpoilt(pool: set<nat>, width: nat, cand: set<nat>, left: set<nat>)
    requires pool < Interval(0, width) && cand <= pool && cand != {} && left == Interval(0, width) - cand
    ensures !Idle(width, left) && !(left <= pool) && pool - cand <= left
  {
    var c :| c in cand;
    assert c in Interval(0, width) && c !in left;
    var x :| x in Interval(0, width) && x !in pool;
    assert x in left;
  }

  /** Exactly when shrinking is safe for the selected groups: none may be idle on the cache. */
  lemma ShrinkSafeIff(before: map<string, set<nat>>, mins: map<string, nat>, pool: set<nat>, width: nat, ways: nat,
                      kept: map<string, set<nat>>, cand: set<nat>, after: map<string, set<nat>>)
    requires GroupsOk(before, mins, pool, width) && ShrinkStep(before, mins, pool, width, ways, kept, cand, after)
    requires ways >= 1 && cand != {} && pool < Interval(0, width)
    ensures GroupsOk(after, mins, pool, width) <==> NoneIdle(before, width)
    ensures NoneIdle(before, width) ==> BestEffortOk(before, mins, pool) && BestEffortOk(after, mins, pool)
  {
    if NoneIdle(before, width) {
      AllBusy(before, width);
      ShrinkSafe(before, mins, pool, width, ways, kept, cand, after);
      BlocksAreBusy(after, mins, pool, width);
    } else {
      var n :| n in before && Idle(width, before[n]);
      CandidateInPool(pool, kept, ways, cand);
      IdleIsSpoilt(pool, width, cand, after[n]);
      assert n in Busy(after, width) && Busy(after, width)[n] == after[n];
    }
  }

  /** With an idle group a successful shrink uses the pool up: afterwards no way of it counts as
      free, whatever its size. */
  lemma IdleBlocksPool(before: map<string, set<nat>>, mins: map<string, nat>, pool: set<nat>, width: nat, ways: nat,
                       kept: map<string, set<nat>>, cand: set<nat>, after: map<string, set<nat>>, n: string)
    requires ShrinkStep(before, mins, pool, width, ways, kept, cand, after)
    requires n in before && Idle(width, before[n]) && cand != {} && pool < Interval(0, width)
    ensures Outside(pool, Busy(after, width)) == cand
  {
    CandidateInPool(pool, kept, ways, cand);
    IdleIsSpoilt(pool, width, cand, after[n]);
    var busy := Busy(after, width);
    assert n in busy && busy[n] == after[n];
    forall m | m in busy ensures busy[m] !! cand {
      assert busy[m] == before[m] - cand;
    }
  }

  /** A mask of four ways, a pool of the lowest two, one selected group that does not run here: a
      shrink by one way leaves it the three highest ways. */
  lemma ShrinkSpoilsIdleGroup(n: string) returns (after: map<string, set<nat>>)
    requires BestEffortName(n)
    ensures GroupsOk(map[n := Interval(0, 4)], map[n := 1], Interval(0, 2), 4)
    ensures ShrinkStep(map[n := Interval(0, 4)], map[n := 1], Interval(0, 2), 4, 1,
                       map[n := Interval(3, 4)], Interval(0, 1), after)
    ensures after[n] == Interval(1, 4) && !GroupsOk(after, map[n := 1], Interval(0, 2), 4)
  {
    after := SpoilOne(n, Interval(0, 4), Interval(3, 4), Interval(0, 2), Interval(0, 1), 4);
    EndWays(4, 4);
    EndWays(2, 4);
    IdleGroupOk(n, Interval(0, 4), Interval(0, 2), 4);
    assert Interval(0, 4) - Interval(0, 1) == Interval(1, 4);
    assert 3 in Interval(1, 4) && 0 in Interval(0, 4);
    BusyGroupBad(n, Interval(1, 4), Interval(0, 2), 4);
  }

  lemma SpoilOne(n: string, mask: set<nat>, top: set<nat>, pool: set<nat>, cand: set<nat>, width: nat)
      returns (after: map<string, set<nat>>)
    ensures after == map[n := mask - cand]
    ensures TakesHighest(mask, 1, width, top) && TakesLowest(pool, 1, 0, cand) && pool !! top ==>
      ShrinkStep(map[n := mask], map[n := 1], pool, width, 1, map[n := top], cand, after)
  {
    after := map[n := mask - cand];
    var kept := map[n := top];
    if pool !! top {
      forall i | i in pool ensures i in Outside(pool, kept) {
        assert kept[n] == top;
      }
      assert Outside(pool, kept) == pool;
    }
  }

  lemma EndWays(b: nat, width: nat)
    requires 1 <= b <= width
    ensures TakesHighest(Interval(0, b), 1, width, Interval(b - 1, b)) && TakesLowest(Interval(0, b), 1, 0, Interval(0, 1))
  {
    assert Fits(Interval(0, b), b - 1, 1) && Fits(Interval(0, b), 0, 1);
    assert b - 1 in Interval(b - 1, b) && 0 in Interval(0, 1);
    forall q: nat | q >= b ensures !Fits(Interval(0, b), q, 1) {
      assert q in Interval(q, q + 1);
    }
    assert HighestFit(Interval(0, b), 1, width, b - 1);
    assert LowestFit(Interval(0, b), 1, 0, 0);
  }

  lemma IdleGroupOk(n: string, mask: set<nat>, pool: set<nat>, width: nat)
    requires Idle(width, mask)
    ensures GroupsOk(map[n := mask], map[n := 1], pool, width)
  {
    assert Busy(map[n := mask], width) == map[];
  }

  lemma BusyGroupBad(n: string, mask: set<nat>, pool: set<nat>, width: nat)
    requires !Idle(width, mask) && !(mask <= pool)
    ensures !GroupsOk(map[n := mask], map[n := 1], pool, width)
  {
    assert Busy(map[n := mask], width)[n] == mask;
  }

  /** When the pool starts above way 0, the spoilt mask is not even contiguous. */
  lemma FullMaskIsTorn(before: map<string, set<nat>>, mins: map<string, nat>, pool: set<nat>, width: nat, ways: nat,
                       kept: map<string, set<nat>>, cand: set<nat>, after: map<string, set<nat>>, n: string)
    requires ShrinkStep(before, mins, pool, width, ways, kept, cand, after)
    requires n in before && Idle(width, before[n]) && 1 <= mins[n] <= width
    requires cand != {} && 0 !in pool && forall i :: i in pool ==> i < width
    ensures !Contiguous(after[n])
  {
    HighestOfBlock(0, width, mins[n], width, kept[n]);
    TakenLowest(Outside(pool, kept), ways, 0, cand);
    TornByGap(kept, pool, width, cand, after[n], n);
  }

  lemma TornByGap(kept: map<string, set<nat>>, pool: set<nat>, width: nat, cand: set<nat>, left: set<nat>, n: string)
    requires cand != {} && cand <= Outside(pool, kept) && 0 !in pool && forall i :: i in pool ==> i < width
    requires n in kept && width >= 1 && width - 1 in kept[n] && left == Interval(0, width) - cand
    ensures !Contiguous(left)
  {
    var c :| c in cand;
    assert 0 in left && c !in left && width - 1 in left && 0 < c < width - 1;
  }

  // ----- the code -----

  /** The ways the named groups hold on one cache. */
  ghost function ViewsOn(cfg: Config, groups: map<string, Masks>, names: set<string>, k: nat): map<string, set<nat>> {
    map n | n in names && n in groups && k in groups[n] :: MaskView(cfg.width, groups[n][k])
  }

  ghost predicate Readable(cfg: Config, groups: map<string, Masks>, names: set<string>, k: nat) {
    names <= groups.Keys && forall n :: n in names ==> ReadableMask(cfg, groups[n], k)
  }

  ghost predicate ReadableMask(cfg: Config, masks: Masks, k: nat) {
    k in masks && GoodMask(cfg.width, masks[k]) && HexText.Decode(cfg.width, masks[k]).value.len == cfg.width
  }

  /** All the resource groups as read from the platform; shrinking rewrites masks in place. */
  class ResTable {
    const cfg: Config
    var groups: map<string, Masks>

    constructor (cfg: Config, groups: map<string, Masks>)
      ensures this.cfg == cfg && this.groups == groups
    {
      this.cfg, this.groups := cfg, groups;
    }

    /** shrinkBEPool; `mins` is what the database knows of the workloads of the groups, and a
        selected group without a workload is an internal error. */
    method ShrinkBEPool(mins: map<string, nat>, reserved: Bitmap, k: nat, reqways: nat)
        returns (cand: Option<Bitmap>, changed: set<string>, ghost kept: map<string, set<nat>>)
      requires cfg.width < UINT32 && Readable(cfg, groups, SelectedNames(groups), k)
      requires reserved.Valid() && reserved.len == cfg.width && 1 <= reqways < UINT32
      requires forall n :: n in mins ==> 1 <= mins[n] < UINT32
      modifies this
      ensures SelectedNames(groups) == old(SelectedNames(groups))
      ensures cand.None? <==> !(SelectedNames(groups) <= mins.Keys)
      ensures cand.None? ==> groups == old(groups)
      ensures cand.Some? ==> Shrunk(cfg, old(groups), mins, reserved, k, reqways, kept, cand.value, groups, changed)
    {
      var after;
      cand, after, changed, kept := ShrinkGroups(cfg, groups, mins, reserved, k, reqways);
      groups := after;
    }
  }

  ghost function SelectedNames(groups: map<string, Masks>): set<string> {
    set n | n in groups && BestEffortName(n)
  }

  /** What a call that finds every workload does: the step above on the selected groups, which
      stay readable; exactly those that held a way of the candidate are rewritten, and only on
      this cache. */
  ghost predicate Shrunk(cfg: Config, before: map<string, Masks>, mins: map<string, nat>, reserved: Bitmap, k: nat, reqways: nat,
                         kept: map<string, set<nat>>, cand: Bitmap, after: map<string, Masks>, changed: set<string>) {
    var names := SelectedNames(before);
    && cand.Valid() && cand.len == cfg.width
    && Readable(cfg, before, names, k) && Readable(cfg, after, names, k)
    && ShrinkStep(ViewsOn(cfg, before, names, k), mins, reserved.View(), cfg.width, reqways,
                  kept, cand.View(), ViewsOn(cfg, after, names, k))
    && OnlyChanged(before, after, changed, k)
    && changed == set n | n in names && Hit(cfg, before[n], k, cand.View())
  }

  /** When no group has the suffix, a call gives the lowest block of the whole pool and takes
      nothing from anybody. */
  lemma NothingShrunk(cfg: Config, before: map<string, Masks>, mins: map<string, nat>, reserved: Bitmap, k: nat, reqways: nat,
                      kept: map<string, set<nat>>, cand: Bitmap, after: map<string, Masks>, changed: set<string>)
    requires Shrunk(cfg, before, mins, reserved, k, reqways, kept, cand, after, changed) && SelectedNames(before) == {}
    ensures TakesLowest(reserved.View(), reqways, 0, cand.View()) && after == before && changed == {}
  {
    assert ViewsOn(cfg, before, {}, k) == map[];
    assert kept == map[];
    assert Outside(reserved.View(), map[]) == reserved.View();
    assert changed == {};
    assert after.Keys == before.Keys && forall n :: n in before ==> after[n] == before[n];
  }

  method ShrinkGroups(cfg: Config, groups: map<string, Masks>, mins: map<string, nat>, reserved: Bitmap, k: nat, reqways: nat)
      returns (cand: Option<Bitmap>, after: map<string, Masks>, changed: set<string>, ghost kept: map<string, set<nat>>)
    requires cfg.width < UINT32 && Readable(cfg, groups, SelectedNames(groups), k)
    requires reserved.Valid() && reserved.len == cfg.width && 1 <= reqways < UINT32
    requires forall n :: n in mins ==> 1 <= mins[n] < UINT32
    ensures after.Keys == groups.Keys
    ensures cand.None? <==> !(SelectedNames(groups) <= mins.Keys)
    ensures cand.None? ==> after == groups
    ensures cand.Some? ==> Shrunk(cfg, groups, mins, reserved, k, reqways, kept, cand.value, after, changed)
  {
    after, changed := groups, {};
    var free, names;
    free, names, kept := KeepMinima(cfg, groups, mins, reserved, k);
    if free.None? {
      return None, after, changed, kept;
    }
    var candidate := GetConnectiveBits(free.value, reqways, 0, true);
    after, changed := TakeAway(cfg, groups, names, k, candidate);
    ViewsTaken(cfg, groups, after, names, k, candidate.View());
    cand := Some(candidate);
  }

  /** Outside `changed` nothing moved, and inside it only the mask of cache `k`. */
  ghost predicate OnlyChanged(before: map<string, Masks>, after: map<string, Masks>, changed: set<string>, k: nat) {
    && before.Keys == after.Keys
    && (forall n :: n in before && n !in changed ==> after[n] == before[n])
    && (forall n :: n in before ==> after[n].Keys == before[n].Keys)
    && forall n, j :: n in before && j in before[n] && j != k ==> after[n][j] == before[n][j]
  }

  /** The first loop: the groups with the suffix, and the pool without the minimum of each. */
  method KeepMinima(cfg: Config, groups: map<string, Masks>, mins: map<string, nat>, reserved: Bitmap, k: nat)
      returns (free: Option<Bitmap>, names: set<string>, ghost kept: map<string, set<nat>>)
    requires cfg.width < UINT32 && Readable(cfg, groups, SelectedNames(groups), k) && reserved.Valid() && reserved.len == cfg.width
    requires forall n :: n in mins ==> 1 <= mins[n] < UINT32
    ensures free.None? <==> !(SelectedNames(groups) <= mins.Keys)
    ensures free.Some? ==> free.value.Valid() && free.value.len == cfg.width && kept.Keys == names == SelectedNames(groups)
    ensures free.Some? ==> free.value.View() == Outside(reserved.View(), kept)
    ensures free.Some? ==> forall n :: n in names ==> TakesHighest(MaskView(cfg.width, groups[n][k]), mins[n], cfg.width, kept[n])
  {
    var available := reserved;
    names, kept := {}, map[];
    var todo := groups.Keys;
    ghost var selected := SelectedNames(groups);
    assert available.View() == Outside(reserved.View(), kept);
    while todo != {}
      invariant todo <= groups.Keys && kept.Keys == names == selected - todo && names <= mins.Keys
      invariant available.Valid() && available.len == cfg.width && available.View() == Outside(reserved.View(), kept)
      invariant forall n :: n in kept ==> TakesHighest(MaskView(cfg.width, groups[n][k]), mins[n], cfg.width, kept[n])
    {
      var n :| n in todo;
      todo := todo - {n};
      if BestEffortName(n) {
        names := names + {n};
        if n !in mins {
          assert n in selected;
          return None, names, kept;
        }
        assert ReadableMask(cfg, groups[n], k);
        var minSchemata := Minimum(cfg, groups[n][k], mins[n]);
        available := available.Axor(minSchemata);
        OneMoreKept(reserved.View(), kept, n, minSchemata.View());
        kept := kept[n := minSchemata.View()];
      }
    }
    free := Some(available);
  }

  method Minimum(cfg: Config, mask: string, min: nat) returns (r: Bitmap)
    requires cfg.width < UINT32 && 1 <= min < UINT32
    requires GoodMask(cfg.width, mask) && HexText.Decode(cfg.width, mask).value.len == cfg.width
    ensures r.Valid() && r.len == cfg.width && TakesHighest(MaskView(cfg.width, mask), min, cfg.width, r.View())
  {
    var cosSchemata := HexText.FromHex(cfg.width, mask);
    r := GetConnectiveBits(cosSchemata.value, min, 0, false);
  }

  lemma OneMoreKept(pool: set<nat>, kept: map<string, set<nat>>, n: string, more: set<nat>)
    requires n !in kept
    ensures Outside(pool, kept[n := more]) == Outside(pool, kept) - more
  {
    var next := kept[n := more];
    forall i | i in pool ensures i in Outside(pool, next) <==> i in Outside(pool, kept) - more {
      assert next[n] == more;
      assert forall m :: m in kept ==> m in next && next[m] == kept[m];
    }
  }

  /** The second loop: every group loses what it held of the candidate. */
  method TakeAway(cfg: Config, groups: map<string, Masks>, names: set<string>, k: nat, cand: Bitmap)
      returns (after: map<string, Masks>, changed: set<string>)
    requires Readable(cfg, groups, names, k) && cand.Valid()
    ensures OnlyChanged(groups, after, changed, k)
    ensures forall n :: n in names ==> Reduced(cfg, groups[n], after[n], k, cand.View())
    ensures changed == set n | n in names && Hit(cfg, groups[n], k, cand.View())
  {
    after := groups;
    changed := {};
    var todo := names;
    ghost var view := cand.View();
    while todo != {}
      invariant todo <= names && after.Keys == groups.Keys && changed <= names
      invariant forall n :: n in groups && (n !in names || n in todo) ==> after[n] == groups[n]
      invariant forall n :: n in names && n !in todo ==> GroupDone(cfg, groups[n], after[n], k, view)
      invariant forall n :: n in names ==> (n in changed <==> n !in todo && Hit(cfg, groups[n], k, view))
    {
      var n :| n in todo;
      todo := todo - {n};
      var masks, differs := ReduceGroup(cfg, groups[n], k, cand);
      after := after[n := masks];
      if differs {
        changed := changed + {n};
      }
    }
    AllDone(cfg, groups, after, names, changed, k, view);
  }

  /** The group holds some of the candidate's ways. */
  ghost predicate Hit(cfg: Config, masks: Masks, k: nat, cand: set<nat>) {
    k in masks && MaskView(cfg.width, masks[k]) * cand != {}
  }

  /** One group after the second loop. */
  ghost predicate GroupDone(cfg: Config, before: Masks, after: Masks, k: nat, cand: set<nat>) {
    && Reduced(cfg, before, after, k, cand)
    && after.Keys == before.Keys && (forall j :: j in before && j != k ==> after[j] == before[j])
    && (!Hit(cfg, before, k, cand) ==> after == before)
  }

  method ReduceGroup(cfg: Config, masks: Masks, k: nat, cand: Bitmap) returns (after: Masks, differs: bool)
    requires ReadableMask(cfg, masks, k) && cand.Valid()
    ensures GroupDone(cfg, masks, after, k, cand.View()) && (differs <==> Hit(cfg, masks, k, cand.View()))
  {
    var mask;
    mask, differs := Reduce(cfg, masks[k], cand);
    after := masks;
    if differs {
      after := masks[k := mask];
    } else {
      assert MaskView(cfg.width, mask) == MaskView(cfg.width, masks[k]) - cand.View();
      Untouched(MaskView(cfg.width, masks[k]), cand.View());
    }
  }

  lemma Untouched(a: set<nat>, b: set<nat>)
    requires a * b == {}
    ensures a - b == a
  {
    assert forall i :: i in a && i in b ==> i in a * b;
  }

  lemma AllDone(cfg: Config, groups: map<string, Masks>, after: map<string, Masks>, names: set<string>, changed: set<string>,
                k: nat, cand: set<nat>)
    requires names <= groups.Keys == after.Keys && changed <= names
    requires forall n :: n in groups && n !in names ==> after[n] == groups[n]
    requires forall n :: n in names ==> GroupDone(cfg, groups[n], after[n], k, cand)
    requires forall n :: n in names ==> (n in changed <==> Hit(cfg, groups[n], k, cand))
    ensures OnlyChanged(groups, after, changed, k)
    ensures forall n :: n in names ==> Reduced(cfg, groups[n], after[n], k, cand)
    ensures changed == set n | n in names && Hit(cfg, groups[n], k, cand)
  {
    forall n | n in groups ensures after[n].Keys == groups[n].Keys && (n !in changed ==> after[n] == groups[n]) {
      assert n in names ==> GroupDone(cfg, groups[n], after[n], k, cand);
    }
    forall n, j | n in groups && j in groups[n] && j != k ensures after[n][j] == groups[n][j] {
      assert n in names ==> GroupDone(cfg, groups[n], after[n], k, cand);
    }
  }

  ghost predicate Reduced(cfg: Config, before: Masks, after: Masks, k: nat, cand: set<nat>) {
    && ReadableMask(cfg, before, k) && ReadableMask(cfg, after, k)
    && MaskView(cfg.width, after[k]) == MaskView(cfg.width, before[k]) - cand
  }

  method Reduce(cfg: Config, mask: string, cand: Bitmap) returns (text: string, differs: bool)
    requires GoodMask(cfg.width, mask) && HexText.Decode(cfg.width, mask).value.len == cfg.width && cand.Valid()
    ensures GoodMask(cfg.width, text) && HexText.Decode(cfg.width, text).value.len == cfg.width
    ensures MaskView(cfg.width, text) == MaskView(cfg.width, mask) - cand.View()
    ensures differs <==> MaskView(cfg.width, mask) * cand.View() != {}
  {
    var cos := HexText.FromHex(cfg.width, mask);
    var cosSchemata := cos.value;
    var rest := cosSchemata.Axor(cand);
    text := HexText.ToString(rest);
    var was := HexText.ToString(cosSchemata);
    HexText.HexRoundTrip(rest);
    differs := text != was;
    SameAfter(cosSchemata, rest, cand.View());
  }

  lemma SameAfter(b: Bitmap, rest: Bitmap, cand: set<nat>)
    requires b.Valid() && rest.Valid() && rest.len == b.len && rest.View() == b.View() - cand
    ensures HexText.Print(rest.words) != HexText.Print(b.words) <==> b.View() * cand != {}
  {
    if b.View() * cand == {} {
      assert forall i :: i in b.View() && i in cand ==> i in b.View() * cand;
      assert rest.View() == b.View();
      SameView(rest, b);
    } else {
      var i :| i in b.View() * cand;
      assert i in b.View() && i !in rest.View();
      if HexText.Print(rest.words) == HexText.Print(b.words) {
        HexText.PrintInjective(rest.words, b.words);
      }
    }
  }

  lemma ViewsTaken(cfg: Config, before: map<string, Masks>, after: map<string, Masks>, names: set<string>, k: nat, cand: set<nat>)
    requires Readable(cfg, before, names, k) && before.Keys == after.Keys
    requires forall n :: n in names ==> Reduced(cfg, before[n], after[n], k, cand)
    ensures Readable(cfg, after, names, k)
    ensures ViewsOn(cfg, before, names, k).Keys == ViewsOn(cfg, after, names, k).Keys == names
    ensures forall n :: n in names ==> ViewsOn(cfg, before, names, k)[n] == MaskView(cfg.width, before[n][k])
    ensures forall n :: n in names ==> ViewsOn(cfg, after, names, k)[n] == MaskView(cfg.width, before[n][k]) - cand
  {
    forall n | n in names ensures ReadableMask(cfg, before[n], k) && ReadableMask(cfg, after[n], k) {
      assert Reduced(cfg, before[n], after[n], k, cand);
    }
  }
}
