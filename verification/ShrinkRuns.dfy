/** Whole runs of one best-effort pool on one cache with shrinking on (modules/workload/workload.go,
    the best-effort case of enforceCache and shrinkBEPool), for group names of every kind: those
    that shrinkBEPool selects and those it does not. */
module ShrinkRuns {
  import opened WaySets
  import opened Text
  import opened Allocation
  import opened ClosPools
  import opened Shrink

  // ----- runs -----

  /** The groups of a pool on one cache, with the minimum each is owed. */
  datatype PoolState = PoolState(masks: map<string, set<nat>>, mins: map<string, nat>)

  /** A workload gets the longest free block, capped at its maximum. */
  ghost predicate GrantIn(pool: set<nat>, width: nat, st: PoolState, name: string, max: nat, min: nat, mask: set<nat>, next: PoolState) {
    && name !in st.masks && 1 <= min <= max && mask != {}
    && TakesLongest(Outside(pool, Busy(st.masks, width)), max, min, width, mask)
    && next == PoolState(st.masks[name := mask], st.mins[name := min])
  }

  /** A workload that runs on other caches shows the full mask here. */
  ghost predicate IdleIn(width: nat, st: PoolState, name: string, min: nat, next: PoolState) {
    name !in st.masks && next == PoolState(st.masks[name := Interval(0, width)], st.mins[name := min])
  }

  /** When no free block has the minimum a workload asks for, it gets the lowest block outside the
      minima of the groups with the suffix; those give it up, all others keep their masks. */
  ghost predicate ShrinkIn(pool: set<nat>, width: nat, st: PoolState, name: string, ways: nat, kept: map<string, set<nat>>,
                           cand: set<nat>, after: map<string, set<nat>>, next: PoolState) {
    && name !in st.masks && ways >= 1 && cand != {}
    && NoneFree(pool, width, st.masks, ways)
    && ShrinkStep(Selected(st.masks), st.mins, pool, width, ways, kept, cand, after)
    && next == PoolState((st.masks + after)[name := cand], st.mins[name := ways])
  }

  ghost predicate NoneFree(pool: set<nat>, width: nat, masks: map<string, set<nat>>, ways: nat) {
    forall p: nat :: !Fits(Outside(pool, Busy(masks, width)), p, ways)
  }

  ghost function Selected(masks: map<string, set<nat>>): map<string, set<nat>> {
    map n | n in masks && BestEffortName(n) :: masks[n]
  }

  ghost predicate LeaveIn(st: PoolState, name: string, next: PoolState) {
    next == PoolState(st.masks - {name}, st.mins)
  }

  /** The step is a shrink that gives `name` the block `cand`. */
  ghost predicate Shrinks(pool: set<nat>, width: nat, st: PoolState, name: string, cand: set<nat>, next: PoolState) {
    exists ways: nat, kept: map<string, set<nat>>, after: map<string, set<nat>> ::
      ShrinkIn(pool, width, st, name, ways, kept, cand, after, next)
  }

  ghost predicate PoolStep(pool: set<nat>, width: nat, st: PoolState, next: PoolState) {
    || (exists name: string, max: nat, min: nat, mask: set<nat> :: GrantIn(pool, width, st, name, max, min, mask, next))
    || (exists name: string, min: nat :: IdleIn(width, st, name, min, next))
    || (exists name: string :: LeaveIn(st, name, next))
    || IsShrink(pool, width, st, next)
  }

  ghost predicate IsPoolRun(pool: set<nat>, width: nat, run: seq<PoolState>) {
    && |run| >= 1 && run[0] == PoolState(map[], map[])
    && forall t :: 0 < t < |run| ==> PoolStep(pool, width, run[t - 1], run[t])
  }

  /** What a shrink that hands out `cand` must find: no group it selects is idle on the cache, and
      no group it passes over holds a way of `cand`. */
  ghost predicate Harmless(masks: map<string, set<nat>>, width: nat, cand: set<nat>) {
    NoneIdle(Selected(masks), width) && Spared(masks, width, cand)
  }

  ghost predicate Spared(masks: map<string, set<nat>>, width: nat, cand: set<nat>) {
    forall n :: n in masks && !BestEffortName(n) && !Idle(width, masks[n]) ==> masks[n] !! cand
  }

  ghost predicate ShrinksAreHarmless(pool: set<nat>, width: nat, st: PoolState, next: PoolState) {
    forall name: string, cand: set<nat> :: Shrinks(pool, width, st, name, cand, next) ==> Harmless(st.masks, width, cand)
  }

  ghost predicate HarmlessRun(pool: set<nat>, width: nat, run: seq<PoolState>) {
    forall t :: 0 < t < |run| ==> ShrinksAreHarmless(pool, width, run[t - 1], run[t])
  }

  // ----- steps other than a shrink -----

  lemma NewMember(masks: map<string, set<nat>>, mins: map<string, nat>, pool: set<nat>, name: string, mask: set<nat>, min: nat)
    requires BestEffortOk(masks, mins, pool) && name !in masks
    requires BlockOf(pool, mask, min) && forall n :: n in masks ==> masks[n] !! mask
    ensures BestEffortOk(masks[name := mask], mins[name := min], pool)
  {
    var m', min' := masks[name := mask], mins[name := min];
    forall n | n in m' ensures BlockOf(pool, m'[n], min'[n]) {
      assert n != name ==> m'[n] == masks[n] && min'[n] == mins[n];
    }
    forall m, n | m in m' && n in m' && m != n ensures m'[m] !! m'[n] {
      assert m != name ==> m'[m] == masks[m];
      assert n != name ==> m'[n] == masks[n];
    }
  }

  lemma BusyMember(masks: map<string, set<nat>>, width: nat, name: string, mask: set<nat>)
    requires name !in masks
    ensures Busy(masks[name := mask], width) ==
      if Idle(width, mask) then Busy(masks, width) else Busy(masks, width)[name := mask]
  {
  }

  lemma GrantKeeps(pool: set<nat>, width: nat, st: PoolState, name: string, max: nat, min: nat, mask: set<nat>, next: PoolState)
    requires GroupsOk(st.masks, st.mins, pool, width) && GrantIn(pool, width, st, name, max, min, mask, next)
    requires pool < Interval(0, width)
    ensures GroupsOk(next.masks, next.mins, pool, width)
  {
    var busy := Busy(st.masks, width);
    var free := Outside(pool, busy);
    LongestIsBlock(free, max, min, width, mask);
    NewMember(busy, st.mins, pool, name, mask, min);
    BusyMember(st.masks, width, name, mask);
  }

  lemma IdleKeeps(pool: set<nat>, width: nat, st: PoolState, name: string, min: nat, next: PoolState)
    requires GroupsOk(st.masks, st.mins, pool, width) && IdleIn(width, st, name, min, next)
    ensures GroupsOk(next.masks, next.mins, pool, width)
  {
    BusyMember(st.masks, width, name, Interval(0, width));
  }

  /** Some of the groups, and some of the minima. */
  lemma FewerOk(pool: set<nat>, masks: map<string, set<nat>>, mins: map<string, nat>, fewer: map<string, set<nat>>, known: map<string, nat>)
    requires BestEffortOk(masks, mins, pool) && fewer.Keys <= masks.Keys && fewer.Keys <= known.Keys
    requires forall n :: n in fewer ==> fewer[n] == masks[n] && known[n] == mins[n]
    ensures BestEffortOk(fewer, known, pool)
  {
  }

  lemma LeaveKeeps(pool: set<nat>, width: nat, masks: map<string, set<nat>>, mins: map<string, nat>, name: string)
    requires GroupsOk(masks, mins, pool, width)
    ensures GroupsOk(masks - {name}, mins, pool, width)
  {
    FewerOk(pool, Busy(masks, width), mins, Busy(masks - {name}, width), mins);
  }

  // ----- a shrink -----

  /** The selected groups that run here are part of the busy ones. */
  lemma SelectedOk(pool: set<nat>, width: nat, st: PoolState)
    requires GroupsOk(st.masks, st.mins, pool, width) && NoneIdle(Selected(st.masks), width)
    ensures BestEffortOk(Selected(st.masks), st.mins, pool)
  {
    FewerOk(pool, Busy(st.masks, width), st.mins, Selected(st.masks), st.mins);
  }

  /** The busy groups after a shrink: those passed over as they were, and the selected ones. */
  lemma AfterShrink(pool: set<nat>, width: nat, masks: map<string, set<nat>>, mins: map<string, nat>, after: map<string, set<nat>>)
    requires masks.Keys <= mins.Keys && BestEffortOk(Busy(masks, width), mins, pool)
    requires after.Keys == Selected(masks).Keys && BestEffortOk(after, mins, pool)
    requires forall n :: n in after ==> after[n] <= masks[n] && !Idle(width, masks[n])
    ensures BestEffortOk(Busy(masks + after, width), mins, pool)
  {
    var all := Busy(masks + after, width);
    var busy := Busy(masks, width);
    forall n | n in all ensures n in busy && all[n] <= busy[n] && BlockOf(pool, all[n], mins[n]) {
      assert n in after ==> all[n] == after[n] && n in busy;
      assert n !in after ==> all[n] == masks[n] && n in busy;
    }
    forall m, n | m in all && n in all && m != n ensures all[m] !! all[n] {
      assert busy[m] !! busy[n];
    }
  }

  /** Nobody busy after a harmless shrink holds a way of the block handed out. */
  lemma ClearOfOthers(width: nat, masks: map<string, set<nat>>, after: map<string, set<nat>>, cand: set<nat>)
    requires after.Keys == Selected(masks).Keys && Spared(masks, width, cand)
    requires forall n :: n in after ==> after[n] !! cand
    ensures forall n :: n in Busy(masks + after, width) ==> Busy(masks + after, width)[n] !! cand
  {
    var all := Busy(masks + after, width);
    forall n | n in all ensures all[n] !! cand {
      assert n in after ==> all[n] == after[n];
      assert n !in after ==> all[n] == masks[n] && !BestEffortName(n);
    }
  }

  lemma HarmlessKeeps(pool: set<nat>, width: nat, st: PoolState, name: string, ways: nat, kept: map<string, set<nat>>,
                      cand: set<nat>, after: map<string, set<nat>>, next: PoolState)
    requires GroupsOk(st.masks, st.mins, pool, width) && ShrinkIn(pool, width, st, name, ways, kept, cand, after, next)
    requires pool < Interval(0, width) && Harmless(st.masks, width, cand)
    ensures GroupsOk(next.masks, next.mins, pool, width)
  {
    var before := Selected(st.masks);
    SelectedOk(pool, width, st);
    ShrinkSafe(before, st.mins, pool, width, ways, kept, cand, after);
    forall n | n in after ensures after[n] <= st.masks[n] && !Idle(width, st.masks[n]) {
      assert before[n] == st.masks[n] && after[n] == before[n] - cand;
    }
    AfterShrink(pool, width, st.masks, st.mins, after);
    ClearOfOthers(width, st.masks, after, cand);
    var all := st.masks + after;
    NewMember(Busy(all, width), st.mins, pool, name, cand, ways);
    assert !Idle(width, cand);
    BusyMember(all, width, name, cand);
  }

  /** A selected group that is idle here is spoilt. */
  lemma IdleSelectedBreaks(pool: set<nat>, width: nat, st: PoolState, name: string, ways: nat, kept: map<string, set<nat>>,
                           cand: set<nat>, after: map<string, set<nat>>, next: PoolState, n: string)
    requires ShrinkIn(pool, width, st, name, ways, kept, cand, after, next) && pool < Interval(0, width)
    requires n in Selected(st.masks) && Idle(width, st.masks[n])
    ensures !GroupsOk(next.masks, next.mins, pool, width)
  {
    CandidateInPool(pool, kept, ways, cand);
    IdleIsSpoilt(pool, width, cand, after[n]);
    assert next.masks[n] == after[n];
    assert n in Busy(next.masks, width) && Busy(next.masks, width)[n] == after[n];
  }

  /** A group passed over that holds a way of the block now shares it. */
  lemma PassedOverBreaks(pool: set<nat>, width: nat, st: PoolState, name: string, ways: nat, kept: map<string, set<nat>>,
                         cand: set<nat>, after: map<string, set<nat>>, next: PoolState, n: string)
    requires ShrinkIn(pool, width, st, name, ways, kept, cand, after, next) && pool < Interval(0, width)
    requires n in st.masks && !BestEffortName(n) && !Idle(width, st.masks[n]) && !(st.masks[n] !! cand)
    ensures next.masks[n] == st.masks[n] && !(next.masks[n] !! next.masks[name])
    ensures !GroupsOk(next.masks, next.mins, pool, width)
  {
    CandidateInPool(pool, kept, ways, cand);
    assert n !in after && next.masks[n] == st.masks[n] && next.masks[name] == cand;
    var busy := Busy(next.masks, width);
    assert !Idle(width, cand);
    assert n in busy && name in busy && !(busy[n] !! busy[name]);
  }

  /** Exactly when a shrink keeps the groups in order. */
  lemma ShrinkKeepsIff(pool: set<nat>, width: nat, st: PoolState, name: string, cand: set<nat>, next: PoolState)
    requires GroupsOk(st.masks, st.mins, pool, width) && Shrinks(pool, width, st, name, cand, next)
    requires pool < Interval(0, width)
    ensures GroupsOk(next.masks, next.mins, pool, width) <==> Harmless(st.masks, width, cand)
  {
    var ways: nat, kept: map<string, set<nat>>, after: map<string, set<nat>> :|
      ShrinkIn(pool, width, st, name, ways, kept, cand, after, next);
    if Harmless(st.masks, width, cand) {
      HarmlessKeeps(pool, width, st, name, ways, kept, cand, after, next);
    } else if !NoneIdle(Selected(st.masks), width) {
      var n :| n in Selected(st.masks) && Idle(width, st.masks[n]);
      IdleSelectedBreaks(pool, width, st, name, ways, kept, cand, after, next, n);
    } else {
      var n :| n in st.masks && !BestEffortName(n) && !Idle(width, st.masks[n]) && !(st.masks[n] !! cand);
      PassedOverBreaks(pool, width, st, name, ways, kept, cand, after, next, n);
    }
  }

  // ----- whole runs -----

  lemma PoolStepKeeps(pool: set<nat>, width: nat, st: PoolState, next: PoolState)
    requires GroupsOk(st.masks, st.mins, pool, width) && PoolStep(pool, width, st, next) && pool < Interval(0, width)
    ensures GroupsOk(next.masks, next.mins, pool, width) <==> ShrinksAreHarmless(pool, width, st, next)
  {
    forall name: string, cand: set<nat> | Shrinks(pool, width, st, name, cand, next)
      ensures GroupsOk(next.masks, next.mins, pool, width) <==> Harmless(st.masks, width, cand)
    {
      ShrinkKeepsIff(pool, width, st, name, cand, next);
    }
    if name: string, max: nat, min: nat, mask: set<nat> :| GrantIn(pool, width, st, name, max, min, mask, next) {
      GrantKeeps(pool, width, st, name, max, min, mask, next);
    } else if name: string, min: nat :| IdleIn(width, st, name, min, next) {
      IdleKeeps(pool, width, st, name, min, next);
    } else if name: string :| LeaveIn(st, name, next) {
      LeaveKeeps(pool, width, st.masks, st.mins, name);
    } else {
      var name: string, cand: set<nat> :| Shrinks(pool, width, st, name, cand, next);
    }
  }

  /** With shrinking on: in every run of grants, idle arrivals, shrinks and departures, as long as
      every shrink is harmless, the groups stay disjoint blocks of the pool and none ever falls
      below the minimum it was promised. */
  lemma {:induction false} EveryPoolRunOk(pool: set<nat>, width: nat, run: seq<PoolState>, t: nat)
    requires IsPoolRun(pool, width, run) && t < |run| && pool < Interval(0, width)
    requires forall s :: 0 < s <= t ==> ShrinksAreHarmless(pool, width, run[s - 1], run[s])
    ensures GroupsOk(run[t].masks, run[t].mins, pool, width)
  {
    if t > 0 {
      EveryPoolRunOk(pool, width, run, t - 1);
      PoolStepKeeps(pool, width, run[t - 1], run[t]);
    }
  }

  ghost predicate OkThroughout(pool: set<nat>, width: nat, run: seq<PoolState>) {
    forall t :: 0 <= t < |run| ==> GroupsOk(run[t].masks, run[t].mins, pool, width)
  }

  /** And only then: a run is in order throughout if and only if every shrink in it is
      harmless. */
  lemma PoolRunOkIff(pool: set<nat>, width: nat, run: seq<PoolState>)
    requires IsPoolRun(pool, width, run) && pool < Interval(0, width)
    ensures OkThroughout(pool, width, run) <==> HarmlessRun(pool, width, run)
  {
    if HarmlessRun(pool, width, run) {
      forall t | 0 <= t < |run| ensures GroupsOk(run[t].masks, run[t].mins, pool, width) {
        EveryPoolRunOk(pool, width, run, t);
      }
    }
    if OkThroughout(pool, width, run) {
      forall t | 0 < t < |run| ensures ShrinksAreHarmless(pool, width, run[t - 1], run[t]) {
        PoolStepKeeps(pool, width, run[t - 1], run[t]);
      }
    }
  }

  // ----- the names the platform really gives its groups -----

  ghost predicate ClassNames(masks: map<string, set<nat>>) {
    forall n :: n in masks ==> exists i: nat :: n == ClosName(i)
  }

  lemma NothingSelected(masks: map<string, set<nat>>)
    requires ClassNames(masks)
    ensures Selected(masks) == map[]
  {
    forall n | n in masks ensures !BestEffortName(n) {
      var i: nat :| n == ClosName(i);
      ClassNotSelected(i);
    }
  }

  lemma OutsideNothing(pool: set<nat>)
    ensures Outside(pool, map[]) == pool
  {
  }

  /** A block of the pool that is not free has a way that some busy group holds. */
  lemma BlockIsHeld(pool: set<nat>, width: nat, masks: map<string, set<nat>>, ways: nat, cand: set<nat>) returns (n: string)
    requires TakesLowest(pool, ways, 0, cand) && cand != {} && NoneFree(pool, width, masks, ways)
    ensures n in masks && !Idle(width, masks[n]) && !(masks[n] !! cand)
  {
    var free := Outside(pool, Busy(masks, width));
    var p: nat :| LowestFit(pool, ways, 0, p) && cand == Interval(p, p + ways);
    assert !Fits(free, p, ways);
    var i :| i in cand && i !in free;
    assert i in pool;
    var m :| m in Busy(masks, width) && i in Busy(masks, width)[m];
    n := m;
  }

  /** Every shrink among classes of the platform gives away ways that a class still holds. */
  lemma ClassShrinkOverlaps(pool: set<nat>, width: nat, st: PoolState, name: string, cand: set<nat>, next: PoolState)
      returns (n: string)
    requires ClassNames(st.masks) && Shrinks(pool, width, st, name, cand, next) && pool < Interval(0, width)
    ensures n in st.masks && !Idle(width, st.masks[n]) && next.masks[n] == st.masks[n] && n != name
    ensures !(next.masks[n] !! next.masks[name])
    ensures !GroupsOk(next.masks, next.mins, pool, width)
  {
    var ways: nat, kept: map<string, set<nat>>, after: map<string, set<nat>> :|
      ShrinkIn(pool, width, st, name, ways, kept, cand, after, next);
    NothingSelected(st.masks);
    assert kept == map[];
    OutsideNothing(pool);
    n := BlockIsHeld(pool, width, st.masks, ways, cand);
    assert n !in Selected(st.masks);
    PassedOverBreaks(pool, width, st, name, ways, kept, cand, after, next, n);
  }

  lemma ClassShrinkBreaks(pool: set<nat>, width: nat, st: PoolState, next: PoolState)
    requires ClassNames(st.masks) && pool < Interval(0, width)
    ensures IsShrink(pool, width, st, next) ==> !GroupsOk(next.masks, next.mins, pool, width)
  {
    if name: string, cand: set<nat> :| Shrinks(pool, width, st, name, cand, next) {
      var n := ClassShrinkOverlaps(pool, width, st, name, cand, next);
    }
  }

  /** Among classes a shrink happens, for a newcomer of minimum `ways`, exactly when that many ways
      do not fit into what is free but do fit into the pool. */
  lemma ClassShrinkIff(pool: set<nat>, width: nat, st: PoolState, name: string, ways: nat)
    requires ClassNames(st.masks) && name !in st.masks && ways >= 1
    ensures (exists kept, cand, after, next :: ShrinkIn(pool, width, st, name, ways, kept, cand, after, next))
      <==> NoneFree(pool, width, st.masks, ways) && exists p: nat :: Fits(pool, p, ways)
  {
    NothingSelected(st.masks);
    OutsideNothing(pool);
    if kept, cand, after, next :| ShrinkIn(pool, width, st, name, ways, kept, cand, after, next) {
      assert kept == map[];
      var p: nat :| LowestFit(pool, ways, 0, p) && cand == Interval(p, p + ways);
      assert Fits(pool, p, ways);
    }
    if NoneFree(pool, width, st.masks, ways) && exists p: nat :: Fits(pool, p, ways) {
      var p: nat :| Fits(pool, p, ways);
      var lowest := LowestOf(pool, ways, p);
      var cand, next := ClassShrink(pool, width, st, name, ways, lowest);
    }
  }

  lemma LowestOf(s: set<nat>, ways: nat, p: nat) returns (lowest: nat)
    requires Fits(s, p, ways)
    ensures LowestFit(s, ways, 0, lowest)
  {
    if q: nat :| q < p && Fits(s, q, ways) {
      lowest := LowestOf(s, ways, q);
    } else {
      lowest := p;
    }
  }

  lemma ClassShrink(pool: set<nat>, width: nat, st: PoolState, name: string, ways: nat, p: nat)
      returns (cand: set<nat>, next: PoolState)
    requires ClassNames(st.masks) && name !in st.masks && ways >= 1
    requires NoneFree(pool, width, st.masks, ways) && LowestFit(pool, ways, 0, p)
    ensures cand == Interval(p, p + ways) && next == PoolState(st.masks[name := cand], st.mins[name := ways])
    ensures ShrinkIn(pool, width, st, name, ways, map[], cand, map[], next)
  {
    cand := Interval(p, p + ways);
    assert p in cand;
    next := PoolState(st.masks[name := cand], st.mins[name := ways]);
    NothingSelected(st.masks);
    OutsideNothing(pool);
    assert st.masks + map[] == st.masks;
  }

  ghost predicate IsShrink(pool: set<nat>, width: nat, st: PoolState, next: PoolState) {
    exists name: string, cand: set<nat> :: Shrinks(pool, width, st, name, cand, next)
  }

  ghost predicate NeverShrinks(pool: set<nat>, width: nat, run: seq<PoolState>) {
    forall t :: 0 < t < |run| ==> !IsShrink(pool, width, run[t - 1], run[t])
  }

  /** So for the platform's own names a run is in order throughout if and only if it never
      shrinks. */
  lemma ClassRunOkIff(pool: set<nat>, width: nat, run: seq<PoolState>)
    requires IsPoolRun(pool, width, run) && pool < Interval(0, width)
    requires forall t :: 0 <= t < |run| ==> ClassNames(run[t].masks)
    ensures OkThroughout(pool, width, run) <==> NeverShrinks(pool, width, run)
  {
    PoolRunOkIff(pool, width, run);
    if OkThroughout(pool, width, run) {
      forall t | 0 < t < |run| ensures !IsShrink(pool, width, run[t - 1], run[t]) {
        ClassShrinkBreaks(pool, width, run[t - 1], run[t]);
      }
    }
  }

  // ----- witnesses -----

  lemma WholeGrant(n: nat, width: nat, st: PoolState, c: string) returns (next: PoolState)
    requires 1 <= n < width && c !in st.masks && Busy(st.masks, width) == map[]
    ensures next == PoolState(st.masks[c := Interval(0, n)], st.mins[c := 1])
    ensures PoolStep(Interval(0, n), width, st, next)
  {
    var pool := Interval(0, n);
    next := PoolState(st.masks[c := pool], st.mins[c := 1]);
    OutsideNothing(pool);
    WholeWindow(0, n, width);
    assert GrantIn(pool, width, st, c, n + 1, 1, pool, next);
  }

  lemma AllTaken(pool: set<nat>, width: nat, masks: map<string, set<nat>>, c: string)
    requires c in masks && masks[c] == pool && !Idle(width, pool)
    ensures NoneFree(pool, width, masks, 1)
  {
    var free := Outside(pool, Busy(masks, width));
    assert Busy(masks, width)[c] == pool;
    forall p: nat ensures !Fits(free, p, 1) {
      assert p in Interval(p, p + 1);
    }
  }

  /** No idle group is needed for that: COS2 gets the whole pool, COS3 asks for one way and is given
      way 0, which COS2 keeps. This happens in every pool from way 0 up. */
  lemma ClassSpoiltRun(n: nat, width: nat) returns (run: seq<PoolState>)
    requires 1 <= n < width
    ensures IsPoolRun(Interval(0, n), width, run) && |run| == 3
    ensures forall t :: 0 <= t < |run| ==> ClassNames(run[t].masks)
    ensures run[2].masks == map[ClosName(2) := Interval(0, n), ClosName(3) := Interval(0, 1)]
    ensures !GroupsOk(run[2].masks, run[2].mins, Interval(0, n), width)
  {
    var none := PoolState(map[], map[]);
    assert Busy(none.masks, width) == map[];
    var first := WholeGrant(n, width, none, ClosName(2));
    var second := ThenOneWay(n, width, first);
    run := [none, first, second];
  }

  lemma ThenOneWay(n: nat, width: nat, st: PoolState) returns (next: PoolState)
    requires 1 <= n < width && st == PoolState(map[ClosName(2) := Interval(0, n)], map[ClosName(2) := 1])
    ensures PoolStep(Interval(0, n), width, st, next) && ClassNames(st.masks) && ClassNames(next.masks)
    ensures next.masks == map[ClosName(2) := Interval(0, n), ClosName(3) := Interval(0, 1)]
    ensures !GroupsOk(next.masks, next.mins, Interval(0, n), width)
  {
    var pool, a, b := Interval(0, n), ClosName(2), ClosName(3);
    DifferentClasses(2, 3);
    assert ClassNames(st.masks);
    assert n in Interval(0, width);
    AllTaken(pool, width, st.masks, a);
    assert Fits(pool, 0, 1);
    var cand;
    cand, next := ClassShrink(pool, width, st, b, 1, 0);
    assert Shrinks(pool, width, st, b, cand, next);
    ClassShrinkBreaks(pool, width, st, next);
  }

  lemma DifferentClasses(i: nat, j: nat)
    requires i != j
    ensures ClosName(i) != ClosName(j)
  {
    if ClosName(i) == ClosName(j) {
      assert ClosName(i)[3..] == Itoa(i) && ClosName(j)[3..] == Itoa(j);
      ItoaInjective(i, j);
    }
  }

  /** With names that are selected, the failing shrink needs an idle group: in every pool of two or
      more ways from way 0 up, one that runs elsewhere, one that gets the whole pool, one that asks
      for a way. */
  lemma SpoiltRun(n: nat, width: nat, a: string, c: string, b: string) returns (run: seq<PoolState>)
    requires 2 <= n < width && a != c && b != a && b != c && BestEffortName(a) && BestEffortName(c)
    ensures IsPoolRun(Interval(0, n), width, run) && |run| == 4
    ensures !GroupsOk(run[3].masks, run[3].mins, Interval(0, n), width)
  {
    var pool := Interval(0, n);
    var first := FirstIdle(pool, width, a);
    assert Busy(first.masks, width) == map[];
    var second := WholeGrant(n, width, first, c);
    assert second == PoolState(map[a := Interval(0, width), c := pool], map[a := 1, c := 1]);
    var third := ThenShrink(n, width, a, c, b, second);
    run := [PoolState(map[], map[]), first, second, third];
  }

  lemma ThenShrink(n: nat, width: nat, a: string, c: string, b: string, st: PoolState) returns (next: PoolState)
    requires 2 <= n < width && a != c && b != a && b != c && BestEffortName(a) && BestEffortName(c)
    requires st == PoolState(map[a := Interval(0, width), c := Interval(0, n)], map[a := 1, c := 1])
    ensures PoolStep(Interval(0, n), width, st, next) && !GroupsOk(next.masks, next.mins, Interval(0, n), width)
  {
    var pool, cand, topA, topC := LastAndFirst(n, width);
    var kept, after := TwoGroups(pool, width, a, c, topA, topC, cand, st);
    AllTaken(pool, width, st.masks, c);
    assert st.masks[a] == Interval(0, width) && forall n :: n in st.masks ==> n == a || n == c;
    assert Idle(width, st.masks[a]) && b !in st.masks;
    next := TakeFromIdle(pool, width, st, a, b, 1, kept, cand, after);
  }

  lemma TakeFromIdle(pool: set<nat>, width: nat, st: PoolState, a: string, b: string, ways: nat, kept: map<string, set<nat>>,
                     cand: set<nat>, after: map<string, set<nat>>) returns (next: PoolState)
    requires (forall n :: n in st.masks ==> BestEffortName(n)) && b !in st.masks
    requires a in st.masks && Idle(width, st.masks[a]) && pool < Interval(0, width) && ways >= 1 && cand != {}
    requires NoneFree(pool, width, st.masks, ways) && ShrinkStep(st.masks, st.mins, pool, width, ways, kept, cand, after)
    ensures PoolStep(pool, width, st, next) && !GroupsOk(next.masks, next.mins, pool, width)
  {
    assert Selected(st.masks) == st.masks;
    next := PoolState((st.masks + after)[b := cand], st.mins[b := ways]);
    assert ShrinkIn(pool, width, st, b, ways, kept, cand, after, next);
    assert Shrinks(pool, width, st, b, cand, next);
    IdleSelectedBreaks(pool, width, st, b, ways, kept, cand, after, next, a);
  }

  lemma LastAndFirst(n: nat, width: nat) returns (pool: set<nat>, cand: set<nat>, topA: set<nat>, topC: set<nat>)
    requires 2 <= n < width
    ensures pool == Interval(0, n) < Interval(0, width) && cand <= pool && cand != {}
    ensures TakesHighest(Interval(0, width), 1, width, topA) && TakesHighest(pool, 1, width, topC)
    ensures TakesLowest(pool - topC - topA, 1, 0, cand)
  {
    pool, cand, topA, topC := Interval(0, n), Interval(0, 1), Interval(width - 1, width), Interval(n - 1, n);
    assert 0 in cand && n in Interval(0, width);
    EndWays(width, width);
    EndWays(n, width);
    EndWays(n - 1, width);
    assert pool - topC - topA == Interval(0, n - 1);
  }

  lemma TwoGroups(pool: set<nat>, width: nat, a: string, c: string, topA: set<nat>, topC: set<nat>, cand: set<nat>, st: PoolState)
      returns (kept: map<string, set<nat>>, after: map<string, set<nat>>)
    requires a != c && st == PoolState(map[a := Interval(0, width), c := pool], map[a := 1, c := 1])
    requires TakesHighest(Interval(0, width), 1, width, topA) && TakesHighest(pool, 1, width, topC)
    requires TakesLowest(pool - topC - topA, 1, 0, cand)
    ensures ShrinkStep(st.masks, st.mins, pool, width, 1, kept, cand, after)
    ensures after == map[a := Interval(0, width) - cand, c := pool - cand]
  {
    kept := map[a := topA, c := topC];
    after := map[a := Interval(0, width) - cand, c := pool - cand];
    forall i | i in pool ensures i in Outside(pool, kept) <==> i !in topA && i !in topC {
      assert kept[a] == topA && kept[c] == topC;
    }
    assert Outside(pool, kept) == pool - topC - topA;
  }

  lemma FirstIdle(pool: set<nat>, width: nat, a: string) returns (first: PoolState)
    ensures first == PoolState(map[a := Interval(0, width)], map[a := 1])
    ensures PoolStep(pool, width, PoolState(map[], map[]), first)
  {
    var none := PoolState(map[], map[]);
    first := PoolState(map[a := Interval(0, width)], map[a := 1]);
    assert none.masks[a := Interval(0, width)] == first.masks && none.mins[a := 1] == first.mins;
    assert IdleIn(width, none, a, 1, first);
  }
}
