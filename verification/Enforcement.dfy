/** Enforcing and releasing workloads (modules/workload/workload.go, enforceCache, enforceRDT and
    Release; modules/cache/osgroup.go, SetOSGroup): the imperative allocator over mask texts,
    proved to take the steps of module Allocation. */
module Enforcement {
  import opened Words
  import opened WaySets
  import opened Bitmaps
  import opened Text
  import opened Runs
  import opened Search
  import opened CachePools
  import opened Allocation
  import opened Shrink
  import HexText

  const OS_GROUP := "."
  const INFRA_GROUP := "COS1"

  function Reserved(): set<string> {
    {OS_GROUP, INFRA_GROUP}
  }

  // ----- choosing the ways on one cache -----

  /** No block of the size the request insists on is free; with shrinking, a best-effort request
      is refused only when the whole pool is too small for it. */
  ghost predicate Refused(shrink: bool, free: set<nat>, window: set<nat>, req: Request, kind: PoolKind, k: nat) {
    match kind
    case Guarantee => req.Wants(k) && NoBlock(free, req.maxWays)
    case Besteffort => req.Wants(k) && NoBlock(free, req.minWays) && !(shrink && !NoBlock(window, req.minWays))
    case Shared => false
  }

  ghost predicate GoodHost(host: Host) {
    && host.Valid()
    && host.cfg.cbmMask == Format(Ones(host.cfg.width), 16)
  }

  /** The body of the loop in enforceCache: the whole mask where the workload does not run,
      else a block of the pool, or nothing when the request cannot be met there. */
  method CandidateOn(host: Host, groups: map<string, Masks>, v: Bitmap, pool: Bitmap, req: Request, kind: PoolKind, k: nat)
      returns (c: Option<Bitmap>)
    requires GoodHost(host) && v.Valid() && pool.Valid() && v.len == pool.len == host.cfg.width
    requires req.maxWays < UINT32 && PoolName(req.maxWays, req.minWays) == Some(kind)
    requires pool.View() != {} && SelectedNames(groups) == {}
    ensures c.None? <==> Refused(host.shrink, v.View(), pool.View(), req, kind, k)
    ensures c.Some? ==> c.value.Valid() && c.value.len == host.cfg.width
    ensures c.Some? ==> Chosen(host, v.View(), pool.View(), req, kind, k, c.value.View())
  {
    if !req.Wants(k) && kind != Shared {
      FullMask(host);
      c := HexText.FromHex(host.cfg.width, host.cfg.cbmMask);
    } else {
      match kind {
        case Guarantee => c := HighestBlock(v, req.maxWays);
        case Besteffort => c := BestEffortOn(host, groups, v, pool, req, k);
        case Shared => c := Some(pool);
      }
    }
  }

  /** Best effort on one cache: a free block, or else, where that is configured, what shrinking
      the others gives. */
  method BestEffortOn(host: Host, groups: map<string, Masks>, v: Bitmap, pool: Bitmap, req: Request, k: nat)
      returns (c: Option<Bitmap>)
    requires GoodHost(host) && v.Valid() && pool.Valid() && v.len == pool.len == host.cfg.width
    requires 1 <= req.minWays < req.maxWays < UINT32 && SelectedNames(groups) == {}
    ensures c.None? <==> NoBlock(v.View(), req.minWays) && !(host.shrink && !NoBlock(pool.View(), req.minWays))
    ensures c.Some? ==> c.value.Valid() && c.value.len == host.cfg.width && c.value.View() != {}
    ensures c.Some? ==>
      TakesBestEffort(host.shrink, v.View(), pool.View(), req.maxWays, req.minWays, host.cfg.width, c.value.View())
  {
    c := BestEffortBlock(v, req.maxWays, req.minWays);
    if c.None? && host.shrink {
      c := ShrunkBlock(host, groups, pool, req.minWays, k);
    }
  }

  /** The block shrinkBEPool gives when it selects none of the groups: nobody's mask changes, no
      workload is looked up, and the block is the lowest one of the whole pool. */
  method ShrunkBlock(host: Host, groups: map<string, Masks>, pool: Bitmap, min: nat, k: nat) returns (c: Option<Bitmap>)
    requires GoodHost(host) && pool.Valid() && pool.len == host.cfg.width && 1 <= min < UINT32
    requires SelectedNames(groups) == {}
    ensures c.None? <==> NoBlock(pool.View(), min)
    ensures c.Some? ==> c.value.Valid() && c.value.len == host.cfg.width && c.value.View() != {}
    ensures c.Some? ==> TakesLowest(pool.View(), min, 0, c.value.View())
  {
    var cand, after, changed;
    ghost var kept;
    cand, after, changed, kept := ShrinkGroups(host.cfg, groups, map[], pool, k, min);
    NothingShrunk(host.cfg, groups, map[], pool, k, min, kept, cand.value, after, changed);
    var empty := cand.value.IsEmpty();
    c := if empty then None else cand;
  }

  /** The highest free block of exactly `ways`. */
  method HighestBlock(v: Bitmap, ways: nat) returns (c: Option<Bitmap>)
    requires v.Valid() && v.len < UINT32 && 1 <= ways < UINT32
    ensures c.None? <==> forall p: nat :: !Fits(v.View(), p, ways)
    ensures c.Some? ==> c.value.Valid() && c.value.len == v.len && c.value.View() != {}
    ensures c.Some? ==> TakesHighest(v.View(), ways, v.len, c.value.View())
  {
    var r := GetConnectiveBits(v, ways, 0, false);
    var empty := r.IsEmpty();
    FitsWithin(v, ways);
    c := if empty then None else Some(r);
  }

  /** Without shrinking: as many ways as the longest free block has, capped at `max`; refused
      exactly when that block is shorter than `min`. */
  method BestEffortBlock(v: Bitmap, max: nat, min: nat) returns (c: Option<Bitmap>)
    requires v.Valid() && v.len < UINT32 && 1 <= min < max < UINT32
    ensures c.None? <==> forall p: nat :: !Fits(v.View(), p, min)
    ensures c.Some? ==> c.value.Valid() && c.value.len == v.len && c.value.View() != {}
    ensures c.Some? ==> TakesLongest(v.View(), max, min, v.len, c.value.View())
  {
    var longest := LongestFree(v, min);
    if longest <= 0 {
      return None;
    }
    var ways := if longest > max then max else longest;
    c := HighestBlock(v, ways);
    ShorterFits(v.View(), longest, ways);
  }

  lemma FullMask(host: Host)
    requires GoodHost(host)
    ensures GoodMask(host.cfg.width, host.cfg.cbmMask)
    ensures MaskView(host.cfg.width, host.cfg.cbmMask) == host.cfg.Full()
    ensures HexText.Decode(host.cfg.width, host.cfg.cbmMask).value.len == host.cfg.width
  {
    ShiftedMask(host.cfg.width, host.cfg.width, 0);
  }

  lemma FitsWithin(v: Bitmap, n: nat)
    requires v.Valid() && n >= 1
    ensures forall p: nat :: Fits(v.View(), p, n) ==> p + n <= v.len
  {
    forall p: nat | Fits(v.View(), p, n) ensures p + n <= v.len {
      assert p + n - 1 in Interval(p, p + n);
    }
  }

  // ----- mask texts and the sets they stand for -----

  /** The text ToString gives for a well-formed bitmap of the platform's width. */
  ghost predicate CanonicalMask(width: nat, mask: string) {
    && GoodMask(width, mask)
    && HexText.Decode(width, mask).value.len == width
    && mask == HexText.Print(HexText.Decode(width, mask).value.words)
  }

  lemma PrintedIsCanonical(b: Bitmap)
    requires b.Valid()
    ensures CanonicalMask(b.len, HexText.Print(b.words)) && MaskView(b.len, HexText.Print(b.words)) == b.View()
  {
    HexText.HexRoundTrip(b);
  }

  /** Comparing canonical texts is comparing sets. */
  lemma SameText(width: nat, a: string, b: string)
    requires CanonicalMask(width, a) && CanonicalMask(width, b)
    ensures a == b <==> MaskView(width, a) == MaskView(width, b)
  {
    var x, y := HexText.Decode(width, a).value, HexText.Decode(width, b).value;
    if x.View() == y.View() {
      SameView(x, y);
    }
  }

  lemma FullIsCanonical(host: Host)
    requires GoodHost(host)
    ensures CanonicalMask(host.cfg.width, host.cfg.cbmMask)
  {
    FullMask(host);
    var w := Ones(host.cfg.width);
    assert Shl(w, 0) == w;
    forall i: nat ensures BitAt(w, i) == (i < host.cfg.width) {
      OnesBit(host.cfg.width, i);
    }
    BoundFromBits(w, 32);
    HexText.PrintParses([w]);
  }

  ghost function Views(cfg: Config, masks: Masks): map<nat, set<nat>> {
    map k | k in masks :: MaskView(cfg.width, masks[k])
  }

  /** The workload groups among all groups, with the request each one serves. */
  ghost function GrantsOf(cfg: Config, groups: map<string, Masks>, served: map<string, (PoolKind, Request)>): map<string, Grant> {
    map n | n in groups && n in served && n !in Reserved() ::
      Grant(served[n].0, served[n].1, Views(cfg, groups[n]))
  }

  ghost predicate Tidy(host: Host, groups: map<string, Masks>, served: map<string, (PoolKind, Request)>) {
    && GoodGroups(host.cfg, groups, host.servesOs.Keys)
    && served.Keys == groups.Keys - Reserved()
    && forall n :: n in served ==> TidyMasks(host, groups[n])
  }

  ghost predicate TidyMasks(host: Host, masks: Masks) {
    masks.Keys == host.servesOs.Keys && forall k :: k in masks ==> CanonicalMask(host.cfg.width, masks[k])
  }

  lemma TakesIsUses(host: Host, masks: Masks, g: Grant, k: nat, i: nat)
    requires GoodHost(host) && TidyMasks(host, masks) && k in masks && g.masks == Views(host.cfg, masks)
    ensures Takes(host.cfg, masks, k, i) <==> Uses(host, g, k) && i in g.masks[k]
  {
    FullMask(host);
    FullIsCanonical(host);
    SameText(host.cfg.width, masks[k], host.cfg.cbmMask);
  }

  /** The text comparison in GetAvailableCacheSchemata finds exactly the classes that use the
      cache. */
  lemma TakenIsOccupied(host: Host, groups: map<string, Masks>, served: map<string, (PoolKind, Request)>, k: nat, i: nat)
    requires GoodHost(host) && Tidy(host, groups, served) && k in host.servesOs
    ensures TakenBy(host.cfg, groups, groups.Keys - Reserved(), k, i) <==>
      Occupied(host, GrantsOf(host.cfg, groups, served), k, i)
  {
    var grants := GrantsOf(host.cfg, groups, served);
    forall n | n in served
      ensures n in grants && (Takes(host.cfg, groups[n], k, i) <==> Uses(host, grants[n], k) && i in grants[n].masks[k])
    {
      TakesIsUses(host, groups[n], grants[n], k, i);
    }
  }

  /** What the OS and the infra group show counts for nothing, what any other group shows counts. */
  lemma OthersOccupy(cfg: Config, groups: map<string, Masks>, k: nat, i: nat)
    ensures TakenBy(cfg, groups, groups.Keys - Reserved(), k, i) <==>
      exists g :: g in groups && g != "." && g != "COS1" && k in groups[g] && groups[g][k] != cfg.cbmMask && i in MaskView(cfg.width, groups[g][k])
  {
    if g :| g in groups && g != "." && g != "COS1" && k in groups[g] && groups[g][k] != cfg.cbmMask && i in MaskView(cfg.width, groups[g][k]) {
      assert Takes(cfg, groups[g], k, i) && g in groups.Keys - Reserved();
    }
    if TakenBy(cfg, groups, groups.Keys - Reserved(), k, i) {
      var g :| g in groups.Keys - Reserved() && g in groups && Takes(cfg, groups[g], k, i);
    }
  }

  // ----- what the OS may use -----

  lemma LowMask(width: nat, n: nat)
    requires 1 <= width <= 32 && n <= width
    ensures var mask := Format(Ones(n), 16);
      && GoodMask(width, mask) && MaskView(width, mask) == Interval(0, n)
      && HexText.Decode(width, mask).value.len == width
  {
    ShiftedMask(width, n, 0);
    assert Shl(Ones(n), 0) == Ones(n);
  }

  /** The loop body of SetOSGroup: the first run of the free ways together with the reserved
      ones, as a mask of that many low ways. */
  method OsMaskOn(cfg: Config, v: Bitmap) returns (mask: string, ghost n: nat)
    requires 1 <= cfg.osWays <= cfg.width <= 32 && v.Valid() && v.len == cfg.width
    ensures GoodMask(cfg.width, mask) && MaskView(cfg.width, mask) == Interval(0, n)
    ensures cfg.osWays <= n <= cfg.width
    ensures forall i: nat :: cfg.osWays <= i < n ==> i in v.View()
    ensures n == cfg.width || n !in v.View()
  {
    var availableWays := WithReserved(cfg, v);
    var expectWays := FirstRun(availableWays);
    n := expectWays;
    ghost var reserved := Interval(0, cfg.osWays);
    assert 0 in reserved && n !in reserved;
    forall i: nat | cfg.osWays <= i < n ensures i in v.View() {
      assert i in availableWays.View() && i !in reserved;
    }
    LowMask(cfg.width, n);
    mask := Format(Ones(expectWays), 16);
  }

  method WithReserved(cfg: Config, v: Bitmap) returns (r: Bitmap)
    requires 1 <= cfg.osWays <= cfg.width <= 32 && v.Valid() && v.len == cfg.width
    ensures r.Valid() && r.len == cfg.width && r.View() == v.View() + Interval(0, cfg.osWays)
  {
    LowMask(cfg.width, cfg.osWays);
    var request := HexText.FromHex(cfg.width, Format(Ones(cfg.osWays), 16));
    r := v.Or(request.value);
  }

  /** The length of the lowest run, `len(ToBinStrings()[0])`. */
  method FirstRun(b: Bitmap) returns (n: nat)
    requires b.Valid() && b.len >= 1
    ensures n <= b.len
    ensures 0 in b.View() ==> (forall i: nat :: i < n ==> i in b.View()) && n !in b.View()
  {
    var runs := ToBinStrings(b);
    n := |runs[0]|;
    OffsetMonotone(runs, 1, |runs|);
    ghost var s := b.View();
    if 0 in s {
      assert RunMeans(runs, 0, s) && Uniform(runs[0]);
      AfterOnes(runs, s, b.len, 0);
    }
  }

  // ----- enforceCache and SetOSGroup over all caches -----

  ghost predicate GoodPools(host: Host, pools: map<PoolKind, map<nat, Bitmap>>) {
    && (forall kind :: kind in pools <==> host.cfg.Size(kind) > 0)
    && forall kind :: kind in pools ==> GoodPool(host, kind, pools[kind])
  }

  ghost predicate GoodPool(host: Host, kind: PoolKind, pool: map<nat, Bitmap>) {
    && pool.Keys == host.servesOs.Keys
    && forall k :: k in pool ==>
         pool[k].Valid() && pool[k].len == host.cfg.width && pool[k].View() == host.Window(kind, k)
  }

  /** The pools GetCachePoolLayout lays out are the windows the allocator works with. */
  lemma LayoutIsGood(host: Host, osCpus: Bitmap, caches: map<nat, Bitmap>, pools: map<PoolKind, map<nat, Bitmap>>)
    requires LaidOut(host.cfg, osCpus, caches, {Guarantee, Besteffort, Shared}, pools)
    requires host.servesOs.Keys == caches.Keys
    requires forall k :: k in caches ==> host.servesOs[k] == ServesOs(osCpus, caches[k])
    ensures GoodPools(host, pools)
  {
    forall kind | kind in pools ensures GoodPool(host, kind, pools[kind]) {
      OnePoolIsGood(host, kind, osCpus, caches, pools[kind]);
    }
  }

  lemma OnePoolIsGood(host: Host, kind: PoolKind, osCpus: Bitmap, caches: map<nat, Bitmap>, pool: map<nat, Bitmap>)
    requires PoolOk(host.cfg, kind, osCpus, caches, pool) && host.servesOs.Keys == caches.Keys
    requires forall k :: k in caches ==> host.servesOs[k] == ServesOs(osCpus, caches[k])
    ensures GoodPool(host, kind, pool)
  {
  }

  ghost predicate OnEveryCache(host: Host, ways: map<nat, Bitmap>) {
    && ways.Keys == host.servesOs.Keys
    && forall k :: k in ways ==> ways[k].Valid() && ways[k].len == host.cfg.width
  }

  /** What GetAvailableCacheSchemata leaves is what the classes in use leave free. */
  method FreeWays(host: Host, numClosids: nat, groups: map<string, Masks>,
                  ghost served: map<string, (PoolKind, Request)>, pool: map<nat, Bitmap>)
      returns (av: Option<map<nat, Bitmap>>)
    requires GoodHost(host) && Tidy(host, groups, served) && OnEveryCache(host, pool)
    ensures av.None? <==> |groups| >= numClosids
    ensures av.Some? ==> OnEveryCache(host, av.value)
    ensures av.Some? ==> forall k :: k in pool ==>
      av.value[k].View() == Unoccupied(host, GrantsOf(host.cfg, groups, served), pool[k].View(), k)
  {
    av := GetAvailableCacheSchemata(host.cfg, numClosids, groups, Reserved(), pool);
    if av.Some? {
      forall k | k in pool
        ensures av.value[k].View() == Unoccupied(host, GrantsOf(host.cfg, groups, served), pool[k].View(), k)
      {
        LeftOverIsFree(host, groups, served, pool, av.value, k);
      }
    }
  }

  lemma LeftOverIsFree(host: Host, groups: map<string, Masks>, served: map<string, (PoolKind, Request)>,
                       pool: map<nat, Bitmap>, left: map<nat, Bitmap>, k: nat)
    requires GoodHost(host) && Tidy(host, groups, served) && k in host.servesOs
    requires k in pool && k in left && LeftOver(host.cfg, groups, groups.Keys - Reserved(), pool, left, k)
    ensures left[k].View() == Unoccupied(host, GrantsOf(host.cfg, groups, served), pool[k].View(), k)
  {
    forall i: nat
      ensures i in left[k].View() <==> i in pool[k].View() && !Occupied(host, GrantsOf(host.cfg, groups, served), k, i)
    {
      TakenIsOccupied(host, groups, served, k, i);
    }
  }

  /** enforceCache: a mask for every cache, or nothing; it gives up exactly when the platform has
      no class left, the pool is not configured, or some cache the workload runs on lacks the
      ways it insists on. */
  method EnforceCache(host: Host, numClosids: nat, pools: map<PoolKind, map<nat, Bitmap>>, groups: map<string, Masks>,
                      ghost served: map<string, (PoolKind, Request)>, req: Request, kind: PoolKind)
      returns (candidate: Option<map<nat, Bitmap>>)
    requires GoodHost(host) && GoodPools(host, pools) && Tidy(host, groups, served) && SelectedNames(groups) == {}
    requires req.maxWays < UINT32 && PoolName(req.maxWays, req.minWays) == Some(kind)
    ensures candidate.None? <==>
      || |groups| >= numClosids || kind !in pools
      || !Satisfiable(host, GrantsOf(host.cfg, groups, served), req, kind)
    ensures candidate.Some? ==> AllChosen(host, GrantsOf(host.cfg, groups, served), req, kind, candidate.value)
  {
    if kind !in pools {
      return None;
    }
    var pool := pools[kind];
    var av := FreeOfPool(host, numClosids, groups, served, kind, pool);
    if av.None? {
      return None;
    }
    ghost var grants := GrantsOf(host.cfg, groups, served);
    PoolIsReady(host, kind, pool);
    candidate := ChooseAll(host, groups, av.value, pool, req, kind, FreeMap(host, grants, kind), WindowMap(host, kind));
    ChoiceIsRight(host, grants, req, kind, candidate);
  }

  ghost function FreeMap(host: Host, grants: map<string, Grant>, kind: PoolKind): map<nat, set<nat>> {
    map k | k in host.servesOs :: Free(host, grants, kind, k)
  }

  ghost function WindowMap(host: Host, kind: PoolKind): map<nat, set<nat>> {
    map k | k in host.servesOs :: host.Window(kind, k)
  }

  method FreeOfPool(host: Host, numClosids: nat, groups: map<string, Masks>,
                    ghost served: map<string, (PoolKind, Request)>, kind: PoolKind, pool: map<nat, Bitmap>)
      returns (av: Option<map<nat, Bitmap>>)
    requires GoodHost(host) && Tidy(host, groups, served) && GoodPool(host, kind, pool)
    ensures av.None? <==> |groups| >= numClosids
    ensures av.Some? ==> Holds(host, av.value, FreeMap(host, GrantsOf(host.cfg, groups, served), kind))
  {
    av := FreeWays(host, numClosids, groups, served, pool);
  }

  lemma ChoiceIsRight(host: Host, grants: map<string, Grant>, req: Request, kind: PoolKind, candidate: Option<map<nat, Bitmap>>)
    requires candidate.None? ==>
      exists k :: k in host.servesOs && Refused(host.shrink, FreeMap(host, grants, kind)[k], WindowMap(host, kind)[k], req, kind, k)
    requires candidate.Some? ==> candidate.value.Keys == host.servesOs.Keys
    requires candidate.Some? ==> AllSettled(host, FreeMap(host, grants, kind), WindowMap(host, kind), req, kind, candidate.value)
    ensures candidate.None? <==> !Satisfiable(host, grants, req, kind)
    ensures candidate.Some? ==> AllChosen(host, grants, req, kind, candidate.value)
  {
    var free, window := FreeMap(host, grants, kind), WindowMap(host, kind);
    if candidate.Some? {
      forall k | k in host.servesOs
        ensures Settled(host, Free(host, grants, kind, k), host.Window(kind, k), req, kind, k, candidate.value[k])
      {
        assert k in free && free[k] == Free(host, grants, kind, k) && window[k] == host.Window(kind, k);
      }
    }
  }

  /** Each bitmap holds the ways `ways` says. */
  ghost predicate Holds(host: Host, bitmaps: map<nat, Bitmap>, ways: map<nat, set<nat>>) {
    bitmaps.Keys == ways.Keys && forall k :: k in ways ==> HoldsOn(host, bitmaps[k], ways[k])
  }

  ghost predicate HoldsOn(host: Host, b: Bitmap, ways: set<nat>) {
    b.Valid() && b.len == host.cfg.width && b.View() == ways
  }

  lemma PoolIsReady(host: Host, kind: PoolKind, pool: map<nat, Bitmap>)
    requires GoodPool(host, kind, pool) && host.cfg.Size(kind) > 0
    ensures Holds(host, pool, WindowMap(host, kind))
    ensures forall k :: k in WindowMap(host, kind) ==> HasWays(WindowMap(host, kind)[k])
  {
    var window := WindowMap(host, kind);
    forall k | k in window ensures HoldsOn(host, pool[k], window[k]) && HasWays(window[k]) {
      WindowNotEmpty(host, kind, k);
    }
  }

  ghost predicate HasWays(ways: set<nat>) {
    ways != {}
  }

  method ChooseAll(host: Host, groups: map<string, Masks>, av: map<nat, Bitmap>, pool: map<nat, Bitmap>, req: Request, kind: PoolKind,
                   ghost free: map<nat, set<nat>>, ghost window: map<nat, set<nat>>)
      returns (candidate: Option<map<nat, Bitmap>>)
    requires GoodHost(host) && req.maxWays < UINT32 && PoolName(req.maxWays, req.minWays) == Some(kind)
    requires free.Keys == window.Keys && Holds(host, av, free) && Holds(host, pool, window)
    requires SelectedNames(groups) == {} && forall k :: k in window ==> HasWays(window[k])
    ensures candidate.None? ==> exists k :: k in free && Refused(host.shrink, free[k], window[k], req, kind, k)
    ensures candidate.Some? ==> candidate.value.Keys == free.Keys && AllSettled(host, free, window, req, kind, candidate.value)
  {
    var cand: map<nat, Bitmap> := map[];
    var todo := av.Keys;
    while todo != {}
      invariant todo <= free.Keys && cand.Keys == free.Keys - todo
      invariant AllSettled(host, free, window, req, kind, cand)
    {
      var k :| k in todo;
      todo := todo - {k};
      assert HoldsOn(host, av[k], free[k]) && HoldsOn(host, pool[k], window[k]);
      var c := SettleOn(host, groups, av[k], pool[k], req, kind, k, free[k], window[k]);
      if c.None? {
        return None;
      }
      AlsoSettled(host, free, window, req, kind, cand, k, c.value);
      cand := cand[k := c.value];
    }
    candidate := Some(cand);
  }

  ghost predicate AllSettled(host: Host, free: map<nat, set<nat>>, window: map<nat, set<nat>>, req: Request, kind: PoolKind,
                             cand: map<nat, Bitmap>) {
    forall k :: k in cand ==> k in free && k in window && Settled(host, free[k], window[k], req, kind, k, cand[k])
  }

  lemma AlsoSettled(host: Host, free: map<nat, set<nat>>, window: map<nat, set<nat>>, req: Request, kind: PoolKind,
                    cand: map<nat, Bitmap>, k: nat, c: Bitmap)
    requires AllSettled(host, free, window, req, kind, cand)
    requires k in free && k in window && Settled(host, free[k], window[k], req, kind, k, c)
    ensures AllSettled(host, free, window, req, kind, cand[k := c])
  {
  }

  method SettleOn(host: Host, groups: map<string, Masks>, v: Bitmap, pool: Bitmap, req: Request, kind: PoolKind, k: nat,
                  ghost free: set<nat>, ghost window: set<nat>)
      returns (c: Option<Bitmap>)
    requires GoodHost(host) && HoldsOn(host, v, free) && HoldsOn(host, pool, window) && HasWays(window)
    requires req.maxWays < UINT32 && PoolName(req.maxWays, req.minWays) == Some(kind)
    requires SelectedNames(groups) == {}
    ensures c.None? ==> Refused(host.shrink, free, window, req, kind, k)
    ensures c.Some? ==> Settled(host, free, window, req, kind, k, c.value)
  {
    c := CandidateOn(host, groups, v, pool, req, kind, k);
  }

  ghost predicate Settled(host: Host, free: set<nat>, window: set<nat>, req: Request, kind: PoolKind, k: nat, c: Bitmap) {
    && c.Valid() && c.len == host.cfg.width
    && !Refused(host.shrink, free, window, req, kind, k) && Chosen(host, free, window, req, kind, k, c.View())
  }

  /** On no cache that the workload runs on are there too few free ways. */
  ghost predicate Satisfiable(host: Host, grants: map<string, Grant>, req: Request, kind: PoolKind) {
    forall k :: k in host.servesOs ==> !Refused(host.shrink, Free(host, grants, kind, k), host.Window(kind, k), req, kind, k)
  }

  /** That is, in the numbers of the request: every cache it names (or every one, if it names none)
      has a free block of `max` ways when `max` and `min` are equal, and of `min` ways when `max`
      is larger, or else a pool that long to shrink. */
  lemma SatisfiableByNumbers(host: Host, grants: map<string, Grant>, req: Request, kind: PoolKind)
    requires PoolName(req.maxWays, req.minWays) == Some(kind)
    ensures Satisfiable(host, grants, req, kind) <==>
      forall k :: k in host.servesOs && (req.sockets == {} || k in req.sockets) && req.maxWays > 0 ==>
        || HasBlock(Free(host, grants, kind, k), if req.maxWays == req.minWays then req.maxWays else req.minWays)
        || (host.shrink && req.maxWays > req.minWays && HasBlock(host.Window(kind, k), req.minWays))
  {
    KindByNumbers(req.maxWays, req.minWays);
    forall k | k in host.servesOs
      ensures Refused(host.shrink, Free(host, grants, kind, k), host.Window(kind, k), req, kind, k) <==>
        && (req.sockets == {} || k in req.sockets) && req.maxWays > 0
        && !HasBlock(Free(host, grants, kind, k), if req.maxWays == req.minWays then req.maxWays else req.minWays)
        && !(host.shrink && req.maxWays > req.minWays && HasBlock(host.Window(kind, k), req.minWays))
    {
    }
  }

  ghost predicate HasBlock(ways: set<nat>, n: nat) {
    exists p: nat :: Fits(ways, p, n)
  }

  lemma WindowNotEmpty(host: Host, kind: PoolKind, k: nat)
    requires host.cfg.Size(kind) > 0
    ensures host.Window(kind, k) != {}
  {
    assert host.cfg.Start(kind, host.ServesOs(k)) in host.Window(kind, k);
  }

  ghost predicate AllChosen(host: Host, grants: map<string, Grant>, req: Request, kind: PoolKind, cand: map<nat, Bitmap>) {
    && OnEveryCache(host, cand)
    && forall k :: k in cand ==>
         Chosen(host, Free(host, grants, kind, k), host.Window(kind, k), req, kind, k, cand[k].View())
  }

  /** The OS mask of cache `k` as text: the ways below the first one in use. */
  ghost predicate OsMask(host: Host, grants: map<string, Grant>, k: nat, mask: string) {
    && GoodMask(host.cfg.width, mask)
    && exists n: nat :: OsLimit(host, grants, k, n) && MaskView(host.cfg.width, mask) == Interval(0, n)
  }

  /** The masks SetOSGroup writes, unless the platform is out of classes. */
  method OsMasks(host: Host, numClosids: nat, groups: map<string, Masks>, ghost served: map<string, (PoolKind, Request)>)
      returns (masks: Option<Masks>)
    requires GoodHost(host) && Tidy(host, groups, served)
    requires OS_GROUP in groups && groups[OS_GROUP].Keys == host.servesOs.Keys
    ensures masks.None? <==> |groups| >= numClosids
    ensures masks.Some? ==> AllOsMasks(host, GrantsOf(host.cfg, groups, served), masks.value)
  {
    var all := Everything(host);
    var schemata := FreeWays(host, numClosids, groups, served, all);
    if schemata.None? {
      return None;
    }
    var result := OsLoop(host, schemata.value, GrantsOf(host.cfg, groups, served));
    masks := Some(result);
  }

  ghost predicate AllOsMasks(host: Host, grants: map<string, Grant>, masks: Masks) {
    masks.Keys == host.servesOs.Keys && forall k :: k in masks ==> OsMask(host, grants, k, masks[k])
  }

  method OsLoop(host: Host, av: map<nat, Bitmap>, ghost grants: map<string, Grant>) returns (result: Masks)
    requires GoodHost(host) && OnEveryCache(host, av)
    requires forall k :: k in av ==> av[k].View() == Unoccupied(host, grants, host.cfg.Full(), k)
    ensures AllOsMasks(host, grants, result)
  {
    result := map[];
    var todo := av.Keys;
    while todo != {}
      invariant todo <= host.servesOs.Keys && result.Keys == host.servesOs.Keys - todo
      invariant forall k :: k in result ==> OsMask(host, grants, k, result[k])
    {
      var k :| k in todo;
      todo := todo - {k};
      var mask := OsMaskFor(host, av[k], k, grants);
      result := result[k := mask];
    }
  }

  method OsMaskFor(host: Host, v: Bitmap, k: nat, ghost grants: map<string, Grant>) returns (mask: string)
    requires GoodHost(host) && v.Valid() && v.len == host.cfg.width
    requires v.View() == Unoccupied(host, grants, host.cfg.Full(), k)
    ensures OsMask(host, grants, k, mask)
  {
    ghost var n;
    mask, n := OsMaskOn(host.cfg, v);
    forall i: nat | i < host.cfg.width ensures i in v.View() <==> !Occupied(host, grants, k, i) {
      assert i in host.cfg.Full();
    }
    assert OsLimit(host, grants, k, n);
  }

  /** The "none" pool: the full mask on every cache. */
  method Everything(host: Host) returns (all: map<nat, Bitmap>)
    requires GoodHost(host)
    ensures all.Keys == host.servesOs.Keys
    ensures forall k :: k in all ==> all[k].Valid() && all[k].len == host.cfg.width && all[k].View() == host.cfg.Full()
  {
    FullMask(host);
    var full := HexText.FromHex(host.cfg.width, host.cfg.cbmMask);
    all := map k | k in host.servesOs :: full.value;
  }
}
