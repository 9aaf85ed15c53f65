/** The cache pools (modules/cache/cachepool.go, modules/cache/rdtpool.go and the reserve of
    modules/cache/osgroup.go): which ways belong to which pool, and which are still free. */
module CachePools {
  import opened Words
  import opened WaySets
  import opened Bitmaps
  import opened Text
  import HexText

  datatype PoolKind = Guarantee | Besteffort | Shared

  /** GetCachePoolName. */
  function PoolName(maxWays: nat, minWays: nat): Option<PoolKind> {
    if maxWays == 0 then Some(Shared)
    else if maxWays > minWays && minWays != 0 then Some(Besteffort)
    else if maxWays == minWays then Some(Guarantee)
    else None
  }

  /** The kinds in the numbers of the request. There is none exactly when the minimum is above the
      maximum, or is 0 below a maximum that is not. */
  lemma KindByNumbers(maxWays: nat, minWays: nat)
    ensures PoolName(maxWays, minWays) == Some(Guarantee) <==> maxWays == minWays && maxWays > 0
    ensures PoolName(maxWays, minWays) == Some(Besteffort) <==> maxWays > minWays > 0
    ensures PoolName(maxWays, minWays) == Some(Shared) <==> maxWays == 0
    ensures PoolName(maxWays, minWays).None? <==> minWays > maxWays > 0 || minWays == 0 < maxWays
  {
  }

  /** The platform's mask width and full mask, and the configured number of ways per pool. */
  datatype Config = Config(width: nat, cbmMask: string,
                           osWays: nat, guarantee: nat, besteffort: nat, shared: nat) {

    /** The check GetCachePoolLayout makes. */
    predicate Accepted() {
      osWays + guarantee + besteffort + shared <= width
    }

    function Size(kind: PoolKind): nat {
      match kind
      case Guarantee => guarantee
      case Besteffort => besteffort
      case Shared => shared
    }

    /** The first way of a pool; the pools move up where the cache also serves OS CPUs. */
    function Start(kind: PoolKind, servesOs: bool): nat {
      (if servesOs then osWays else 0) +
      match kind
      case Guarantee => 0
      case Besteffort => guarantee
      case Shared => guarantee + besteffort
    }

    function Window(kind: PoolKind, servesOs: bool): set<nat> {
      Interval(Start(kind, servesOs), Start(kind, servesOs) + Size(kind))
    }

    function Full(): set<nat> {
      Interval(0, width)
    }
  }

  /** In an accepted layout the windows are disjoint from each other and from the ways of the OS,
      lie within the mask, and none of them is the full mask, which stands for "not used". */
  lemma LayoutIsDisjoint(cfg: Config, servesOs: bool, a: PoolKind, b: PoolKind)
    requires cfg.Accepted()
    ensures a != b ==> cfg.Window(a, servesOs) !! cfg.Window(b, servesOs)
    ensures cfg.Window(a, servesOs) <= cfg.Full()
    ensures servesOs ==> cfg.Window(a, servesOs) !! Interval(0, cfg.osWays)
    ensures cfg.osWays >= 1 ==> cfg.Window(a, servesOs) != cfg.Full()
    ensures cfg.Size(a) > 0 ==> Contiguous(cfg.Window(a, servesOs))
  {
    if cfg.osWays >= 1 {
      IntervalSize(0, cfg.width);
      IntervalSize(cfg.Start(a, servesOs), cfg.Start(a, servesOs) + cfg.Size(a));
    }
  }

  /** The pools lie side by side, the guaranteed ways lowest, the best-effort ways above them, the
      shared ones on top; they start at way 0, or above the ways of the OS. */
  lemma WindowsInOrder(cfg: Config, servesOs: bool)
    ensures var base := if servesOs then cfg.osWays else 0;
      forall i: nat ::
        && (i in cfg.Window(Guarantee, servesOs) <==> base <= i < base + cfg.guarantee)
        && (i in cfg.Window(Besteffort, servesOs) <==> base + cfg.guarantee <= i < base + cfg.guarantee + cfg.besteffort)
        && (i in cfg.Window(Shared, servesOs) <==>
              base + cfg.guarantee + cfg.besteffort <= i < base + cfg.guarantee + cfg.besteffort + cfg.shared)
    ensures Lower(cfg.Window(Guarantee, servesOs), cfg.Window(Besteffort, servesOs))
    ensures Lower(cfg.Window(Guarantee, servesOs), cfg.Window(Shared, servesOs))
    ensures Lower(cfg.Window(Besteffort, servesOs), cfg.Window(Shared, servesOs))
  {
  }

  ghost predicate Lower(a: set<nat>, b: set<nat>) {
    forall i, j :: i in a && j in b ==> i < j
  }

  // ----- masks as text -----

  ghost predicate GoodMask(width: nat, mask: string) {
    HexText.Decode(width, mask).Some? && HexText.Decode(width, mask).value.Valid()
  }

  /** The ways a mask text stands for. */
  ghost function MaskView(width: nat, mask: string): set<nat> {
    if GoodMask(width, mask) then HexText.Decode(width, mask).value.View() else {}
  }

  /** `((1<<size - 1) << at)`, printed and decoded, is the window at..at+size. */
  lemma ShiftedMask(width: nat, size: nat, at: nat)
    requires 1 <= width <= 32 && at + size <= width
    ensures var mask := Format(Shl(Ones(size), at), 16);
      GoodMask(width, mask) && MaskView(width, mask) == Interval(at, at + size)
  {
    var w := Shl(Ones(size), at);
    forall i: nat ensures BitAt(w, i) == (at <= i < at + size) {
      BlockBit(size, at, i);
    }
    BoundFromBits(w, 32);
    OneWordMask(width, w, at, size);
    HexText.PrintParses([w]);
    assert HexText.Decode(width, Format(w, 16)) == Some(Bitmap(width, [w]));
  }

  lemma OneWordMask(width: nat, w: nat, at: nat, size: nat)
    requires 1 <= width <= 32 && at + size <= width && w < Shl(1, 32)
    requires forall i: nat :: BitAt(w, i) == (at <= i < at + size)
    ensures Bitmap(width, [w]).Valid() && Bitmap(width, [w]).View() == Interval(at, at + size)
  {
    var b := Bitmap(width, [w]);
    forall i: nat ensures HasBit(b.words, i) == (at <= i < at + size) {
      if i < 32 {
        assert i / 32 == 0 && i % 32 == i;
      }
    }
    assert b.View() == Interval(at, at + size);
  }

  // ----- layout -----

  /** Cache `cpus` and the OS share a CPU. */
  ghost predicate ServesOs(osCpus: Bitmap, cpus: Bitmap) {
    osCpus.View() * cpus.View() != {}
  }

  ghost predicate GoodCaches(caches: map<nat, Bitmap>, osCpus: Bitmap) {
    osCpus.Valid() && forall k :: k in caches ==> caches[k].Valid()
  }

  /** The schemata of one pool: on every cache, the block of ones shifted into place. */
  method GetReservedCache(cfg: Config, size: nat, wayOffset: nat, osCpus: Bitmap, caches: map<nat, Bitmap>)
      returns (schemata: map<nat, Bitmap>)
    requires 1 <= cfg.width <= 32 && cfg.osWays + wayOffset + size <= cfg.width
    requires GoodCaches(caches, osCpus)
    ensures schemata.Keys == caches.Keys
    ensures forall k :: k in caches ==>
      var at := (if ServesOs(osCpus, caches[k]) then cfg.osWays else 0) + wayOffset;
      schemata[k].Valid() && schemata[k].len == cfg.width && schemata[k].View() == Interval(at, at + size)
  {
    schemata := map[];
    var todo := caches.Keys;
    while todo != {}
      invariant todo <= caches.Keys && schemata.Keys == caches.Keys - todo
      invariant forall k :: k in schemata ==>
        var at := (if ServesOs(osCpus, caches[k]) then cfg.osWays else 0) + wayOffset;
        schemata[k].Valid() && schemata[k].len == cfg.width && schemata[k].View() == Interval(at, at + size)
    {
      var id :| id in todo;
      todo := todo - {id};
      var bm := ReservedOn(cfg, size, wayOffset, osCpus, caches[id]);
      schemata := schemata[id := bm];
    }
  }

  method ReservedOn(cfg: Config, size: nat, wayOffset: nat, osCpus: Bitmap, cpus: Bitmap) returns (bm: Bitmap)
    requires 1 <= cfg.width <= 32 && cfg.osWays + wayOffset + size <= cfg.width
    requires osCpus.Valid() && cpus.Valid()
    ensures bm.Valid() && bm.len == cfg.width
    ensures var at := (if ServesOs(osCpus, cpus) then cfg.osWays else 0) + wayOffset;
      bm.View() == Interval(at, at + size)
  {
    var wc := Ones(size);
    var shared := osCpus.And(cpus);
    var empty := shared.IsEmpty();
    ghost var at := (if empty then 0 else cfg.osWays) + wayOffset;
    if !empty {
      wc := Shl(wc, cfg.osWays);
      ShlAdd(Ones(size), cfg.osWays, wayOffset);
    }
    wc := Shl(wc, wayOffset);
    assert wc == Shl(Ones(size), at);
    ShiftedMask(cfg.width, size, at);
    var decoded := HexText.FromHex(cfg.width, Format(wc, 16));
    bm := decoded.value;
  }

  /** GetCachePoolLayout: refuses a configuration that does not fit, and otherwise gives every
      pool with ways its window on every cache. */
  method GetCachePoolLayout(cfg: Config, osCpus: Bitmap, caches: map<nat, Bitmap>)
      returns (pools: Option<map<PoolKind, map<nat, Bitmap>>>)
    requires 1 <= cfg.width <= 32 && GoodCaches(caches, osCpus)
    ensures pools.Some? <==> cfg.Accepted()
    ensures pools.Some? <==> cfg.osWays + cfg.guarantee + cfg.besteffort + cfg.shared <= cfg.width
    ensures pools.Some? ==> LaidOut(cfg, osCpus, caches, {Guarantee, Besteffort, Shared}, pools.value)
  {
    if cfg.osWays + cfg.guarantee + cfg.besteffort + cfg.shared > cfg.width {
      return None;
    }
    var reserved := AddPool(cfg, Guarantee, 0, osCpus, caches, {}, map[]);
    reserved := AddPool(cfg, Besteffort, cfg.guarantee, osCpus, caches, {Guarantee}, reserved);
    reserved := AddPool(cfg, Shared, cfg.guarantee + cfg.besteffort, osCpus, caches, {Guarantee, Besteffort}, reserved);
    pools := Some(reserved);
  }

  /** The pools of the given kinds are laid out. */
  ghost predicate LaidOut(cfg: Config, osCpus: Bitmap, caches: map<nat, Bitmap>, kinds: set<PoolKind>,
                          pools: map<PoolKind, map<nat, Bitmap>>) {
    && (forall kind :: kind in pools <==> kind in kinds && cfg.Size(kind) > 0)
    && forall kind :: kind in pools ==> PoolOk(cfg, kind, osCpus, caches, pools[kind])
  }

  method AddPool(cfg: Config, kind: PoolKind, wayOffset: nat, osCpus: Bitmap, caches: map<nat, Bitmap>,
                 ghost kinds: set<PoolKind>, before: map<PoolKind, map<nat, Bitmap>>)
      returns (after: map<PoolKind, map<nat, Bitmap>>)
    requires 1 <= cfg.width <= 32 && cfg.Accepted() && GoodCaches(caches, osCpus)
    requires wayOffset == cfg.Start(kind, false) && kind !in kinds && LaidOut(cfg, osCpus, caches, kinds, before)
    ensures LaidOut(cfg, osCpus, caches, kinds + {kind}, after)
  {
    after := before;
    if cfg.Size(kind) > 0 {
      var r := GetReservedCache(cfg, cfg.Size(kind), wayOffset, osCpus, caches);
      assert PoolOk(cfg, kind, osCpus, caches, r);
      after := before[kind := r];
    }
  }

  ghost predicate PoolOk(cfg: Config, kind: PoolKind, osCpus: Bitmap, caches: map<nat, Bitmap>, pool: map<nat, Bitmap>) {
    && pool.Keys == caches.Keys
    && forall k :: k in caches ==>
         && pool[k].Valid() && pool[k].len == cfg.width
         && pool[k].View() == cfg.Window(kind, ServesOs(osCpus, caches[k]))
  }

  /** GetOSGroupReserve: the lowest ways on the caches that serve OS CPUs, nothing elsewhere. */
  method GetOSGroupReserve(cfg: Config, osCpus: Bitmap, caches: map<nat, Bitmap>)
      returns (schemata: Option<map<nat, Bitmap>>)
    requires 1 <= cfg.width <= 32 && GoodCaches(caches, osCpus)
    ensures schemata.Some? <==> cfg.osWays <= cfg.width
    ensures schemata.Some? ==> schemata.value.Keys == caches.Keys && forall k :: k in caches ==>
      && schemata.value[k].Valid() && schemata.value[k].len == cfg.width
      && schemata.value[k].View() == if ServesOs(osCpus, caches[k]) then Interval(0, cfg.osWays) else {}
  {
    if cfg.osWays > cfg.width {
      return None;
    }
    var result: map<nat, Bitmap> := map[];
    var todo := caches.Keys;
    while todo != {}
      invariant todo <= caches.Keys && result.Keys == caches.Keys - todo
      invariant forall k :: k in result ==>
        && result[k].Valid() && result[k].len == cfg.width
        && result[k].View() == if ServesOs(osCpus, caches[k]) then Interval(0, cfg.osWays) else {}
    {
      var id :| id in todo;
      todo := todo - {id};
      var reserve := ReserveOn(cfg, osCpus, caches[id]);
      result := result[id := reserve];
    }
    schemata := Some(result);
  }

  method ReserveOn(cfg: Config, osCpus: Bitmap, cpus: Bitmap) returns (r: Bitmap)
    requires 1 <= cfg.width <= 32 && cfg.osWays <= cfg.width && osCpus.Valid() && cpus.Valid()
    ensures r.Valid() && r.len == cfg.width
    ensures r.View() == if ServesOs(osCpus, cpus) then Interval(0, cfg.osWays) else {}
  {
    var shared := osCpus.And(cpus);
    var empty := shared.IsEmpty();
    var ways := if empty then 0 else cfg.osWays;
    ShiftedMask(cfg.width, ways, 0);
    assert Ones(0) == 0;
    var decoded := HexText.FromHex(cfg.width, if empty then "0" else Format(Ones(ways), 16));
    r := decoded.value;
  }

  // ----- what is still free -----

  /** The masks of one resource group, by cache id. */
  type Masks = map<nat, string>

  ghost predicate GoodGroups(cfg: Config, allres: map<string, Masks>, ids: set<nat>) {
    forall g :: g in allres ==> GoodMasks(cfg, allres[g], ids)
  }

  ghost predicate GoodMasks(cfg: Config, masks: Masks, ids: set<nat>) {
    masks.Keys <= ids && forall k :: k in masks ==> GoodMask(cfg.width, masks[k])
  }

  /** The group occupies way `i` of cache `k`; the full mask means it does not use the cache. */
  ghost predicate Takes(cfg: Config, masks: Masks, k: nat, i: nat) {
    k in masks && masks[k] != cfg.cbmMask && i in MaskView(cfg.width, masks[k])
  }

  ghost predicate TakenBy(cfg: Config, allres: map<string, Masks>, names: set<string>, k: nat, i: nat) {
    exists g :: g in names && g in allres && Takes(cfg, allres[g], k, i)
  }

  /** What is left of a pool, whatever order the groups and their entries are visited in: its
      ways minus every way that a group not ignored occupies. */
  method GetAvailableCacheSchemata(cfg: Config, numClosids: nat, allres: map<string, Masks>,
                                   ignoreGroups: set<string>, pool: map<nat, Bitmap>)
      returns (schemata: Option<map<nat, Bitmap>>)
    requires GoodGroups(cfg, allres, pool.Keys)
    requires forall k :: k in pool ==> pool[k].Valid() && pool[k].len == cfg.width
    ensures schemata.None? <==> |allres| >= numClosids
    ensures schemata.Some? ==> schemata.value.Keys == pool.Keys
    ensures schemata.Some? ==> forall k :: k in pool ==>
      LeftOver(cfg, allres, allres.Keys - ignoreGroups, pool, schemata.value, k)
  {
    if |allres| >= numClosids {
      return None;
    }
    var left := pool;
    var todo := allres.Keys;
    while todo != {}
      invariant todo <= allres.Keys && left.Keys == pool.Keys
      invariant forall k :: k in pool ==> LeftOver(cfg, allres, allres.Keys - todo - ignoreGroups, pool, left, k)
    {
      var g :| g in todo;
      ghost var done := allres.Keys - todo - ignoreGroups;
      todo := todo - {g};
      if g !in ignoreGroups {
        ghost var before := left;
        left := SubtractGroup(cfg, allres[g], left);
        assert allres.Keys - todo - ignoreGroups == done + {g};
        forall k | k in pool ensures LeftOver(cfg, allres, done + {g}, pool, left, k) {
          OneGroupMore(cfg, allres, done, g, pool, before, left, k);
        }
      } else {
        assert allres.Keys - todo - ignoreGroups == done;
      }
    }
    assert allres.Keys - {} - ignoreGroups == allres.Keys - ignoreGroups;
    schemata := Some(left);
  }

  /** On cache `k`, `left` is `pool` without what the groups in `names` occupy. */
  ghost predicate LeftOver(cfg: Config, allres: map<string, Masks>, names: set<string>,
                           pool: map<nat, Bitmap>, left: map<nat, Bitmap>, k: nat)
    requires k in pool && k in left
  {
    && left[k].Valid() && left[k].len == cfg.width
    && forall i: nat :: i in left[k].View() <==> i in pool[k].View() && !TakenBy(cfg, allres, names, k, i)
  }

  lemma OneGroupMore(cfg: Config, allres: map<string, Masks>, names: set<string>, g: string,
                     pool: map<nat, Bitmap>, before: map<nat, Bitmap>, left: map<nat, Bitmap>, k: nat)
    requires k in pool && k in before && k in left && g in allres
    requires LeftOver(cfg, allres, names, pool, before, k)
    requires left[k].Valid() && left[k].len == cfg.width
    requires forall i: nat :: i in left[k].View() <==> i in before[k].View() && !Takes(cfg, allres[g], k, i)
    ensures LeftOver(cfg, allres, names + {g}, pool, left, k)
  {
    forall i: nat
      ensures TakenBy(cfg, allres, names + {g}, k, i) <==>
        TakenBy(cfg, allres, names, k, i) || Takes(cfg, allres[g], k, i)
    {
    }
  }

  method SubtractGroup(cfg: Config, masks: Masks, schemata: map<nat, Bitmap>) returns (left: map<nat, Bitmap>)
    requires GoodMasks(cfg, masks, schemata.Keys)
    requires forall k :: k in schemata ==> schemata[k].Valid() && schemata[k].len == cfg.width
    ensures left.Keys == schemata.Keys
    ensures forall k :: k in left ==> left[k].Valid() && left[k].len == cfg.width
    ensures forall k, i: nat :: k in left ==>
      (i in left[k].View() <==> i in schemata[k].View() && !Takes(cfg, masks, k, i))
  {
    left := schemata;
    var todo := masks.Keys;
    while todo != {}
      invariant todo <= masks.Keys && left.Keys == schemata.Keys
      invariant forall k :: k in left ==> left[k].Valid() && left[k].len == cfg.width
      invariant forall k :: k in todo ==> left[k] == schemata[k]
      invariant forall k, i: nat :: k in left && k !in todo ==>
        (i in left[k].View() <==> i in schemata[k].View() && !Takes(cfg, masks, k, i))
    {
      var k :| k in todo;
      todo := todo - {k};
      if masks[k] != cfg.cbmMask {
        var bm := HexText.FromHex(cfg.width, masks[k]);
        var rest := left[k].Axor(bm.value);
        left := left[k := rest];
      }
    }
  }
}
