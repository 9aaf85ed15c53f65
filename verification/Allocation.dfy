/** The allocator as a transition system over sets of ways: what Enforce and Release
    (modules/workload/workload.go) do to the classes of service, and what every run keeps.

    The methods of module Enforcement are proved to take exactly these steps.
  */
module Allocation {
  import opened WaySets
  import opened CachePools
  import opened Text

  /** The configuration, for every cache id whether that cache serves OS CPUs, and whether
      best-effort workloads may be shrunk. */
  datatype Host = Host(cfg: Config, servesOs: map<nat, bool>, shrink: bool) {
    ghost predicate Valid() {
      cfg.Accepted() && cfg.osWays >= 1 && cfg.width <= 32
    }

    predicate ServesOs(k: nat) {
      k in servesOs && servesOs[k]
    }

    function Window(kind: PoolKind, k: nat): set<nat> {
      cfg.Window(kind, ServesOs(k))
    }
  }

  /** A workload's request; no sockets means all of them (inCacheList). */
  datatype Request = Request(maxWays: nat, minWays: nat, sockets: set<nat>) {
    predicate Wants(k: nat) {
      sockets == {} || k in sockets
    }
  }

  /** populateEnforceRequest: a minimum above the maximum is refused before the pool is looked up. */
  function KindOf(req: Request): Option<PoolKind> {
    if req.minWays > req.maxWays then None else PoolName(req.maxWays, req.minWays)
  }

  /** Which pool a request goes to, in its numbers. */
  lemma KindOfByNumbers(req: Request)
    ensures KindOf(req) == Some(Guarantee) <==> req.maxWays == req.minWays > 0
    ensures KindOf(req) == Some(Besteffort) <==> req.maxWays > req.minWays > 0
    ensures KindOf(req) == Some(Shared) <==> req.maxWays == req.minWays == 0
    ensures KindOf(req).None? <==> req.minWays > req.maxWays || req.minWays == 0 < req.maxWays
  {
    KindByNumbers(req.maxWays, req.minWays);
  }

  /** What a class of service holds: its ways on every cache, and the request that got them. */
  datatype Grant = Grant(kind: PoolKind, req: Request, masks: map<nat, set<nat>>)

  /** The classes in use, by name, and the one the shared workloads live in. */
  datatype State = State(grants: map<string, Grant>, shared: Option<string>)

  const EMPTY := State(map[], None)

  /** A mask that is really used; the full mask marks a cache the workload does not run on. */
  predicate Uses(host: Host, g: Grant, k: nat) {
    k in g.masks && g.masks[k] != host.cfg.Full()
  }

  ghost predicate Occupied(host: Host, grants: map<string, Grant>, k: nat, i: nat) {
    exists name :: name in grants && Uses(host, grants[name], k) && i in grants[name].masks[k]
  }

  ghost function Unoccupied(host: Host, grants: map<string, Grant>, ways: set<nat>, k: nat): set<nat> {
    set i | i in ways && !Occupied(host, grants, k, i)
  }

  /** The ways of a pool that no class uses. */
  ghost function Free(host: Host, grants: map<string, Grant>, kind: PoolKind, k: nat): set<nat> {
    Unoccupied(host, grants, host.Window(kind, k), k)
  }

  // ----- steps -----

  /** The highest block as long as the longest one there is, capped at `max`, at least `min`. */
  ghost predicate TakesLongest(free: set<nat>, max: nat, min: nat, width: nat, mask: set<nat>) {
    exists longest: nat ::
      && LongestBlock(free, longest) && longest >= min
      && TakesHighest(free, if longest > max then max else longest, width, mask)
  }

  ghost predicate NoBlock(free: set<nat>, n: nat) {
    forall p: nat :: !Fits(free, p, n)
  }

  /** Best effort: the longest free block. When not even `min` ways are free in one block and
      shrinking is configured, the lowest `min` ways of the whole pool: shrinkBEPool leaves out the
      minima of the groups it selects, but no class has a name that it selects (module Shrink,
      ClassNotSelected). */
  ghost predicate TakesBestEffort(shrink: bool, free: set<nat>, window: set<nat>, max: nat, min: nat, width: nat, mask: set<nat>) {
    || TakesLongest(free, max, min, width, mask)
    || (shrink && NoBlock(free, min) && TakesLowest(window, min, 0, mask))
  }

  /** What enforceCache chooses on cache `k`. */
  ghost predicate Chosen(host: Host, free: set<nat>, window: set<nat>, req: Request, kind: PoolKind, k: nat, mask: set<nat>) {
    if kind != Shared && !req.Wants(k) then mask == host.cfg.Full()
    else
      && mask != {}
      && match kind
         case Guarantee => TakesHighest(free, req.maxWays, host.cfg.width, mask)
         case Besteffort => TakesBestEffort(host.shrink, free, window, req.maxWays, req.minWays, host.cfg.width, mask)
         case Shared => mask == window
  }

  ghost predicate NewGrant(host: Host, st: State, g: Grant) {
    && KindOf(g.req) == Some(g.kind)
    && g.masks.Keys == host.servesOs.Keys
    && forall k :: k in g.masks ==>
         Chosen(host, Free(host, st.grants, g.kind, k), host.Window(g.kind, k), g.req, g.kind, k, g.masks[k])
  }

  ghost predicate EnforceStep(host: Host, st: State, name: string, g: Grant, next: State) {
    && name !in st.grants
    && NewGrant(host, st, g)
    && (g.kind.Shared? ==> st.shared.None?)
    && next == State(st.grants[name := g], if g.kind.Shared? then Some(name) else st.shared)
  }

  ghost predicate ReleaseStep(st: State, name: string, next: State) {
    && name in st.grants
    && next == State(st.grants - {name}, if st.shared == Some(name) then None else st.shared)
  }

  /** A class is taken, given back, or (another shared workload, a refused request) nothing
      changes. */
  ghost predicate Step(host: Host, st: State, next: State) {
    || next == st
    || (exists name: string, g: Grant :: EnforceStep(host, st, name, g, next))
    || (exists name: string :: ReleaseStep(st, name, next))
  }

  ghost predicate IsRun(host: Host, run: seq<State>) {
    && |run| >= 1 && run[0] == EMPTY
    && forall t :: 0 < t < |run| ==> Step(host, run[t - 1], run[t])
  }

  // ----- what every run keeps -----

  /** The number of ways the request is owed. */
  ghost predicate RightSize(g: Grant, mask: set<nat>) {
    match g.kind
    case Guarantee => |mask| == g.req.maxWays
    case Besteffort => g.req.minWays <= |mask| <= g.req.maxWays
    case Shared => true
  }

  /** The class draws from the pool that the numbers of its request call for. */
  ghost predicate RightKind(req: Request, kind: PoolKind) {
    && (kind.Guarantee? <==> req.maxWays == req.minWays > 0)
    && (kind.Besteffort? <==> req.maxWays > req.minWays > 0)
    && (kind.Shared? <==> req.maxWays == req.minWays == 0)
  }

  /** On cache `k` the class holds one block of its own pool if it wants the cache (a shared one
      wants all, and so does one that names no socket), and the full mask otherwise. */
  ghost predicate MaskOk(host: Host, g: Grant, k: nat) {
    && (Uses(host, g, k) <==> g.kind.Shared? || g.req.sockets == {} || k in g.req.sockets)
    && (Uses(host, g, k) ==>
          Contiguous(g.masks[k]) && g.masks[k] <= host.Window(g.kind, k) && RightSize(g, g.masks[k]))
  }

  ghost predicate GrantOk(host: Host, g: Grant) {
    RightKind(g.req, g.kind) && g.masks.Keys == host.servesOs.Keys && forall k :: k in g.masks ==> MaskOk(host, g, k)
  }

  ghost predicate DisjointOn(host: Host, a: Grant, b: Grant, k: nat) {
    Uses(host, a, k) && Uses(host, b, k) ==> a.masks[k] !! b.masks[k]
  }

  ghost predicate AllDisjoint(host: Host, grants: map<string, Grant>) {
    forall m, n, k :: m in grants && n in grants && m != n ==> DisjointOn(host, grants[m], grants[n], k)
  }

  /** Every class holds what it is owed, where it is owed it. */
  ghost predicate Right(host: Host, st: State) {
    && (forall n :: n in st.grants ==> GrantOk(host, st.grants[n]))
    && forall n :: n in st.grants && st.grants[n].kind.Shared? ==> st.shared == Some(n)
  }

  /** Cache ways are dedicated: beside that, different classes never share a way. */
  ghost predicate Exclusive(host: Host, st: State) {
    Right(host, st) && AllDisjoint(host, st.grants)
  }

  /** The class gets its ways on cache `k` although no block of its minimum is free there. */
  ghost predicate SqueezedOn(host: Host, st: State, g: Grant, k: nat) {
    k in g.masks && g.kind.Besteffort? && g.req.Wants(k) && NoBlock(Free(host, st.grants, g.kind, k), g.req.minWays)
  }

  ghost predicate Squeezed(host: Host, st: State, g: Grant) {
    exists k :: SqueezedOn(host, st, g, k)
  }

  /** The step is a best-effort workload that gets in by shrinking. */
  ghost predicate Squeezes(host: Host, st: State, next: State) {
    exists name: string, g: Grant :: EnforceStep(host, st, name, g, next) && Squeezed(host, st, g)
  }

  /** What is chosen on a cache is a block of the pool where the cache is wanted, and so never
      the full mask there; it is free unless the workload was squeezed in. */
  lemma ChosenIsRight(host: Host, free: set<nat>, g: Grant, k: nat)
    requires host.Valid() && k in g.masks
    requires PoolName(g.req.maxWays, g.req.minWays) == Some(g.kind)
    requires free <= host.Window(g.kind, k)
    requires Chosen(host, free, host.Window(g.kind, k), g.req, g.kind, k, g.masks[k])
    ensures MaskOk(host, g, k)
    ensures Uses(host, g, k) && !g.kind.Shared? && !(g.kind.Besteffort? && NoBlock(free, g.req.minWays)) ==> g.masks[k] <= free
  {
    if g.kind.Shared? || g.req.Wants(k) {
      WantedIsBlock(host, free, g, k);
      LayoutIsDisjoint(host.cfg, host.ServesOs(k), g.kind, g.kind);
    }
  }

  lemma WantedIsBlock(host: Host, free: set<nat>, g: Grant, k: nat)
    requires host.Valid() && k in g.masks && (g.kind.Shared? || g.req.Wants(k))
    requires PoolName(g.req.maxWays, g.req.minWays) == Some(g.kind)
    requires free <= host.Window(g.kind, k)
    requires Chosen(host, free, host.Window(g.kind, k), g.req, g.kind, k, g.masks[k])
    ensures Contiguous(g.masks[k]) && g.masks[k] <= host.Window(g.kind, k) && RightSize(g, g.masks[k])
    ensures !g.kind.Shared? && !(g.kind.Besteffort? && NoBlock(free, g.req.minWays)) ==> g.masks[k] <= free
  {
    var mask := g.masks[k];
    match g.kind {
      case Guarantee =>
        TakenHighest(free, g.req.maxWays, host.cfg.width, mask);
      case Besteffort =>
        BestEffortIsBlock(host.shrink, free, host.Window(g.kind, k), g.req.maxWays, g.req.minWays, host.cfg.width, mask);
      case Shared =>
        var lo := host.cfg.Start(Shared, host.ServesOs(k));
        assert mask == Interval(lo, lo + host.cfg.shared);
        assert lo < lo + host.cfg.shared;
    }
  }

  /** Block `p` of `n` ways is free, and no free block of that size lies higher. */
  ghost predicate HighestBlock(free: set<nat>, n: nat, mask: set<nat>) {
    exists p: nat :: Fits(free, p, n) && mask == Interval(p, p + n) && forall q: nat :: Fits(free, q, n) ==> q <= p
  }

  /** What a new class gets on a cache, in the numbers of its request: the highest free block of
      `max` ways when `max` and `min` are equal; when `max` is larger, the highest free block as
      long as the longest one, but at most `max`; the whole shared pool when both are 0; and the
      full mask on a cache it does not name. */
  lemma NewGrantByNumbers(host: Host, st: State, g: Grant, k: nat)
    requires host.Valid() && NewGrant(host, st, g) && k in g.masks
    ensures var free, max, min := Free(host, st.grants, g.kind, k), g.req.maxWays, g.req.minWays;
      && (max > 0 && g.req.sockets != {} && k !in g.req.sockets ==> g.masks[k] == Interval(0, host.cfg.width))
      && (max > 0 && (g.req.sockets == {} || k in g.req.sockets) && max == min ==> HighestBlock(free, max, g.masks[k]))
      && (max > 0 && (g.req.sockets == {} || k in g.req.sockets) && max > min && !SqueezedOn(host, st, g, k) ==>
            exists longest: nat :: LongestBlock(free, longest) && longest >= min &&
              HighestBlock(free, if longest > max then max else longest, g.masks[k]))
      && (max == 0 ==> g.masks[k] == host.Window(Shared, k))
  {
    KindByNumbers(g.req.maxWays, g.req.minWays);
    var free, mask := Free(host, st.grants, g.kind, k), g.masks[k];
    FreeInWidth(host, st.grants, g.kind, k);
    if g.req.Wants(k) && g.kind.Guarantee? {
      HighestIsHighest(free, g.req.maxWays, host.cfg.width, mask);
    } else if g.req.Wants(k) && g.kind.Besteffort? && !SqueezedOn(host, st, g, k) {
      assert TakesLongest(free, g.req.maxWays, g.req.minWays, host.cfg.width, mask);
      var longest: nat :| LongestBlock(free, longest) && longest >= g.req.minWays &&
        TakesHighest(free, if longest > g.req.maxWays then g.req.maxWays else longest, host.cfg.width, mask);
      HighestIsHighest(free, if longest > g.req.maxWays then g.req.maxWays else longest, host.cfg.width, mask);
    }
  }

  lemma FreeInWidth(host: Host, grants: map<string, Grant>, kind: PoolKind, k: nat)
    requires host.Valid()
    ensures forall i :: i in Free(host, grants, kind, k) ==> i < host.cfg.width
  {
    LayoutIsDisjoint(host.cfg, host.ServesOs(k), kind, kind);
  }

  lemma HighestIsHighest(free: set<nat>, n: nat, width: nat, mask: set<nat>)
    requires TakesHighest(free, n, width, mask) && mask != {} && n >= 1 && forall i :: i in free ==> i < width
    ensures HighestBlock(free, n, mask)
  {
    var p: nat :| HighestFit(free, n, width, p) && mask == Interval(p, p + n);
    forall q: nat | Fits(free, q, n) ensures q <= p {
      assert q + n - 1 in Interval(q, q + n);
    }
  }

  lemma BestEffortIsBlock(shrink: bool, free: set<nat>, window: set<nat>, max: nat, min: nat, width: nat, mask: set<nat>)
    requires TakesBestEffort(shrink, free, window, max, min, width, mask) && mask != {} && min <= max && free <= window
    ensures Contiguous(mask) && mask <= window && min <= |mask| <= max
    ensures !NoBlock(free, min) ==> mask <= free
  {
    if TakesLongest(free, max, min, width, mask) {
      LongestIsBlock(free, max, min, width, mask);
    } else {
      TakenLowest(window, min, 0, mask);
    }
  }

  lemma LongestIsBlock(free: set<nat>, max: nat, min: nat, width: nat, mask: set<nat>)
    requires TakesLongest(free, max, min, width, mask) && mask != {} && min <= max
    ensures Contiguous(mask) && mask <= free && min <= |mask| <= max
  {
    var longest: nat :| LongestBlock(free, longest) && longest >= min &&
      TakesHighest(free, if longest > max then max else longest, width, mask);
    TakenHighest(free, if longest > max then max else longest, width, mask);
  }

  lemma FreshGrantIsDisjoint(host: Host, st: State, g: Grant, n: string, k: nat)
    requires host.Valid() && Right(host, st) && NewGrant(host, st, g) && !SqueezedOn(host, st, g, k)
    requires (g.kind.Shared? ==> st.shared.None?) && n in st.grants
    ensures DisjointOn(host, g, st.grants[n], k)
  {
    var other := st.grants[n];
    if Uses(host, g, k) && Uses(host, other, k) {
      var free := Free(host, st.grants, g.kind, k);
      ChosenIsRight(host, free, g, k);
      assert MaskOk(host, other, k);
      if g.kind.Shared? {
        LayoutIsDisjoint(host.cfg, host.ServesOs(k), Shared, other.kind);
      } else {
        assert forall i :: i in free ==> !Occupied(host, st.grants, k, i);
      }
    }
  }

  lemma EnforceKeepsRight(host: Host, st: State, name: string, g: Grant, next: State)
    requires host.Valid() && Right(host, st) && EnforceStep(host, st, name, g, next)
    ensures Right(host, next)
  {
    forall k | k in g.masks ensures MaskOk(host, g, k) {
      ChosenIsRight(host, Free(host, st.grants, g.kind, k), g, k);
    }
    KindOfByNumbers(g.req);
    assert GrantOk(host, g);
  }

  /** A squeezed-in class shares a way with one that was there before. */
  lemma SqueezeOverlaps(host: Host, st: State, g: Grant, k: nat) returns (n: string)
    requires host.Valid() && NewGrant(host, st, g) && SqueezedOn(host, st, g, k)
    ensures n in st.grants && Uses(host, st.grants[n], k) && Uses(host, g, k)
    ensures !DisjointOn(host, st.grants[n], g, k)
  {
    var window, free, mask := host.Window(g.kind, k), Free(host, st.grants, g.kind, k), g.masks[k];
    ChosenIsRight(host, free, g, k);
    var i := NotAllFree(host, free, window, g.req, k, mask);
    assert i in window && Occupied(host, st.grants, k, i);
    n :| n in st.grants && Uses(host, st.grants[n], k) && i in st.grants[n].masks[k];
  }

  lemma NotAllFree(host: Host, free: set<nat>, window: set<nat>, req: Request, k: nat, mask: set<nat>) returns (i: nat)
    requires Chosen(host, free, window, req, Besteffort, k, mask) && req.Wants(k) && NoBlock(free, req.minWays)
    ensures i in mask && i in window && i !in free
  {
    if TakesLongest(free, req.maxWays, req.minWays, host.cfg.width, mask) {
      var longest: nat :| LongestBlock(free, longest) && longest >= req.minWays;
      ShorterFits(free, longest, req.minWays);
      assert false;
    }
    var p: nat :| LowestFit(window, req.minWays, 0, p) && mask == Interval(p, p + req.minWays);
    assert !Fits(free, p, req.minWays);
    i :| i in mask && i !in free;
  }

  lemma NextIsDisjoint(host: Host, st: State, name: string, g: Grant)
    requires host.Valid() && Exclusive(host, st) && NewGrant(host, st, g) && !Squeezed(host, st, g)
    requires g.kind.Shared? ==> st.shared.None?
    ensures AllDisjoint(host, st.grants[name := g])
  {
    forall n, k | n in st.grants ensures DisjointOn(host, g, st.grants[n], k) {
      assert !SqueezedOn(host, st, g, k);
      FreshGrantIsDisjoint(host, st, g, n, k);
    }
    OneMoreDisjoint(host, st.grants, name, g);
  }

  lemma OneMoreDisjoint(host: Host, grants: map<string, Grant>, name: string, g: Grant)
    requires AllDisjoint(host, grants) && forall n, k :: n in grants ==> DisjointOn(host, g, grants[n], k)
    ensures AllDisjoint(host, grants[name := g])
  {
    var next := grants[name := g];
    forall m, n, k | m in next && n in next && m != n ensures DisjointOn(host, next[m], next[n], k) {
      assert m != name ==> next[m] == grants[m];
      assert n != name ==> next[n] == grants[n];
      assert m == name ==> DisjointOn(host, g, grants[n], k);
      assert n == name ==> DisjointOn(host, g, grants[m], k);
    }
  }

  lemma SqueezeBreaks(host: Host, st: State, name: string, g: Grant)
    requires host.Valid() && NewGrant(host, st, g) && Squeezed(host, st, g) && name !in st.grants
    ensures !AllDisjoint(host, st.grants[name := g])
  {
    var k :| SqueezedOn(host, st, g, k);
    var n := SqueezeOverlaps(host, st, g, k);
    var next := st.grants[name := g];
    assert next[n] == st.grants[n] && next[name] == g;
  }

  /** One Enforce keeps the classes exclusive if and only if it squeezes nobody in. */
  lemma EnforceKeepsExclusive(host: Host, st: State, name: string, g: Grant, next: State)
    requires host.Valid() && Exclusive(host, st) && EnforceStep(host, st, name, g, next)
    ensures Exclusive(host, next) <==> !Squeezed(host, st, g)
  {
    EnforceKeepsRight(host, st, name, g, next);
    if Squeezed(host, st, g) {
      SqueezeBreaks(host, st, name, g);
    } else {
      NextIsDisjoint(host, st, name, g);
    }
  }

  lemma StepKeepsRight(host: Host, st: State, next: State)
    requires host.Valid() && Right(host, st) && Step(host, st, next)
    ensures Right(host, next)
  {
    if name: string, g: Grant :| EnforceStep(host, st, name, g, next) {
      EnforceKeepsRight(host, st, name, g, next);
    }
  }

  lemma StepKeepsExclusive(host: Host, st: State, next: State)
    requires host.Valid() && Exclusive(host, st) && Step(host, st, next)
    ensures Exclusive(host, next) <==> !Squeezes(host, st, next)
  {
    forall name: string, g: Grant | EnforceStep(host, st, name, g, next)
      ensures Exclusive(host, next) <==> !Squeezed(host, st, g)
    {
      EnforceKeepsExclusive(host, st, name, g, next);
    }
    if Squeezes(host, st, next) {
      var name: string, g: Grant :| EnforceStep(host, st, name, g, next) && Squeezed(host, st, g);
    }
  }

  /** In every state of every run, shrinking or not: each class holds one contiguous block of its
      own pool, of the size it is owed, on exactly the caches it wants. */
  lemma {:induction false} EveryRunIsRight(host: Host, run: seq<State>, t: nat)
    requires host.Valid() && IsRun(host, run) && t < |run|
    ensures Right(host, run[t])
  {
    if t > 0 {
      EveryRunIsRight(host, run, t - 1);
      StepKeepsRight(host, run[t - 1], run[t]);
    }
  }

  ghost predicate NeverSqueezes(host: Host, run: seq<State>) {
    forall t :: 0 < t < |run| ==> !Squeezes(host, run[t - 1], run[t])
  }

  lemma {:induction false} ExclusiveSoFar(host: Host, run: seq<State>, t: nat)
    requires host.Valid() && IsRun(host, run) && t < |run|
    requires forall s :: 0 < s <= t ==> !Squeezes(host, run[s - 1], run[s])
    ensures Exclusive(host, run[t])
  {
    if t > 0 {
      ExclusiveSoFar(host, run, t - 1);
      StepKeepsExclusive(host, run[t - 1], run[t]);
    }
  }

  ghost predicate ExclusiveThroughout(host: Host, run: seq<State>) {
    forall t :: 0 <= t < |run| ==> Exclusive(host, run[t])
  }

  /** A run keeps the classes exclusive throughout if and only if it squeezes nobody in. */
  lemma RunExclusiveIff(host: Host, run: seq<State>)
    requires host.Valid() && IsRun(host, run)
    ensures ExclusiveThroughout(host, run) <==> NeverSqueezes(host, run)
  {
    if NeverSqueezes(host, run) {
      forall t | 0 <= t < |run| ensures Exclusive(host, run[t]) {
        ExclusiveSoFar(host, run, t);
      }
    }
    if ExclusiveThroughout(host, run) {
      forall t | 0 < t < |run| ensures !Squeezes(host, run[t - 1], run[t]) {
        StepKeepsExclusive(host, run[t - 1], run[t]);
      }
    }
  }

  /** Without shrinking nobody is squeezed in. */
  lemma NoShrinkNoSqueeze(host: Host, st: State, next: State)
    requires !CanSqueeze(host)
    ensures !Squeezes(host, st, next)
  {
    if name: string, g: Grant :| EnforceStep(host, st, name, g, next) && Squeezed(host, st, g) {
      var k :| SqueezedOn(host, st, g, k);
      var i := NotAllFree(host, Free(host, st.grants, g.kind, k), host.Window(g.kind, k), g.req, k, g.masks[k]);
      assert false;
    }
  }

  /** In every state of every run of a platform that cannot squeeze anybody in (shrinking is off,
      or there is no best-effort pool): on every cache, the ways in use by different classes are
      disjoint, and each class holds one contiguous block of its own pool, of the size it is
      owed, on exactly the caches it wants. */
  lemma EveryRunIsExclusive(host: Host, run: seq<State>, t: nat)
    requires host.Valid() && IsRun(host, run) && t < |run| && !CanSqueeze(host)
    ensures Exclusive(host, run[t])
  {
    forall s | 0 < s <= t ensures !Squeezes(host, run[s - 1], run[s]) {
      NoShrinkNoSqueeze(host, run[s - 1], run[s]);
    }
    ExclusiveSoFar(host, run, t);
  }

  /** What the configuration must allow for a workload to be squeezed in. */
  predicate CanSqueeze(host: Host) {
    host.shrink && host.cfg.besteffort > 0 && host.servesOs != map[]
  }

  ghost predicate AlwaysExclusive(host: Host) {
    forall run: seq<State>, t: nat :: IsRun(host, run) && t < |run| ==> Exclusive(host, run[t])
  }

  /** The exact condition on the configuration: the classes are exclusive in every state of every
      run if and only if shrinking is off, or there is no best-effort pool to shrink. */
  lemma ExclusiveIff(host: Host)
    requires host.Valid()
    ensures AlwaysExclusive(host) <==> !CanSqueeze(host)
  {
    if CanSqueeze(host) {
      var run := SqueezedRun(host, "COS2", "COS3");
      assert !Exclusive(host, run[2]);
    } else {
      forall run: seq<State>, t: nat | IsRun(host, run) && t < |run| ensures Exclusive(host, run[t]) {
        EveryRunIsExclusive(host, run, t);
      }
    }
  }

  /** Wherever shrinking is on: one class takes the whole best-effort pool, the next asks for one
      way and is given the lowest one of the pool, which the first keeps. */
  lemma SqueezedRun(host: Host, a: string, b: string) returns (run: seq<State>)
    requires host.Valid() && CanSqueeze(host) && a != b
    ensures IsRun(host, run) && |run| == 3 && a in run[2].grants && b in run[2].grants
    ensures forall k :: k in host.servesOs ==> !DisjointOn(host, run[2].grants[a], run[2].grants[b], k)
    ensures !Exclusive(host, run[2])
  {
    var first, second, g, h := WholeThenOne(host, a, b);
    run := RunOfTwo(host, first, second);
    AllShareFirstWay(host, second, a, b, g, h);
  }

  lemma WholeThenOne(host: Host, a: string, b: string) returns (first: State, second: State, g: Grant, h: Grant)
    requires host.Valid() && CanSqueeze(host) && a != b
    ensures Step(host, EMPTY, first) && Step(host, first, second) && second.grants == map[a := g, b := h]
    ensures g.masks.Keys == host.servesOs.Keys && forall k :: k in g.masks ==> g.masks[k] == host.Window(Besteffort, k)
    ensures h.masks == map k | k in host.servesOs :: FirstWay(host, Besteffort, k)
  {
    g := WholePool(host, Besteffort);
    first := FirstStep(host, a, g);
    h := OneWay(host, first, a, g);
    second := SecondStep(host, first, b, h);
    assert second.grants == map[a := g, b := h];
  }

  lemma AllShareFirstWay(host: Host, st: State, a: string, b: string, g: Grant, h: Grant)
    requires host.Valid() && CanSqueeze(host) && a != b && st.grants == map[a := g, b := h]
    requires g.masks.Keys == host.servesOs.Keys && forall k :: k in g.masks ==> g.masks[k] == host.Window(Besteffort, k)
    requires h.masks == map k | k in host.servesOs :: FirstWay(host, Besteffort, k)
    ensures forall k :: k in host.servesOs ==> !DisjointOn(host, st.grants[a], st.grants[b], k)
    ensures !Exclusive(host, st)
  {
    forall k | k in host.servesOs ensures !DisjointOn(host, g, h, k) {
      FirstWayShared(host, g, h, k);
    }
    var k :| k in host.servesOs;
    assert !DisjointOn(host, st.grants[a], st.grants[b], k);
  }

  lemma RunOfTwo(host: Host, first: State, second: State) returns (run: seq<State>)
    requires Step(host, EMPTY, first) && Step(host, first, second)
    ensures run == [EMPTY, first, second] && IsRun(host, run)
  {
    run := [EMPTY, first, second];
  }

  lemma SecondStep(host: Host, st: State, name: string, g: Grant) returns (next: State)
    requires name !in st.grants && NewGrant(host, st, g) && !g.kind.Shared?
    ensures next == State(st.grants[name := g], st.shared) && Step(host, st, next)
  {
    next := State(st.grants[name := g], st.shared);
    assert EnforceStep(host, st, name, g, next);
  }

  lemma FirstWayShared(host: Host, g: Grant, h: Grant, k: nat)
    requires host.Valid() && host.cfg.besteffort > 0 && k in g.masks && k in h.masks
    requires g.masks[k] == host.Window(Besteffort, k) && h.masks[k] == FirstWay(host, Besteffort, k)
    ensures !DisjointOn(host, g, h, k)
  {
    LowestWay(host, Besteffort, k);
    LayoutIsDisjoint(host.cfg, host.ServesOs(k), Besteffort, Besteffort);
    assert host.cfg.Start(Besteffort, host.ServesOs(k)) in FirstWay(host, Besteffort, k);
  }

  function FirstWay(host: Host, kind: PoolKind, k: nat): set<nat> {
    var lo := host.cfg.Start(kind, host.ServesOs(k));
    Interval(lo, lo + 1)
  }

  lemma LowestWay(host: Host, kind: PoolKind, k: nat)
    requires host.cfg.Size(kind) > 0 && host.Valid()
    ensures FirstWay(host, kind, k) <= host.Window(kind, k) && FirstWay(host, kind, k) != {}
    ensures FirstWay(host, kind, k) != host.cfg.Full()
    ensures TakesLowest(host.Window(kind, k), 1, 0, FirstWay(host, kind, k))
  {
    var lo, window := host.cfg.Start(kind, host.ServesOs(k)), host.Window(kind, k);
    assert lo in FirstWay(host, kind, k);
    forall q: nat | q < lo ensures !Fits(window, q, 1) {
      assert q in Interval(q, q + 1);
    }
    assert LowestFit(window, 1, 0, lo);
    LayoutIsDisjoint(host.cfg, host.ServesOs(k), kind, kind);
    if host.cfg.width >= 2 {
      IntervalSize(0, host.cfg.width);
      IntervalSize(lo, lo + 1);
    }
  }

  lemma OneWay(host: Host, st: State, a: string, g: Grant) returns (h: Grant)
    requires host.Valid() && CanSqueeze(host) && a in st.grants && st.grants[a] == g
    requires g.masks.Keys == host.servesOs.Keys && forall k :: k in g.masks ==> g.masks[k] == host.Window(Besteffort, k)
    ensures NewGrant(host, st, h) && h.kind == Besteffort
    ensures h.masks == map k | k in host.servesOs :: FirstWay(host, Besteffort, k)
  {
    h := Grant(Besteffort, Request(2, 1, {}), map k | k in host.servesOs :: FirstWay(host, Besteffort, k));
    forall k | k in h.masks
      ensures Chosen(host, Free(host, st.grants, Besteffort, k), host.Window(Besteffort, k), h.req, Besteffort, k, h.masks[k])
    {
      LowestWay(host, Besteffort, k);
      WholeIsTaken(host, st.grants, a, k);
    }
  }

  lemma WholeIsTaken(host: Host, grants: map<string, Grant>, a: string, k: nat)
    requires host.Valid() && a in grants && k in grants[a].masks && grants[a].masks[k] == host.Window(Besteffort, k)
    ensures NoBlock(Free(host, grants, Besteffort, k), 1)
  {
    LayoutIsDisjoint(host.cfg, host.ServesOs(k), Besteffort, Besteffort);
    var free := Free(host, grants, Besteffort, k);
    forall p: nat ensures !Fits(free, p, 1) {
      assert p in Interval(p, p + 1);
      assert p in host.Window(Besteffort, k) ==> Occupied(host, grants, k, p);
    }
  }

  // ----- the OS group -----

  /** What SetOSGroup leaves to the OS on cache `k`: the ways below `n`, where `n` is the first
      way, beyond those reserved for the OS, that some class uses. */
  ghost predicate OsLimit(host: Host, grants: map<string, Grant>, k: nat, n: nat) {
    && host.cfg.osWays <= n <= host.cfg.width
    && (forall i: nat :: host.cfg.osWays <= i < n ==> !Occupied(host, grants, k, i))
    && (n == host.cfg.width || Occupied(host, grants, k, n))
  }

  /** Nothing more could be left to the OS: above the reserved ways, any longer stretch from way 0 up
      holds a way of some class. */
  lemma OsGetsMost(host: Host, grants: map<string, Grant>, k: nat, n: nat, m: nat)
    requires OsLimit(host, grants, k, n) && host.cfg.osWays <= m <= host.cfg.width
    requires forall name :: name in grants && k in grants[name].masks && grants[name].masks[k] != Interval(0, host.cfg.width) ==>
      forall i: nat :: host.cfg.osWays <= i < m ==> i !in grants[name].masks[k]
    ensures m <= n
    ensures m < n ==> forall name :: name in grants && k in grants[name].masks && grants[name].masks[k] != Interval(0, host.cfg.width) ==>
      m !in grants[name].masks[k]
  {
    assert n < host.cfg.width ==> Occupied(host, grants, k, n);
    assert m < n ==> !Occupied(host, grants, k, m);
  }

  /** The OS, with the ways below `n`, shares none with a class. */
  ghost predicate OsApart(host: Host, grants: map<string, Grant>, k: nat, n: nat) {
    forall name :: name in grants && Uses(host, grants[name], k) ==> grants[name].masks[k] !! Interval(0, n)
  }

  /** The OS shares no way with a class exactly when no class uses a reserved way. */
  lemma OsGroupDisjoint(host: Host, grants: map<string, Grant>, k: nat, n: nat)
    requires OsLimit(host, grants, k, n)
    ensures OsApart(host, grants, k, n) <==> forall i: nat :: i < host.cfg.osWays ==> !Occupied(host, grants, k, i)
  {
    if OsApart(host, grants, k, n) {
      forall i: nat | i < host.cfg.osWays ensures !Occupied(host, grants, k, i) {
        assert i in Interval(0, n);
      }
    }
    if forall i: nat :: i < host.cfg.osWays ==> !Occupied(host, grants, k, i) {
      assert forall i: nat :: i in Interval(0, n) ==> !Occupied(host, grants, k, i);
    }
  }

  /** Where the cache serves OS CPUs that is so in every reachable state: the OS keeps its
      reserved ways to itself, and grows up to the first way in use. */
  lemma OsGroupSafe(host: Host, run: seq<State>, t: nat, k: nat, n: nat)
    requires host.Valid() && IsRun(host, run) && t < |run|
    requires host.ServesOs(k) && OsLimit(host, run[t].grants, k, n)
    ensures Interval(0, host.cfg.osWays) <= Interval(0, n)
    ensures OsApart(host, run[t].grants, k, n)
  {
    var grants := run[t].grants;
    EveryRunIsRight(host, run, t);
    forall i: nat | i < host.cfg.osWays ensures !Occupied(host, grants, k, i) {
      assert i in Interval(0, host.cfg.osWays);
      forall name | name in grants && Uses(host, grants[name], k) ensures i !in grants[name].masks[k] {
        LayoutIsDisjoint(host.cfg, true, grants[name].kind, Shared);
        assert MaskOk(host, grants[name], k);
      }
    }
    OsGroupDisjoint(host, grants, k, n);
  }

  /** Some pool has ways. */
  predicate HasPool(cfg: Config) {
    cfg.guarantee > 0 || cfg.besteffort > 0 || cfg.shared > 0
  }

  /** In every state of every run the OS shares no way of cache `k` with a class. */
  ghost predicate OsAlwaysApart(host: Host, k: nat) {
    forall run: seq<State>, t: nat, n: nat ::
      IsRun(host, run) && t < |run| && OsLimit(host, run[t].grants, k, n) ==> OsApart(host, run[t].grants, k, n)
  }

  /** The exact condition, on the host: the cache serves OS CPUs, so the pools were moved up, or
      there is no pool to take ways from. */
  lemma OsApartIff(host: Host, k: nat)
    requires host.Valid() && k in host.servesOs
    ensures OsAlwaysApart(host, k) <==> host.ServesOs(k) || !HasPool(host.cfg)
  {
    if host.ServesOs(k) || !HasPool(host.cfg) {
      forall run: seq<State>, t: nat, n: nat | IsRun(host, run) && t < |run| && OsLimit(host, run[t].grants, k, n)
        ensures OsApart(host, run[t].grants, k, n)
      {
        if host.ServesOs(k) {
          OsGroupSafe(host, run, t, k, n);
        } else {
          NoPoolNoClass(host, run, t, k, n);
        }
      }
    } else {
      OsOverlaps(host, k);
    }
  }

  lemma NoPoolNoClass(host: Host, run: seq<State>, t: nat, k: nat, n: nat)
    requires host.Valid() && IsRun(host, run) && t < |run| && !HasPool(host.cfg)
    ensures OsApart(host, run[t].grants, k, n)
  {
    var grants := run[t].grants;
    EveryRunIsRight(host, run, t);
    forall name | name in grants ensures !Uses(host, grants[name], k) {
      NoPoolNoUse(host, grants[name], k);
    }
  }

  lemma NoPoolNoUse(host: Host, g: Grant, k: nat)
    requires GrantOk(host, g) && !HasPool(host.cfg)
    ensures !Uses(host, g, k)
  {
    assert k in g.masks ==> MaskOk(host, g, k);
  }

  lemma OsOverlaps(host: Host, k: nat)
    requires host.Valid() && k in host.servesOs && !host.ServesOs(k) && HasPool(host.cfg)
    ensures !OsAlwaysApart(host, k)
  {
    var next := OsGroupOverlapsElsewhere(host, k, "COS2");
    var n := OsLimitExists(host, next.grants, k, host.cfg.osWays);
    var run := [EMPTY, next];
    assert run[1].grants == next.grants;
    assert !OsApart(host, run[1].grants, k, n);
  }

  lemma OsLimitExists(host: Host, grants: map<string, Grant>, k: nat, from: nat) returns (n: nat)
    requires host.cfg.osWays <= from <= host.cfg.width
    requires forall i: nat :: host.cfg.osWays <= i < from ==> !Occupied(host, grants, k, i)
    ensures OsLimit(host, grants, k, n)
    decreases host.cfg.width - from
  {
    if from == host.cfg.width || Occupied(host, grants, k, from) {
      n := from;
    } else {
      n := OsLimitExists(host, grants, k, from + 1);
    }
  }

  /** Where the cache serves no OS CPUs, the pools start at way 0: on every such host with a pool
      at all, already one workload that takes the whole lowest pool shares way 0 with the OS. */
  lemma OsGroupOverlapsElsewhere(host: Host, k: nat, name: string) returns (next: State)
    requires host.Valid() && k in host.servesOs && !host.ServesOs(k) && HasPool(host.cfg)
    ensures IsRun(host, [EMPTY, next])
    ensures name in next.grants && Uses(host, next.grants[name], k)
    ensures forall n: nat :: OsLimit(host, next.grants, k, n) ==> 0 in next.grants[name].masks[k] * Interval(0, n)
  {
    var kind := if host.cfg.guarantee > 0 then Guarantee else if host.cfg.besteffort > 0 then Besteffort else Shared;
    var g := WholePool(host, kind);
    next := FirstStep(host, name, g);
    LayoutIsDisjoint(host.cfg, false, kind, kind);
    assert 0 in g.masks[k];
  }

  lemma FirstStep(host: Host, name: string, g: Grant) returns (next: State)
    requires NewGrant(host, EMPTY, g)
    ensures Step(host, EMPTY, next) && IsRun(host, [EMPTY, next]) && next.grants == map[name := g]
  {
    next := State(map[name := g], if g.kind.Shared? then Some(name) else None);
    assert EMPTY.grants[name := g] == map[name := g];
    assert EnforceStep(host, EMPTY, name, g, next);
  }

  /** A request that takes a whole pool of `n` ways. */
  function WholeRequest(kind: PoolKind, n: nat): Request {
    match kind
    case Guarantee => Request(n, n, {})
    case Besteffort => Request(n + 1, 1, {})
    case Shared => Request(0, 0, {})
  }

  lemma WholePool(host: Host, kind: PoolKind) returns (g: Grant)
    requires host.Valid() && host.cfg.Size(kind) > 0
    ensures NewGrant(host, EMPTY, g) && g.kind == kind
    ensures g.masks.Keys == host.servesOs.Keys && forall k :: k in g.masks ==> g.masks[k] == host.Window(kind, k)
  {
    var ways := host.cfg.Size(kind);
    g := Grant(kind, WholeRequest(kind, ways), map j | j in host.servesOs :: host.Window(kind, j));
    forall j | j in g.masks
      ensures Chosen(host, Free(host, EMPTY.grants, kind, j), host.Window(kind, j), g.req, kind, j, g.masks[j])
    {
      NothingOccupied(host, host.Window(kind, j), j);
      var lo := host.cfg.Start(kind, host.ServesOs(j));
      WholeOnCache(host, kind, j, lo, ways);
      assert Free(host, EMPTY.grants, kind, j) == g.masks[j] == host.Window(kind, j) == Interval(lo, lo + ways);
    }
  }

  lemma WholeOnCache(host: Host, kind: PoolKind, k: nat, lo: nat, n: nat)
    requires n >= 1 && lo + n <= host.cfg.width
    ensures Chosen(host, Interval(lo, lo + n), Interval(lo, lo + n), WholeRequest(kind, n), kind, k, Interval(lo, lo + n))
  {
    WholeWindow(lo, n, host.cfg.width);
    WholeChosen(host, kind, k, Interval(lo, lo + n), n);
  }

  lemma WholeChosen(host: Host, kind: PoolKind, k: nat, window: set<nat>, n: nat)
    requires window != {} && TakesHighest(window, n, host.cfg.width, window)
    requires TakesLongest(window, n + 1, 1, host.cfg.width, window)
    ensures Chosen(host, window, window, WholeRequest(kind, n), kind, k, window)
  {
  }

  lemma NothingOccupied(host: Host, ways: set<nat>, k: nat)
    ensures Unoccupied(host, map[], ways, k) == ways
  {
    forall i: nat ensures !Occupied(host, map[], k, i) {
    }
  }

  lemma WholeWindow(lo: nat, n: nat, width: nat)
    requires n >= 1 && lo + n <= width
    ensures Interval(lo, lo + n) != {} && TakesHighest(Interval(lo, lo + n), n, width, Interval(lo, lo + n))
    ensures TakesLongest(Interval(lo, lo + n), n + 1, 1, width, Interval(lo, lo + n))
  {
    var s := Interval(lo, lo + n);
    assert lo in s;
    forall q: nat | lo < q ensures !Fits(s, q, n) {
      assert q + n - 1 in Interval(q, q + n);
    }
    assert HighestFit(s, n, width, lo);
    forall p: nat, m: nat | Fits(s, p, m) ensures m <= n {
      if m > 0 {
        assert p in Interval(p, p + m) && p + m - 1 in Interval(p, p + m);
      }
    }
    assert LongestBlock(s, n);
  }
}
