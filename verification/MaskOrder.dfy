/** The masks of a new class on their way to the hardware: newResAss (modules/workload/workload.go)
    lists them in the order in which a Go map is visited, AllocateCLOS (utils/pqos/pqos.go) reads
    them by position. */
module MaskOrder {
  import opened WaySets
  import opened Bitmaps
  import opened Text
  import opened CachePools
  import opened Allocation
  import HexText

  datatype CacheCos = CacheCos(id: nat, mask: string)

  /** newResAss: the candidate as texts, one entry per cache in whatever order the map is visited. */
  method NewResAss(cand: map<nat, Bitmap>) returns (entries: seq<CacheCos>)
    ensures Visits(Ids(entries), cand.Keys)
    ensures forall e :: e in entries ==> e.id in cand && e.mask == HexText.Print(cand[e.id].words)
  {
    entries := [];
    var todo := cand.Keys;
    while todo != {}
      invariant todo <= cand.Keys && Visits(Ids(entries), cand.Keys - todo)
      invariant forall e :: e in entries ==> e.id in cand && e.mask == HexText.Print(cand[e.id].words)
    {
      var k :| k in todo;
      todo := todo - {k};
      var text := HexText.ToString(cand[k]);
      OneMoreVisited(entries, cand.Keys - todo - {k}, CacheCos(k, text));
      entries := entries + [CacheCos(k, text)];
      assert cand.Keys - todo == cand.Keys - todo - {k} + {k};
    }
  }

  function Ids(entries: seq<CacheCos>): seq<nat> {
    seq(|entries|, i requires 0 <= i < |entries| => entries[i].id)
  }

  /** `order` lists every one of `ids` once. */
  ghost predicate Visits(order: seq<nat>, ids: set<nat>) {
    && (forall k :: k in order <==> k in ids)
    && forall i, j :: 0 <= i < j < |order| ==> order[i] != order[j]
  }

  lemma OneMoreVisited(entries: seq<CacheCos>, ids: set<nat>, e: CacheCos)
    requires Visits(Ids(entries), ids) && e.id !in ids
    ensures Visits(Ids(entries + [e]), ids + {e.id})
  {
    assert Ids(entries + [e]) == Ids(entries) + [e.id];
  }

  /** The masks by the cache ids of the entries: what the allocator means. */
  function ById(entries: seq<CacheCos>): Masks
    requires forall i, j :: 0 <= i < j < |entries| ==> entries[i].id != entries[j].id
  {
    map e | e in entries :: e.id := e.mask
  }

  lemma EntriesById(entries: seq<CacheCos>, ids: set<nat>)
    requires Visits(Ids(entries), ids)
    ensures forall i, j :: 0 <= i < j < |entries| ==> entries[i].id != entries[j].id
    ensures ById(entries).Keys == ids && forall e :: e in entries ==> ById(entries)[e.id] == e.mask
    ensures forall k :: k in ids ==> exists e :: e in entries && e.id == k
  {
    var order := Ids(entries);
    forall i, j | 0 <= i < j < |entries| ensures entries[i].id != entries[j].id {
      assert order[i] != order[j];
    }
    forall k ensures k in ids <==> exists e :: e in entries && e.id == k {
      if k in ids {
        var i :| 0 <= i < |order| && order[i] == k;
        assert entries[i] in entries;
      }
      if e :| e in entries && e.id == k {
        var i :| 0 <= i < |entries| && entries[i] == e;
        assert order[i] == k;
      }
    }
  }

  /** The texts of the candidate by cache id. */
  method CandidateTexts(cand: map<nat, Bitmap>) returns (masks: Masks)
    ensures masks.Keys == cand.Keys
    ensures forall k :: k in cand ==> masks[k] == HexText.Print(cand[k].words)
  {
    var entries := NewResAss(cand);
    EntriesById(entries, cand.Keys);
    masks := ById(entries);
  }

  // ----- reading the entries by position -----

  /** AllocateCLOS reads the entries by position: socket `i` gets the mask of the `i`-th. */
  function ByPosition<T>(order: seq<nat>, m: map<nat, T>): map<nat, T>
    requires forall k :: k in order ==> k in m
  {
    map i | 0 <= i < |order| :: m[order[i]]
  }

  /** With caches 0 to n-1, what position gives is what the ids mean if and only if every entry
      stands at the position of its own id or of a cache with the same mask. */
  lemma PositionIff<T>(order: seq<nat>, m: map<nat, T>, n: nat)
    requires m.Keys == Interval(0, n) && Visits(order, m.Keys)
    ensures |order| == n && Placed(order, m, n)
    ensures ByPosition(order, m) == m <==> forall i: nat :: i < n ==> order[i] == i || m[order[i]] == m[i]
  {
    VisitsAll(order, m.Keys);
    IntervalSize(0, n);
    PositionMeans(order, m, n);
  }

  /** Every position has an entry, and every entry a mask. */
  ghost predicate Placed<T>(order: seq<nat>, m: map<nat, T>, n: nat) {
    |order| == n && forall i: nat :: i < n ==> i in m && order[i] in m
  }

  lemma PositionMeans<T>(order: seq<nat>, m: map<nat, T>, n: nat)
    requires m.Keys == Interval(0, n) && |order| == n && forall k :: k in order ==> k in m
    ensures Placed(order, m, n)
    ensures ByPosition(order, m) == m <==> forall i: nat :: i < n ==> order[i] == i || m[order[i]] == m[i]
  {
    AllPlaced(order, m, n);
    PositionKeys(order, m, n);
    SameMap(ByPosition(order, m), m);
  }

  lemma AllPlaced<T>(order: seq<nat>, m: map<nat, T>, n: nat)
    requires m.Keys == Interval(0, n) && |order| == n && forall k :: k in order ==> k in m
    ensures Placed(order, m, n)
  {
    forall i: nat | i < n ensures i in m && order[i] in m {
      assert i in Interval(0, n) && order[i] in order;
    }
  }

  lemma PositionKeys<T>(order: seq<nat>, m: map<nat, T>, n: nat)
    requires m.Keys == Interval(0, n) && Placed(order, m, n) && forall k :: k in order ==> k in m
    ensures ByPosition(order, m).Keys == m.Keys
    ensures forall i: nat :: i < n ==> ByPosition(order, m)[i] == m[order[i]]
  {
    var keys := ByPosition(order, m).Keys;
    assert forall i: nat :: i in keys <==> i < n;
    assert keys == Interval(0, n);
  }

  lemma SameMap<T>(r: map<nat, T>, m: map<nat, T>)
    requires r.Keys == m.Keys
    ensures r == m <==> forall i :: i in m ==> r[i] == m[i]
  {
  }

  lemma {:induction false} VisitsAll(order: seq<nat>, ids: set<nat>)
    requires Visits(order, ids)
    ensures |order| == |ids|
  {
    if order != [] {
      var last, rest := order[|order| - 1], order[..|order| - 1];
      assert order == rest + [last];
      forall k ensures k in rest <==> k in ids - {last} {
        if k in ids && k != last {
          assert k in order;
        }
        if k in rest {
          var i :| 0 <= i < |rest| && rest[i] == k;
          assert order[i] == k && k in order;
        }
      }
      assert last in order;
      VisitsAll(rest, ids - {last});
    } else {
      assert forall k :: k in ids ==> k in order;
      assert ids == {};
    }
  }

  /** Whatever the order, position gives what the ids mean. */
  ghost predicate OrderIsSafe<T(!new)>(m: map<nat, T>) {
    forall order: seq<nat> :: Visits(order, m.Keys) ==> ByPosition(order, m) == m
  }

  /** The exact condition on the masks: every order is right if and only if the class has the same
      mask on all caches (so always with one cache, and never for a class that wants only some). */
  lemma OrderSafeIff<T(!new)>(m: map<nat, T>, n: nat)
    requires m.Keys == Interval(0, n)
    ensures OrderIsSafe(m) <==> forall i, j :: i in m && j in m ==> m[i] == m[j]
  {
    if forall i, j :: i in m && j in m ==> m[i] == m[j] {
      forall order: seq<nat> | Visits(order, m.Keys) ensures ByPosition(order, m) == m {
        PositionIff(order, m, n);
      }
    }
    if OrderIsSafe(m) {
      forall i, j | i in m && j in m ensures m[i] == m[j] {
        SafeMeansSame(m, n, i, j);
      }
    }
  }

  lemma SafeMeansSame<T(!new)>(m: map<nat, T>, n: nat, i: nat, j: nat)
    requires m.Keys == Interval(0, n) && OrderIsSafe(m) && i < n && j < n
    ensures i in m && j in m && m[i] == m[j]
  {
    assert i in Interval(0, n) && j in Interval(0, n);
    var order := SwappedOrder(n, i, j);
    assert ByPosition(order, m) == m;
    PositionIff(order, m, n);
  }

  /** The caches in order, but for two that change places. */
  lemma SwappedOrder(n: nat, i: nat, j: nat) returns (order: seq<nat>)
    requires i < n && j < n
    ensures |order| == n && Visits(order, Interval(0, n)) && order[i] == j && order[j] == i
  {
    order := seq(n, k requires 0 <= k < n => if k == i then j else if k == j then i else k);
    forall k: nat ensures k in order <==> k in Interval(0, n) {
      if k < n {
        assert order[if k == i then j else if k == j then i else k] == k;
      }
    }
  }

  // ----- what a wrong order does -----

  /** Two classes that each want one socket of two. Written in the order 1, 0, the second lands on
      the ways of the first: on every host with two alike caches and a guaranteed pool. */
  lemma WrongOrderOverlaps(host: Host, a: string, b: string) returns (run: seq<State>, written: Grant)
    requires host.Valid() && host.servesOs.Keys == {0, 1} && host.servesOs[0] == host.servesOs[1]
    requires host.cfg.guarantee > 0 && a != b
    ensures IsRun(host, run) && |run| == 3 && Exclusive(host, run[2]) && a in run[2].grants && b in run[2].grants
    ensures Visits([1, 0], run[2].grants[b].masks.Keys)
    ensures written == run[2].grants[b].(masks := ByPosition([1, 0], run[2].grants[b].masks))
    ensures !DisjointOn(host, run[2].grants[a], written, 0)
  {
    var g, h;
    run, g, h := OneSocketEach(host, a, b);
    assert Visits([1, 0], {0, 1});
    written := h.(masks := ByPosition([1, 0], h.masks));
    LandsOn(host, g, h, written);
  }

  lemma LandsOn(host: Host, g: Grant, h: Grant, written: Grant)
    requires host.Valid() && host.cfg.guarantee > 0 && 0 in g.masks && 1 in h.masks && 0 in written.masks
    requires g.masks[0] == h.masks[1] == written.masks[0] == host.Window(Guarantee, 0)
    ensures !DisjointOn(host, g, written, 0)
  {
    LayoutIsDisjoint(host.cfg, host.ServesOs(0), Guarantee, Guarantee);
    assert host.cfg.Start(Guarantee, host.ServesOs(0)) in host.Window(Guarantee, 0);
  }

  lemma OneSocketEach(host: Host, a: string, b: string) returns (run: seq<State>, g: Grant, h: Grant)
    requires host.Valid() && host.servesOs.Keys == {0, 1} && host.cfg.guarantee > 0 && a != b
    ensures IsRun(host, run) && |run| == 3 && Exclusive(host, run[2])
    ensures a in run[2].grants && b in run[2].grants && run[2].grants[a] == g && run[2].grants[b] == h
    ensures g.masks.Keys == h.masks.Keys == {0, 1}
    ensures g.masks[0] == host.Window(Guarantee, 0) && h.masks[1] == host.Window(Guarantee, 1)
  {
    var first, second;
    g, first := OnSocketZero(host, a);
    h, second := OnSocketOne(host, a, b, g, first);
    run := RunOfTwo(host, first, second);
    ExclusiveTwice(host, a, b, g, h, first, second);
  }

  lemma OnSocketZero(host: Host, a: string) returns (g: Grant, first: State)
    requires host.Valid() && host.servesOs.Keys == {0, 1} && host.cfg.guarantee > 0
    ensures NewGrant(host, EMPTY, g) && g.kind == Guarantee && g.masks == OnlyOn(host, 0)
    ensures first == State(map[a := g], None) && Step(host, EMPTY, first)
  {
    NothingOccupied(host, host.Window(Guarantee, 0), 0);
    g := WholeOn(host, EMPTY, 0);
    first := SecondStep(host, EMPTY, a, g);
    assert EMPTY.grants[a := g] == map[a := g];
  }

  lemma OnSocketOne(host: Host, a: string, b: string, g: Grant, first: State) returns (h: Grant, second: State)
    requires host.Valid() && host.servesOs.Keys == {0, 1} && host.cfg.guarantee > 0 && a != b
    requires g.masks == OnlyOn(host, 0) && first == State(map[a := g], None)
    ensures NewGrant(host, first, h) && h.kind == Guarantee && h.masks == OnlyOn(host, 1)
    ensures second == State(first.grants[b := h], None) && Step(host, first, second)
  {
    assert 1 in g.masks && g.masks[1] == host.cfg.Full();
    FreeElsewhere(host, first.grants, a, g);
    h := WholeOn(host, first, 1);
    second := SecondStep(host, first, b, h);
  }

  lemma ExclusiveTwice(host: Host, a: string, b: string, g: Grant, h: Grant, first: State, second: State)
    requires host.Valid() && g.kind.Guarantee? && h.kind.Guarantee? && a != b
    requires NewGrant(host, EMPTY, g) && first == State(map[a := g], None)
    requires NewGrant(host, first, h) && second == State(first.grants[b := h], None)
    ensures Exclusive(host, second)
  {
    assert EMPTY.grants[a := g] == map[a := g];
    NotSqueezed(host, EMPTY, a, g, first);
    NotSqueezed(host, first, b, h, second);
  }

  lemma NotSqueezed(host: Host, st: State, name: string, g: Grant, next: State)
    requires host.Valid() && Exclusive(host, st) && g.kind.Guarantee? && NewGrant(host, st, g) && name !in st.grants
    requires next == State(st.grants[name := g], st.shared)
    ensures Exclusive(host, next)
  {
    assert EnforceStep(host, st, name, g, next);
    EnforceKeepsExclusive(host, st, name, g, next);
  }

  /** The whole guaranteed pool, on cache `k` only. */
  function OnlyOn(host: Host, k: nat): map<nat, set<nat>> {
    map j | j in host.servesOs :: if j == k then host.Window(Guarantee, k) else host.cfg.Full()
  }

  lemma WholeOn(host: Host, st: State, k: nat) returns (g: Grant)
    requires host.Valid() && k in host.servesOs && host.cfg.guarantee > 0
    requires Free(host, st.grants, Guarantee, k) == host.Window(Guarantee, k)
    ensures NewGrant(host, st, g) && g.kind == Guarantee && g.masks == OnlyOn(host, k)
  {
    var n := host.cfg.guarantee;
    g := Grant(Guarantee, Request(n, n, {k}), OnlyOn(host, k));
    WholeWindow(host.cfg.Start(Guarantee, host.ServesOs(k)), n, host.cfg.width);
    forall j | j in g.masks
      ensures Chosen(host, Free(host, st.grants, Guarantee, j), host.Window(Guarantee, j), g.req, Guarantee, j, g.masks[j])
    {
      WholeOrFull(host, Free(host, st.grants, Guarantee, j), host.Window(Guarantee, j), n, k, j, g.masks[j]);
    }
  }

  lemma WholeOrFull(host: Host, free: set<nat>, window: set<nat>, n: nat, k: nat, j: nat, mask: set<nat>)
    requires j == k ==> free == mask == window && window != {} && TakesHighest(window, n, host.cfg.width, window)
    requires j != k ==> mask == host.cfg.Full()
    ensures Chosen(host, free, window, Request(n, n, {k}), Guarantee, j, mask)
  {
  }

  lemma FreeElsewhere(host: Host, grants: map<string, Grant>, a: string, g: Grant)
    requires grants == map[a := g] && 1 in g.masks && g.masks[1] == host.cfg.Full()
    ensures Free(host, grants, Guarantee, 1) == host.Window(Guarantee, 1)
  {
    forall i: nat ensures !Occupied(host, grants, 1, i) {
    }
  }
}
