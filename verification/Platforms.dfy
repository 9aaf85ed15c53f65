/** The platform as an object: the resource groups, the pool of classes, and the operations that
    change them (modules/workload/workload.go, Enforce and Release). */
module Platforms {
  import opened Words
  import opened WaySets
  import opened Bitmaps
  import opened Text
  import opened Search
  import opened CachePools
  import opened Allocation
  import opened ClosPools
  import opened Enforcement
  import opened MaskOrder
  import Shrink
  import HexText

  type Served = map<string, (PoolKind, Request)>

  // ----- how an update of the groups shows in the grants -----

  lemma TidyIsGood(host: Host, masks: Masks)
    requires TidyMasks(host, masks)
    ensures GoodMasks(host.cfg, masks, host.servesOs.Keys)
  {
    forall k | k in masks ensures GoodMask(host.cfg.width, masks[k]) {
      assert CanonicalMask(host.cfg.width, masks[k]);
    }
  }

  lemma OsIsGood(host: Host, grants: map<string, Grant>, masks: Masks)
    requires AllOsMasks(host, grants, masks)
    ensures GoodMasks(host.cfg, masks, host.servesOs.Keys)
  {
    forall k | k in masks ensures GoodMask(host.cfg.width, masks[k]) {
      assert OsMask(host, grants, k, masks[k]);
    }
  }

  lemma StillGood(cfg: Config, groups: map<string, Masks>, ids: set<nat>, name: string, masks: Masks)
    requires GoodGroups(cfg, groups, ids) && GoodMasks(cfg, masks, ids)
    ensures GoodGroups(cfg, groups[name := masks], ids)
  {
  }

  lemma CommittedTidy(host: Host, groups: map<string, Masks>, served: Served, name: string, masks: Masks, kind: PoolKind, req: Request)
    requires Tidy(host, groups, served) && TidyMasks(host, masks) && name !in Reserved()
    ensures Tidy(host, groups[name := masks], served[name := (kind, req)])
  {
    TidyIsGood(host, masks);
    StillGood(host.cfg, groups, host.servesOs.Keys, name, masks);
    var g, s := groups[name := masks], served[name := (kind, req)];
    assert s.Keys == g.Keys - Reserved();
    forall n | n in s ensures TidyMasks(host, g[n]) {
      assert n != name ==> n in served && g[n] == groups[n];
    }
  }

  lemma CommittedGrants(cfg: Config, groups: map<string, Masks>, served: Served, name: string, masks: Masks, kind: PoolKind, req: Request)
    requires name !in Reserved()
    ensures GrantsOf(cfg, groups[name := masks], served[name := (kind, req)]) ==
      GrantsOf(cfg, groups, served)[name := Grant(kind, req, Views(cfg, masks))]
  {
    var a := GrantsOf(cfg, groups[name := masks], served[name := (kind, req)]);
    var b := GrantsOf(cfg, groups, served)[name := Grant(kind, req, Views(cfg, masks))];
    assert a.Keys == b.Keys;
  }

  lemma Removed(host: Host, groups: map<string, Masks>, served: Served, name: string)
    requires Tidy(host, groups, served) && name !in Reserved()
    ensures Tidy(host, groups - {name}, served - {name})
    ensures GrantsOf(host.cfg, groups - {name}, served - {name}) == GrantsOf(host.cfg, groups, served) - {name}
  {
  }

  lemma OsUpdated(host: Host, groups: map<string, Masks>, served: Served, masks: Masks)
    requires Tidy(host, groups, served) && GoodMasks(host.cfg, masks, host.servesOs.Keys) && OS_GROUP in groups
    ensures Tidy(host, groups[OS_GROUP := masks], served)
    ensures GrantsOf(host.cfg, groups[OS_GROUP := masks], served) == GrantsOf(host.cfg, groups, served)
  {
    StillGood(host.cfg, groups, host.servesOs.Keys, OS_GROUP, masks);
    var g := groups[OS_GROUP := masks];
    assert OS_GROUP !in served && g.Keys == groups.Keys;
    forall n | n in served ensures TidyMasks(host, g[n]) {
      assert g[n] == groups[n];
    }
    OsNotGranted(host.cfg, groups, served, masks);
  }

  lemma OsNotGranted(cfg: Config, groups: map<string, Masks>, served: Served, masks: Masks)
    ensures GrantsOf(cfg, groups[OS_GROUP := masks], served) == GrantsOf(cfg, groups, served)
  {
    var a, b := GrantsOf(cfg, groups[OS_GROUP := masks], served), GrantsOf(cfg, groups, served);
    assert a.Keys == b.Keys;
  }

  /** The abstract state of module Allocation. */
  ghost function AbsOf(cfg: Config, groups: map<string, Masks>, served: Served, shared: string): State {
    State(GrantsOf(cfg, groups, served), if shared in served then Some(shared) else None)
  }

  ghost predicate SharedRight(served: Served, shared: string) {
    forall n :: n in served ==> (served[n].0.Shared? <==> n == shared)
  }

  /** The groups are readable, those of workloads canonical, and the OS group covers every
      cache. */
  ghost predicate Sound(host: Host, groups: map<string, Masks>, served: Served, shared: string) {
    && Tidy(host, groups, served) && SharedRight(served, shared)
    && OS_GROUP in groups && groups[OS_GROUP].Keys == host.servesOs.Keys
  }

  ghost predicate NamesRight(pool: Pool, n: nat, held: set<string>, served: Served) {
    Owned(pool, n, held) && served.Keys <= held
  }

  lemma Added(host: Host, groups: map<string, Masks>, served: Served, shared: string,
              name: string, masks: Masks, kind: PoolKind, req: Request)
    requires Sound(host, groups, served, shared) && TidyMasks(host, masks)
    requires NewGrant(host, AbsOf(host.cfg, groups, served, shared), Grant(kind, req, Views(host.cfg, masks)))
    requires name !in Reserved() && name !in groups && (kind.Shared? <==> name == shared)
    ensures var g, s, grant := groups[name := masks], served[name := (kind, req)], Grant(kind, req, Views(host.cfg, masks));
      && Sound(host, g, s, shared)
      && GrantsOf(host.cfg, g, s) == GrantsOf(host.cfg, groups, served)[name := grant]
      && EnforceStep(host, AbsOf(host.cfg, groups, served, shared), name, grant, AbsOf(host.cfg, g, s, shared))
  {
    CommittedTidy(host, groups, served, name, masks, kind, req);
    CommittedGrants(host.cfg, groups, served, name, masks, kind, req);
    CommittedShared(served, shared, name, kind, req);
    var before := AbsOf(host.cfg, groups, served, shared);
    var after := AbsOf(host.cfg, groups[name := masks], served[name := (kind, req)], shared);
    IsEnforceStep(host, before, name, Grant(kind, req, Views(host.cfg, masks)), after);
  }

  lemma CommittedShared(served: Served, shared: string, name: string, kind: PoolKind, req: Request)
    requires SharedRight(served, shared) && (kind.Shared? <==> name == shared)
    ensures SharedRight(served[name := (kind, req)], shared)
  {
  }

  lemma IsEnforceStep(host: Host, before: State, name: string, grant: Grant, after: State)
    requires name !in before.grants && NewGrant(host, before, grant) && (grant.kind.Shared? ==> before.shared.None?)
    requires after.grants == before.grants[name := grant]
    requires after.shared == if grant.kind.Shared? then Some(name) else before.shared
    ensures EnforceStep(host, before, name, grant, after)
  {
  }

  lemma Dropped(host: Host, groups: map<string, Masks>, served: Served, shared: string, name: string)
    requires Sound(host, groups, served, shared) && name in served && "" !in served
    ensures var g, s, left := groups - {name}, served - {name}, if name == shared then "" else shared;
      && Sound(host, g, s, left)
      && ReleaseStep(AbsOf(host.cfg, groups, served, shared), name, AbsOf(host.cfg, g, s, left))
  {
    Removed(host, groups, served, name);
  }

  lemma NothingServed(host: Host, reserved: map<string, Masks>)
    requires OS_GROUP in reserved && reserved.Keys <= Reserved()
    requires reserved[OS_GROUP].Keys == host.servesOs.Keys && GoodGroups(host.cfg, reserved, host.servesOs.Keys)
    ensures Sound(host, reserved, map[], "") && AbsOf(host.cfg, reserved, map[], "") == EMPTY
  {
    assert reserved.Keys - Reserved() == {};
    assert GrantsOf(host.cfg, reserved, map[]) == map[];
  }

  lemma PrintedTidy(host: Host, cand: map<nat, Bitmap>, masks: Masks)
    requires OnEveryCache(host, cand) && masks.Keys == cand.Keys
    requires forall k :: k in cand ==> masks[k] == HexText.Print(cand[k].words)
    ensures TidyMasks(host, masks)
    ensures Views(host.cfg, masks).Keys == cand.Keys
    ensures forall k :: k in cand ==> Views(host.cfg, masks)[k] == cand[k].View()
  {
    forall k | k in cand
      ensures CanonicalMask(host.cfg.width, masks[k]) && MaskView(host.cfg.width, masks[k]) == cand[k].View()
    {
      PrintedIsCanonical(cand[k]);
    }
  }

  lemma ChosenIsNewGrant(host: Host, st: State, req: Request, kind: PoolKind, cand: map<nat, Bitmap>, masks: Masks)
    requires AllChosen(host, st.grants, req, kind, cand) && KindOf(req) == Some(kind)
    requires masks.Keys == cand.Keys && forall k :: k in cand ==> masks[k] == HexText.Print(cand[k].words)
    ensures TidyMasks(host, masks) && NewGrant(host, st, Grant(kind, req, Views(host.cfg, masks)))
  {
    PrintedTidy(host, cand, masks);
  }

  lemma ClassNamesAreFresh(n: nat, name: string)
    requires name in Names(n)
    ensures name !in Reserved()
  {
    var i: nat :| 2 <= i < n && name == ClosName(i);
    assert name[3..] == Itoa(i);
    if name == INFRA_GROUP {
      assert Itoa(1) == "1" == name[3..];
      ItoaInjective(i, 1);
    }
  }

  /** None of the groups is one that shrinkBEPool selects. */
  lemma NoneSelected(n: nat, held: set<string>, served: Served, groups: map<string, Masks>)
    requires held <= Names(n) && served.Keys <= held && groups.Keys <= served.Keys + Reserved()
    ensures Shrink.SelectedNames(groups) == {}
  {
    forall name | name in groups ensures !Shrink.BestEffortName(name) {
      if name !in Reserved() {
        assert name in Names(n);
        var i: nat :| 2 <= i < n && name == ClosName(i);
        Shrink.ClassNotSelected(i);
      }
    }
  }

  lemma NamesAreNotEmpty(n: nat, held: set<string>, served: Served)
    requires held <= Names(n) && served.Keys <= held
    ensures "" !in served
  {
    if "" in served {
      NameIsProper(n, "");
    }
  }

  lemma UndoUpdate<K, V>(m: map<K, V>, k: K, v: V)
    requires k !in m
    ensures m[k := v] - {k} == m
  {
  }

  /** The first available name has gone to nobody. */
  ghost predicate Lost(held: set<string>, available: seq<string>, held': set<string>, available': seq<string>) {
    && available != [] && available[0] !in held
    && held' == held + {available[0]} && available' == available[1..]
  }

  /** Beside `name` and the OS group nothing is added, removed or rewritten. */
  ghost predicate OthersKept(before: map<string, Masks>, after: map<string, Masks>, name: string) {
    && after.Keys - {name} == before.Keys - {name}
    && forall n :: n in before && n != name && n != OS_GROUP ==> n in after && after[n] == before[n]
  }

  lemma RewrittenKeeps(before: map<string, Masks>, name: string, masks: Masks)
    requires name in before
    ensures before[name := masks].Keys == before.Keys && OthersKept(before, before[name := masks], name)
  {
  }

  lemma AddedKeeps(before: map<string, Masks>, added: map<string, Masks>, after: map<string, Masks>, name: string, masks: Masks)
    requires added == before[name := masks] && after.Keys == added.Keys && OthersKept(added, after, OS_GROUP)
    ensures OthersKept(before, after, name)
  {
    forall n | n in before && n != name && n != OS_GROUP ensures n in after && after[n] == before[n] {
      assert added[n] == before[n];
    }
  }

  lemma RemovedKeeps(before: map<string, Masks>, left: map<string, Masks>, after: map<string, Masks>, name: string)
    requires left == before - {name} && after.Keys == left.Keys && OthersKept(left, after, OS_GROUP)
    ensures OthersKept(before, after, name)
  {
    forall n | n in before && n != name && n != OS_GROUP ensures n in after && after[n] == before[n] {
      assert left[n] == before[n];
    }
  }

  class Platform {
    const host: Host
    const numClosids: nat
    const numPool: nat
    const pools: map<PoolKind, map<nat, Bitmap>>
    const clos: ClosPool

    /** The resource groups in use (the available classes are left out when the groups are
        read): the OS group, the infra group and one per class a workload holds. */
    var groups: map<string, Masks>
    ghost var served: Served
    ghost var held: set<string>

    ghost predicate Valid()
      reads this, clos
    {
      && GoodHost(host) && GoodPools(host, pools)
      && Sound(host, groups, served, clos.shared)
      && NamesRight(clos.State(), numPool, held, served)
    }

    ghost function Grants(): map<string, Grant>
      reads this
    {
      GrantsOf(host.cfg, groups, served)
    }

    /** The abstract state of module Allocation. */
    ghost function Abs(): State
      reads this, clos
    {
      AbsOf(host.cfg, groups, served, clos.shared)
    }

    /** The OS group is as the last successful request left it, and a class is unused. */
    ghost predicate OsCurrent()
      reads this, clos
    {
      |groups| < numClosids && OS_GROUP in groups && AllOsMasks(host, Grants(), groups[OS_GROUP])
    }

    constructor (host: Host, numClosids: nat, numPool: nat, pools: map<PoolKind, map<nat, Bitmap>>,
                 reserved: map<string, Masks>)
      requires GoodHost(host) && GoodPools(host, pools) && numPool >= 2
      requires OS_GROUP in reserved && reserved.Keys <= Reserved()
      requires reserved[OS_GROUP].Keys == host.servesOs.Keys && GoodGroups(host.cfg, reserved, host.servesOs.Keys)
      ensures Valid() && Abs() == EMPTY && held == {} && fresh(clos)
      ensures this.host == host && this.numClosids == numClosids && this.numPool == numPool && groups == reserved
      ensures this.pools == pools
    {
      this.host, this.numClosids, this.numPool, this.pools := host, numClosids, numPool, pools;
      clos := new ClosPool(numPool);
      groups := reserved;
      served := map[];
      held := {};
      new;
      InitialOwned(numPool);
      NothingServed(host, reserved);
    }

    /** SetOSGroup: the OS gets the low ways up to the first one in use. */
    method SetOSGroup() returns (ok: bool)
      requires Valid()
      modifies this`groups
      ensures Valid() && Abs() == old(Abs())
      ensures ok <==> |old(groups)| < numClosids
      ensures groups.Keys == old(groups.Keys) && (!ok ==> groups == old(groups))
      ensures ok ==> AllOsMasks(host, Grants(), groups[OS_GROUP])
      ensures OthersKept(old(groups), groups, OS_GROUP)
    {
      var masks := OsMasks(host, numClosids, groups, served);
      if masks.None? {
        return false;
      }
      OsIsGood(host, Grants(), masks.value);
      OsUpdated(host, groups, served, masks.value);
      RewrittenKeeps(groups, OS_GROUP, masks.value);
      groups := groups[OS_GROUP := masks.value];
      ok := true;
    }

    /** The class a request goes to: the shared one, or the first available. */
    method TakeClos(kind: PoolKind) returns (name: Option<string>)
      requires Valid()
      modifies this`held, clos
      ensures Valid() && Abs() == old(Abs())
      ensures name.None? <==> !(kind.Shared? && old(clos.shared) != "") && old(clos.available) == []
      ensures name.Some? ==> name.value !in Reserved()
      ensures held == if name.Some? then old(held) + {name.value} else old(held)
      ensures name.Some? ==> (name.value in old(held) <==> kind.Shared? && old(clos.shared) != "")
      ensures name.Some? && name.value !in old(held) ==> Lost(old(held), old(clos.available), held, clos.available)
      ensures name.Some? ==> (kind.Shared? <==> name.value == clos.shared)
      ensures name.Some? && name.value in groups ==> kind.Shared? && name.value in served
      ensures Joins(kind) == old(Joins(kind))
    {
      ghost var before := clos.State();
      if kind == Shared {
        ShareKeeps(before, numPool, held);
        UseKeeps(before, numPool, held);
        name := clos.GetSharedCLOS();
      } else {
        UseKeeps(before, numPool, held);
        name := clos.UseAvailableCLOS();
      }
      if name.Some? {
        held := held + {name.value};
        ClassNamesAreFresh(numPool, name.value);
      }
    }

    /** A shared request when the shared group exists already. */
    ghost predicate JoinsShared(req: Request)
      reads this, clos
    {
      KindOf(req) == Some(Shared) && Joins(Shared)
    }

    ghost predicate Joins(kind: PoolKind)
      reads this, clos
    {
      kind.Shared? && clos.shared in served
    }

    /** The pool is configured and has the ways on every cache the request wants. */
    ghost predicate Ready(req: Request, kind: PoolKind)
      reads this
    {
      kind in pools && |groups| < numClosids && Satisfiable(host, Grants(), req, kind)
    }

    /** A class is to be had and, as the code counts the groups once more after the commit, one
        class stays unused. */
    ghost predicate HasClass(kind: PoolKind)
      reads this, clos
    {
      Joins(kind) || (|groups| + 1 < numClosids && (clos.available != [] || (kind.Shared? && clos.shared != "")))
    }

    /** A class is to be had, but none stays unused. */
    ghost predicate LosesClass(kind: PoolKind)
      reads this, clos
    {
      |groups| + 1 >= numClosids && clos.available != [] && !(kind.Shared? && clos.shared != "")
    }

    /** When a request succeeds. */
    ghost predicate CanEnforce(req: Request)
      reads this, clos
    {
      var kind := KindOf(req);
      kind.Some? && Ready(req, kind.value) && HasClass(kind.value)
    }

    /** When a refused request keeps the class it took: everything was in order up to the count of
        the groups after the commit. */
    ghost predicate LeaksClass(req: Request)
      reads this, clos
    {
      var kind := KindOf(req);
      kind.Some? && Ready(req, kind.value) && LosesClass(kind.value)
    }

    /** Enforce: choose the ways, take a class, commit, and let the OS have the rest. A refused
        request changes no mask, but it may cost a class. */
    method Enforce(req: Request) returns (ok: bool, name: string)
      requires Valid() && req.maxWays < UINT32
      modifies this, clos
      ensures Valid() && Step(host, old(Abs()), Abs())
      ensures ok <==> old(CanEnforce(req))
      ensures !ok ==> Abs() == old(Abs()) && groups == old(groups) && served == old(served)
      ensures !ok ==> (held != old(held) <==> old(LeaksClass(req)))
      ensures !ok && old(LeaksClass(req)) ==> Lost(old(held), old(clos.available), held, clos.available)
      ensures ok ==> |groups| < numClosids
      ensures ok ==> name in Grants() && KindOf(req) == Some(Grants()[name].kind) && RightKind(req, Grants()[name].kind)
      ensures req.minWays > req.maxWays || req.minWays == 0 < req.maxWays ==> !ok && held == old(held)
      ensures ok ==> AllOsMasks(host, Grants(), groups[OS_GROUP])
      ensures ok ==> OthersKept(old(groups), groups, name)
      ensures ok && old(JoinsShared(req)) ==> Abs() == old(Abs()) && Some(name) == Abs().shared
      ensures ok && !old(JoinsShared(req)) ==> EnforceStep(host, old(Abs()), name, Grants()[name], Abs()) && Grants()[name].req == req
    {
      var kind := KindOf(req);
      KindOfByNumbers(req);
      if kind.None? {
        return false, "";
      }
      assert RightKind(req, kind.value);
      NoneSelected(numPool, held, served, groups);
      var candidate := EnforceCache(host, numClosids, pools, groups, served, req, kind.value);
      if candidate.None? {
        return false, "";
      }
      ok, name := EnforceRDT(req, kind.value, candidate.value);
    }

    /** enforceRDT: take a class for the candidate, commit it and reset the OS group. On failure
        the code returns the class name the workload has, which is still empty, and not the one it
        took. */
    method EnforceRDT(req: Request, kind: PoolKind, candidate: map<nat, Bitmap>) returns (ok: bool, name: string)
      requires Valid() && KindOf(req) == Some(kind) && |groups| < numClosids
      requires AllChosen(host, Grants(), req, kind, candidate)
      modifies this, clos
      ensures Valid() && (ok <==> old(HasClass(kind)))
      ensures !ok ==> Abs() == old(Abs()) && groups == old(groups) && served == old(served)
      ensures !ok ==> if old(LosesClass(kind)) then Lost(old(held), old(clos.available), held, clos.available) else held == old(held)
      ensures ok ==> |groups| < numClosids
      ensures ok ==> name in Grants() && Grants()[name].kind == kind
      ensures ok ==> AllOsMasks(host, Grants(), groups[OS_GROUP])
      ensures ok ==> OthersKept(old(groups), groups, name)
      ensures ok && old(Joins(kind)) ==> Abs() == old(Abs()) && Some(name) == Abs().shared
      ensures ok && !old(Joins(kind)) ==> EnforceStep(host, old(Abs()), name, Grants()[name], Abs()) && Grants()[name].req == req
    {
      var taken := TakeClos(kind);
      if taken.None? {
        return false, "";
      }
      name := taken.value;
      ok := EnterClass(name, req, kind, candidate);
      if !ok && kind != Shared {
        ReturnUnnamed();
      }
    }

    /** Returning the class of a workload that has none is an error that is ignored. */
    method ReturnUnnamed()
      requires Valid()
      modifies clos
      ensures Valid() && Abs() == old(Abs()) && clos.available == old(clos.available)
    {
      var returned := clos.ReturnClos("");
      assert clos.State() == old(clos.State());
    }

    /** The class is at hand: join the shared group, or commit a new one. */
    method EnterClass(name: string, req: Request, kind: PoolKind, candidate: map<nat, Bitmap>) returns (ok: bool)
      requires Valid() && KindOf(req) == Some(kind) && |groups| < numClosids
      requires AllChosen(host, Grants(), req, kind, candidate)
      requires name !in Reserved() && name in held && (kind.Shared? <==> name == clos.shared)
      requires name in groups ==> kind.Shared? && name in served
      modifies this`groups, this`served
      ensures Valid() && (ok <==> old(Joins(kind)) || |old(groups)| + 1 < numClosids)
      ensures !ok ==> groups == old(groups) && served == old(served)
      ensures ok ==> |groups| < numClosids && AllOsMasks(host, Grants(), groups[OS_GROUP])
      ensures ok ==> name in Grants() && Grants()[name].kind == kind
      ensures ok ==> OthersKept(old(groups), groups, name)
      ensures ok && old(Joins(kind)) ==> Abs() == old(Abs()) && Some(name) == Abs().shared
      ensures ok && !old(Joins(kind)) ==> EnforceStep(host, old(Abs()), name, Grants()[name], Abs()) && Grants()[name].req == req
    {
      if kind == Shared && name in groups {
        ok := SetOSGroup();
      } else {
        ok := CommitCandidate(name, req, kind, candidate);
      }
    }

    method CommitCandidate(name: string, req: Request, kind: PoolKind, candidate: map<nat, Bitmap>) returns (ok: bool)
      requires Valid() && KindOf(req) == Some(kind) && AllChosen(host, Grants(), req, kind, candidate)
      requires name !in Reserved() && name !in groups && name in held && (kind.Shared? <==> name == clos.shared)
      modifies this`groups, this`served
      ensures Valid() && (ok <==> |old(groups)| + 1 < numClosids)
      ensures !ok ==> groups == old(groups) && served == old(served)
      ensures ok ==> |groups| < numClosids && AllOsMasks(host, Grants(), groups[OS_GROUP])
      ensures ok ==> name in Grants() && Grants()[name].kind == kind && Grants()[name].req == req
      ensures ok ==> EnforceStep(host, old(Abs()), name, Grants()[name], Abs()) && OthersKept(old(groups), groups, name)
    {
      var masks := CandidateTexts(candidate);
      ChosenIsNewGrant(host, Abs(), req, kind, candidate, masks);
      ok := Commit(name, req, kind, masks);
    }

    /** The commit of a new class and the OS group after it; when the latter fails the class's
        group is destroyed again. */
    method Commit(name: string, req: Request, kind: PoolKind, masks: Masks) returns (ok: bool)
      requires Valid() && TidyMasks(host, masks)
      requires NewGrant(host, Abs(), Grant(kind, req, Views(host.cfg, masks)))
      requires name !in Reserved() && name !in groups && name in held && (kind.Shared? <==> name == clos.shared)
      modifies this`groups, this`served
      ensures Valid() && (ok <==> |old(groups)| + 1 < numClosids)
      ensures !ok ==> groups == old(groups) && served == old(served)
      ensures ok ==> |groups| < numClosids
      ensures ok ==> name in Grants() && Grants()[name] == Grant(kind, req, Views(host.cfg, masks))
      ensures ok ==> EnforceStep(host, old(Abs()), name, Grants()[name], Abs()) && OthersKept(old(groups), groups, name)
      ensures ok ==> AllOsMasks(host, Grants(), groups[OS_GROUP])
    {
      ghost var groups0, served0 := groups, served;
      assert Sound(host, groups0, served0, clos.shared) && NamesRight(clos.State(), numPool, held, served0);
      AddGroup(name, req, kind, masks);
      ghost var added := groups;
      ok := SetOSGroup();
      if ok {
        AddedKeeps(groups0, added, groups, name, masks);
      } else {
        RemoveGroup(name, groups0, served0);
      }
    }

    /** Destroying a group that was just added. */
    method RemoveGroup(name: string, ghost groups0: map<string, Masks>, ghost served0: Served)
      requires name in groups && name in served && name !in groups0 && name !in served0
      requires groups == groups0[name := groups[name]] && served == served0[name := served[name]]
      modifies this`groups, this`served
      ensures groups == groups0 && served == served0
    {
      UndoUpdate(groups0, name, groups[name]);
      UndoUpdate(served0, name, served[name]);
      groups := groups - {name};
      served := served - {name};
    }

    method AddGroup(name: string, req: Request, kind: PoolKind, masks: Masks)
      requires Valid() && TidyMasks(host, masks)
      requires NewGrant(host, Abs(), Grant(kind, req, Views(host.cfg, masks)))
      requires name !in Reserved() && name !in groups && name in held && (kind.Shared? <==> name == clos.shared)
      modifies this`groups, this`served
      ensures Valid() && groups == old(groups)[name := masks] && served == old(served)[name := (kind, req)]
      ensures name in Grants() && Grants()[name] == Grant(kind, req, Views(host.cfg, masks))
      ensures EnforceStep(host, old(Abs()), name, Grants()[name], Abs())
    {
      Added(host, groups, served, clos.shared, name, masks, kind, req);
      groups := groups[name := masks];
      served := served[name := (kind, req)];
    }

    /** Release of a class whose last workload leaves: its name goes back to the pool and the OS
        group grows again. */
    method Release(name: string) returns (ok: bool)
      requires Valid() && name in served
      modifies this, clos
      ensures Valid() && ReleaseStep(old(Abs()), name, Abs())
      ensures name !in groups && name in clos.available
      ensures ok <==> |old(groups)| - 1 < numClosids
      ensures ok <==> |groups| < numClosids
      ensures ok ==> AllOsMasks(host, Grants(), groups[OS_GROUP])
      ensures OthersKept(old(groups), groups, name)
    {
      ReturnKeeps(clos.State(), numPool, held, name);
      NamesAreNotEmpty(numPool, held, served);
      Dropped(host, groups, served, clos.shared, name);
      var returned := clos.ReturnClos(name);
      held := held - {name};
      ghost var before := groups;
      groups := groups - {name};
      served := served - {name};
      ghost var left := groups;
      ok := SetOSGroup();
      RemovedKeeps(before, left, groups, name);
    }
  }

  datatype Op = EnforceOp(req: Request) | ReleaseOp(name: string)

  /** On every cache with OS CPUs the OS mask, as text, holds the reserved ways and shares none
      with a class. */
  ghost predicate OsTextsApart(host: Host, grants: map<string, Grant>, masks: Masks) {
    forall k :: k in masks && host.ServesOs(k) ==>
      && Interval(0, host.cfg.osWays) <= MaskView(host.cfg.width, masks[k])
      && TextApart(host, grants, k, masks[k])
  }

  ghost predicate TextApart(host: Host, grants: map<string, Grant>, k: nat, mask: string) {
    forall name :: name in grants && Uses(host, grants[name], k) ==>
      grants[name].masks[k] !! MaskView(host.cfg.width, mask)
  }

  lemma OsTextsAreApart(host: Host, run: seq<State>, t: nat, grants: map<string, Grant>, masks: Masks)
    requires host.Valid() && Allocation.IsRun(host, run) && t < |run| && run[t].grants == grants
    requires AllOsMasks(host, grants, masks)
    ensures OsTextsApart(host, grants, masks)
  {
    forall k | k in masks && host.ServesOs(k)
      ensures Interval(0, host.cfg.osWays) <= MaskView(host.cfg.width, masks[k]) && TextApart(host, grants, k, masks[k])
    {
      assert OsMask(host, grants, k, masks[k]);
      var n: nat :| OsLimit(host, grants, k, n) && MaskView(host.cfg.width, masks[k]) == Interval(0, n);
      OsGroupSafe(host, run, t, k, n);
    }
  }

  /** `run` is a run of module Allocation that ends in `st`. */
  ghost predicate Reaches(host: Host, run: seq<State>, st: State) {
    |run| >= 1 && Allocation.IsRun(host, run) && run[|run| - 1] == st
  }

  /** What is known of a run says what is known of the state it ends in. */
  lemma ReachedState(host: Host, run: seq<State>, st: State)
    requires host.Valid() && Reaches(host, run, st)
    ensures Right(host, st) && (ExclusiveThroughout(host, run) <==> NeverSqueezes(host, run))
    ensures !CanSqueeze(host) || NeverSqueezes(host, run) ==> Exclusive(host, st)
  {
    var t := |run| - 1;
    assert run[t] == st;
    EveryRunIsRight(host, run, t);
    RunExclusiveIff(host, run);
    if NeverSqueezes(host, run) {
      ExclusiveSoFar(host, run, t);
    } else if !CanSqueeze(host) {
      EveryRunIsExclusive(host, run, t);
    }
  }

  /** What one answer means: a request that succeeds takes a class for it, or joins the shared one, a
      release that succeeds gives its class back, and a refusal changes no class. */
  ghost predicate Answered(host: Host, st: State, op: Op, ok: bool, next: State) {
    if !ok then next == st
    else
      match op
      case EnforceOp(req) =>
        || (req.maxWays == req.minWays == 0 && st.shared.Some? && next == st)
        || (exists name: string, g: Grant :: EnforceStep(host, st, name, g, next) && g.req == req)
      case ReleaseOp(name) => ReleaseStep(st, name, next)
  }

  ghost predicate AllAnswered(host: Host, run: seq<State>, ops: seq<Op>, oks: seq<bool>, n: nat) {
    && |run| == n + 1 && |oks| == n <= |ops|
    && forall i :: 0 <= i < n ==> Answered(host, run[i], ops[i], oks[i], run[i + 1])
  }

  lemma OneMoreAnswer(host: Host, run: seq<State>, ops: seq<Op>, oks: seq<bool>, n: nat, ok: bool, next: State)
    requires AllAnswered(host, run, ops, oks, n) && n < |ops| && Answered(host, run[n], ops[n], ok, next)
    ensures AllAnswered(host, run + [next], ops, oks + [ok], n + 1)
  {
    var run', oks' := run + [next], oks + [ok];
    forall i | 0 <= i < n + 1 ensures Answered(host, run'[i], ops[i], oks'[i], run'[i + 1]) {
      if i < n {
        assert Answered(host, run[i], ops[i], oks[i], run[i + 1]);
      }
    }
  }

  /** Serving any sequence of requests from an empty platform is a run of module Allocation, so
      everything proved of every run holds of the object after every request; and once one has
      succeeded, the OS group is up to date and clear of the classes. */
  method Serve(p: Platform, ops: seq<Op>) returns (oks: seq<bool>, ghost run: seq<State>)
    requires p.Valid() && p.Abs() == EMPTY
    requires forall i :: 0 <= i < |ops| && ops[i].EnforceOp? ==> ops[i].req.maxWays < UINT32
    modifies p, p.clos
    ensures p.Valid() && Reaches(p.host, run, p.Abs()) && AllAnswered(p.host, run, ops, oks, |ops|)
    ensures Right(p.host, p.Abs())
    ensures ExclusiveThroughout(p.host, run) <==> NeverSqueezes(p.host, run)
    ensures !CanSqueeze(p.host) || NeverSqueezes(p.host, run) ==> Exclusive(p.host, p.Abs())
    ensures true in oks ==> OsTextsApart(p.host, p.Grants(), p.groups[OS_GROUP])
    ensures true in oks ==> AllOsMasks(p.host, p.Grants(), p.groups[OS_GROUP])
    ensures true !in oks ==> p.Abs() == EMPTY
  {
    var any;
    oks, any, run := ServeAll(p, ops);
    ReachedState(p.host, run, p.Abs());
    if any {
      OsTextsAreApart(p.host, run, |run| - 1, p.Grants(), p.groups[OS_GROUP]);
    }
  }

  method ServeAll(p: Platform, ops: seq<Op>) returns (oks: seq<bool>, any: bool, ghost run: seq<State>)
    requires p.Valid() && p.Abs() == EMPTY
    requires forall i :: 0 <= i < |ops| && ops[i].EnforceOp? ==> ops[i].req.maxWays < UINT32
    modifies p, p.clos
    ensures p.Valid() && Reaches(p.host, run, p.Abs()) && AllAnswered(p.host, run, ops, oks, |ops|)
    ensures any <==> true in oks
    ensures if any then p.OsCurrent() else p.Abs() == EMPTY
  {
    run, oks, any := [EMPTY], [], false;
    for i := 0 to |ops|
      invariant p.Valid() && Reaches(p.host, run, p.Abs()) && AllAnswered(p.host, run, ops, oks, i)
      invariant any <==> true in oks
      invariant if any then p.OsCurrent() else p.Abs() == EMPTY && p.served == map[]
    {
      var ok := ServeOne(p, ops[i]);
      OneMoreAnswer(p.host, run, ops, oks, i, ok, p.Abs());
      oks, any := oks + [ok], any || ok;
      run := ExtendRun(p.host, run, p.Abs());
    }
  }

  /** One request; releasing a class that is not in use is refused. */
  method ServeOne(p: Platform, op: Op) returns (ok: bool)
    requires p.Valid() && (p.OsCurrent() || p.served == map[])
    requires op.EnforceOp? ==> op.req.maxWays < UINT32
    modifies p, p.clos
    ensures p.Valid() && Allocation.Step(p.host, old(p.Abs()), p.Abs())
    ensures Answered(p.host, old(p.Abs()), op, ok, p.Abs())
    ensures op.EnforceOp? ==> (ok <==> old(p.CanEnforce(op.req)))
    ensures op.ReleaseOp? ==> (ok <==> op.name in old(p.groups) && op.name !in Reserved())
    ensures ok ==> p.OsCurrent()
    ensures !ok ==> p.Abs() == old(p.Abs()) && p.served == old(p.served) && (old(p.OsCurrent()) ==> p.OsCurrent())
  {
    match op {
      case EnforceOp(req) =>
        var name;
        ok, name := p.Enforce(req);
      case ReleaseOp(name) =>
        if name !in p.groups || name in Reserved() {
          return false;
        }
        ok := p.Release(name);
    }
  }

  ghost function ExtendRun(host: Host, run: seq<State>, next: State): (r: seq<State>)
    requires |run| >= 1 && Allocation.IsRun(host, run) && Allocation.Step(host, run[|run| - 1], next)
    ensures Reaches(host, r, next) && r == run + [next]
  {
    run + [next]
  }

  // ----- what refusals cost -----

  /** A platform with one class to spare loses it to a request it refuses: on any fresh platform
      with a guaranteed pool, already to the first one. */
  method LostClass(p: Platform) returns (ok: bool)
    requires p.Valid() && p.Abs() == EMPTY && p.held == {} && p.numPool >= 3
    requires |p.groups| + 1 == p.numClosids && 0 < p.host.cfg.guarantee
    modifies p, p.clos
    ensures p.Valid() && !ok && p.groups == old(p.groups) && p.held != {}
  {
    var req := WholeRequest(Guarantee, p.host.cfg.guarantee);
    SomeAvailable(p.clos.State(), p.numPool);
    WholeIsSatisfiable(p.host, p.Grants());
    assert p.LeaksClass(req);
    var name;
    ok, name := p.Enforce(req);
  }

  lemma SomeAvailable(pool: Pool, n: nat)
    requires Owned(pool, n, {}) && n >= 3
    ensures pool.available != []
  {
    assert ClosName(2) in Names(n);
    assert ClosName(2) in pool.available;
  }

  lemma WholeIsSatisfiable(host: Host, grants: map<string, Grant>)
    requires host.Valid() && host.cfg.guarantee > 0 && grants == map[]
    ensures Satisfiable(host, grants, WholeRequest(Guarantee, host.cfg.guarantee), Guarantee)
  {
    forall k | k in host.servesOs ensures !NoBlock(Free(host, grants, Guarantee, k), host.cfg.guarantee) {
      NothingOccupied(host, host.Window(Guarantee, k), k);
      assert Fits(host.Window(Guarantee, k), host.cfg.Start(Guarantee, host.ServesOs(k)), host.cfg.guarantee);
    }
  }

  /** And nothing brings such classes back: the same request, repeated, uses up every class there
      is without any of them being used. */
  method RefusalsDrainClasses(p: Platform, req: Request)
    requires p.Valid() && req.maxWays < UINT32 && p.LeaksClass(req)
    requires KindOf(req) != Some(Shared)
    modifies p, p.clos
    ensures p.Valid() && p.clos.available == [] && p.held == Names(p.numPool)
    ensures p.groups == old(p.groups) && p.served == old(p.served)
  {
    while p.clos.available != []
      invariant p.Valid() && p.groups == old(p.groups) && p.served == old(p.served)
      invariant p.clos.available != [] ==> p.LeaksClass(req)
      decreases |p.clos.available|
    {
      var ok, name := p.Enforce(req);
    }
    AllHeld(p.clos.State(), p.numPool, p.held);
  }

  lemma AllHeld(pool: Pool, n: nat, held: set<string>)
    requires Owned(pool, n, held) && pool.available == []
    ensures held == Names(n)
  {
    forall x | x in Names(n) ensures x in held {
      assert x !in pool.available;
    }
  }

  // ----- from the configuration -----

  /** For every cache, whether it serves CPUs of the OS. */
  method CachesServingOs(osCpus: Bitmap, caches: map<nat, Bitmap>) returns (servesOs: map<nat, bool>)
    requires GoodCaches(caches, osCpus)
    ensures servesOs.Keys == caches.Keys && forall k :: k in caches ==> servesOs[k] == ServesOs(osCpus, caches[k])
  {
    servesOs := map[];
    var todo := caches.Keys;
    while todo != {}
      invariant todo <= caches.Keys && servesOs.Keys == caches.Keys - todo
      invariant forall k :: k in servesOs ==> servesOs[k] == ServesOs(osCpus, caches[k])
    {
      var k :| k in todo;
      todo := todo - {k};
      var shared := osCpus.And(caches[k]);
      var empty := shared.IsEmpty();
      servesOs := servesOs[k := !empty];
    }
  }

  ghost predicate GoodConfig(cfg: Config, osCpus: Bitmap, caches: map<nat, Bitmap>) {
    1 <= cfg.width <= 32 && 1 <= cfg.osWays && cfg.cbmMask == Format(Ones(cfg.width), 16) && GoodCaches(caches, osCpus)
  }

  ghost predicate GoodReserved(cfg: Config, caches: map<nat, Bitmap>, reserved: map<string, Masks>) {
    && OS_GROUP in reserved && reserved.Keys <= Reserved()
    && reserved[OS_GROUP].Keys == caches.Keys && GoodGroups(cfg, reserved, caches.Keys)
  }

  /** A platform with the pools laid out for the configuration, or none exactly when the layout is
      refused. */
  method Boot(cfg: Config, shrink: bool, osCpus: Bitmap, caches: map<nat, Bitmap>, numClosids: nat, numPool: nat,
              reserved: map<string, Masks>) returns (p: Platform?)
    requires GoodConfig(cfg, osCpus, caches) && GoodReserved(cfg, caches, reserved) && numPool >= 2
    ensures p == null <==> !cfg.Accepted()
    ensures p != null ==> fresh(p) && fresh(p.clos) && p.Valid() && p.Abs() == EMPTY && p.held == {}
    ensures p != null ==> p.host.cfg == cfg && p.host.shrink == shrink && p.host.servesOs.Keys == caches.Keys
    ensures p != null ==> forall k :: k in caches ==> p.host.servesOs[k] == ServesOs(osCpus, caches[k])
    ensures p != null ==> p.numClosids == numClosids && p.numPool == numPool && p.groups == reserved
    ensures p != null ==> forall kind :: kind in p.pools <==> cfg.Size(kind) > 0
  {
    var pools := GetCachePoolLayout(cfg, osCpus, caches);
    if pools.None? {
      return null;
    }
    var servesOs := CachesServingOs(osCpus, caches);
    var host := Host(cfg, servesOs, shrink);
    LayoutIsGood(host, osCpus, caches, pools.value);
    p := new Platform(host, numClosids, numPool, pools.value, reserved);
  }

  /** All of it together: an accepted configuration, laid out and then served any requests, keeps
      every class right; it keeps them exclusive unless shrinking is on and some best-effort
      workload was squeezed in. */
  method BootAndServe(cfg: Config, shrink: bool, osCpus: Bitmap, caches: map<nat, Bitmap>, numClosids: nat, numPool: nat,
                      reserved: map<string, Masks>, ops: seq<Op>) returns (p: Platform?, ghost run: seq<State>)
    requires GoodConfig(cfg, osCpus, caches) && GoodReserved(cfg, caches, reserved) && numPool >= 2
    requires forall i :: 0 <= i < |ops| && ops[i].EnforceOp? ==> ops[i].req.maxWays < UINT32
    ensures p == null <==> !cfg.Accepted()
    ensures p != null ==> p.Valid() && p.host.cfg == cfg && Reaches(p.host, run, p.Abs()) && Right(p.host, p.Abs())
    ensures p != null && (!shrink || NeverSqueezes(p.host, run)) ==> Exclusive(p.host, p.Abs())
  {
    run := [];
    p := Boot(cfg, shrink, osCpus, caches, numClosids, numPool, reserved);
    if p != null {
      var oks;
      oks, run := Serve(p, ops);
    }
  }
}
