/** The pool of classes of service (utils/pqos/pqos.go): which class names are available, which
    are used, and which one is shared. */
module ClosPools {
  import opened Text

  function ClosName(i: nat): string {
    "COS" + Itoa(i)
  }

  /** COS2 .. COS(n-1); COS0 and COS1 are reserved. */
  ghost function Names(n: nat): set<string> {
    set i: nat | 2 <= i < n :: ClosName(i)
  }

  // ----- the operations as functions of the three package variables -----

  datatype Pool = Pool(available: seq<string>, used: seq<string>, shared: string)

  /** The position of the first occurrence, or the length. */
  function IndexOf(s: seq<string>, x: string): (i: nat)
    ensures i <= |s| && (i == |s| <==> x !in s) && (i < |s| ==> s[i] == x)
    ensures forall j :: 0 <= j < i ==> s[j] != x
  {
    if s == [] || s[0] == x then 0 else 1 + IndexOf(s[1..], x)
  }

  function Without(s: seq<string>, i: nat): seq<string>
    requires i < |s|
  {
    s[..i] + s[i + 1..]
  }

  function Use(p: Pool): (Pool, Option<string>) {
    if |p.available| < 1 then (p, None)
    else (Pool(p.available[1..], p.used + [p.available[0]], p.shared), Some(p.available[0]))
  }

  function Return(p: Pool, name: string): (Pool, bool) {
    if !("COS" <= name) then (p, false)
    else if name == p.shared then (Pool(p.available + [name], p.used, ""), true)
    else
      var i := IndexOf(p.used, name);
      if i == |p.used| then (p, false)
      else (Pool(p.available + [name], Without(p.used, i), p.shared), true)
  }

  function Share(p: Pool): (Pool, Option<string>) {
    if p.shared != "" then (p, Some(p.shared))
    else
      var (q, r) := Use(p);
      if r.None? then (p, None) else (q.(shared := r.value), r)
  }

  function Mark(p: Pool, name: string): (Pool, bool) {
    if !("COS" <= name) then (p, false)
    else
      var i := IndexOf(p.available, name);
      if i == |p.available| then (p, false)
      else (Pool(Without(p.available, i), p.used + [name], p.shared), true)
  }

  /** `after` is `before` without its first `x`; the others keep their order. */
  ghost predicate TakenOut(before: seq<string>, x: string, after: seq<string>) {
    exists i :: 0 <= i < |before| && before[i] == x && x !in before[..i] && after == before[..i] + before[i + 1..]
  }

  // ----- the imperative pool -----

  class ClosPool {
    var available: seq<string>
    var used: seq<string>
    var shared: string

    function State(): Pool
      reads this
    {
      Pool(available, used, shared)
    }

    /** InitCLOSPool. */
    constructor (numOfClos: nat)
      requires numOfClos >= 2
      ensures State() == Initial(numOfClos)
      ensures |available| == numOfClos - 2 && forall j :: 0 <= j < |available| ==> available[j] == "COS" + Itoa(j + 2)
      ensures used == [] && shared == ""
    {
      var names: seq<string> := [];
      var index := 2;
      while index < numOfClos
        invariant index == |names| + 2 && index <= numOfClos
        invariant forall j :: 0 <= j < |names| ==> names[j] == ClosName(j + 2)
      {
        names := names + ["COS" + Itoa(index)];
        index := index + 1;
      }
      assert names == Initial(numOfClos).available;
      available, used, shared := names, [], "";
    }

    method UseAvailableCLOS() returns (r: Option<string>)
      modifies this
      ensures (State(), r) == Use(old(State()))
      ensures r.None? <==> old(available) == []
      ensures r.Some? ==> old(available) == [r.value] + available && used == old(used) + [r.value] && shared == old(shared)
    {
      if |available| < 1 {
        return None;
      }
      var result := available[0];
      available := available[1..];
      used := used + [result];
      r := Some(result);
    }

    method ReturnClos(name: string) returns (ok: bool)
      modifies this
      ensures (State(), ok) == Return(old(State()), name)
      ensures ok <==> "COS" <= name && (name == old(shared) || name in old(used))
      ensures available == if ok then old(available) + [name] else old(available)
      ensures shared == if ok && name == old(shared) then "" else old(shared)
      ensures if ok && name != old(shared) then TakenOut(old(used), name, used) else used == old(used)
    {
      if name == "" || !("COS" <= name) {
        return false;
      }
      if name == shared {
        shared := "";
        available := available + [name];
        return true;
      }
      var index := 0;
      var found := false;
      while index < |used|
        invariant State() == old(State()) && !found
        invariant 0 <= index <= |used|
        invariant forall j :: 0 <= j < index ==> used[j] != name
      {
        if used[index] == name {
          found := true;
          break;
        }
        index := index + 1;
      }
      if !found {
        return false;
      }
      FirstIndex(used, name, index);
      available := available + [name];
      if index == 0 {
        assert used[..0] + used[1..] == used[1..];
        used := used[1..];
      } else if index == |used| - 1 {
        assert used[..index] + used[index + 1..] == used[..index];
        used := used[..index];
      } else {
        used := used[..index] + used[index + 1..];
      }
      ok := true;
    }

    method GetSharedCLOS() returns (r: Option<string>)
      modifies this
      ensures (State(), r) == Share(old(State()))
      ensures old(shared) != "" ==> r == Some(old(shared)) && State() == old(State())
      ensures old(shared) == "" ==> (r.None? <==> old(available) == [])
      ensures old(shared) == "" && r.Some? && r.value != "" ==>
        old(available) == [r.value] + available && used == old(used) + [r.value] && shared == r.value
    {
      if shared == "" {
        var newShared := UseAvailableCLOS();
        if newShared.None? {
          return None;
        }
        shared := newShared.value;
      }
      r := Some(shared);
    }

    method MarkCLOSasUsed(name: string) returns (ok: bool)
      modifies this
      ensures (State(), ok) == Mark(old(State()), name)
      ensures ok <==> "COS" <= name && name in old(available)
      ensures used == (if ok then old(used) + [name] else old(used)) && shared == old(shared)
      ensures if ok then TakenOut(old(available), name, available) else available == old(available)
    {
      if !("COS" <= name) {
        return false;
      }
      var index := -1;
      for idx := 0 to |available|
        invariant State() == old(State())
        invariant index == -1
        invariant forall j :: 0 <= j < idx ==> available[j] != name
      {
        if available[idx] == name {
          index := idx;
          break;
        }
      }
      if index == -1 {
        return false;
      }
      FirstIndex(available, name, index);
      used := used + [name];
      if index == 0 {
        assert available[..0] + available[1..] == available[1..];
        available := available[1..];
      } else if index == |available| - 1 {
        assert available[..index] + available[index + 1..] == available[..index];
        available := available[..index];
      } else {
        available := available[..index] + available[index + 1..];
      }
      ok := true;
    }
  }

  lemma FirstIndex(s: seq<string>, x: string, i: nat)
    requires i < |s| && s[i] == x && forall j :: 0 <= j < i ==> s[j] != x
    ensures IndexOf(s, x) == i
  {
  }

  // ----- ownership over whole runs -----

  function Initial(n: nat): Pool {
    Pool(seq(if n < 2 then 0 else n - 2, j requires j >= 0 => ClosName(j + 2)), [], "")
  }

  ghost predicate Distinct(s: seq<string>) {
    forall i, j :: 0 <= i < j < |s| ==> s[i] != s[j]
  }

  /** `held` is who holds what: the available names are exactly the others, each once. */
  ghost predicate Owned(p: Pool, n: nat, held: set<string>) {
    && Distinct(p.available)
    && held <= Names(n)
    && (forall x :: x in p.available <==> x in Names(n) - held)
    && (forall x :: x in held ==> x in p.used)
    && (forall x :: x in p.used ==> x in Names(n))
    && (p.shared != "" ==> p.shared in held)
  }

  datatype Op = UseOp | ReturnOp(name: string) | ShareOp | MarkOp(name: string)

  function Exec(p: Pool, op: Op): Pool {
    match op
    case UseOp => Use(p).0
    case ReturnOp(name) => Return(p, name).0
    case ShareOp => Share(p).0
    case MarkOp(name) => Mark(p, name).0
  }

  /** Who holds what after an operation. */
  ghost function HeldAfter(p: Pool, held: set<string>, op: Op): set<string> {
    match op
    case UseOp => if Use(p).1.Some? then held + {Use(p).1.value} else held
    case ReturnOp(name) => held - {name}
    case ShareOp => if Share(p).1.Some? then held + {Share(p).1.value} else held
    case MarkOp(name) => if Mark(p, name).1 then held + {name} else held
  }

  /** A caller returns a name it holds, or one the pool does not list as used. */
  ghost predicate Permitted(p: Pool, held: set<string>, op: Op) {
    op.ReturnOp? ==> op.name in held || op.name !in p.used
  }

  lemma NameIsProper(n: nat, x: string)
    requires x in Names(n)
    ensures "COS" <= x && x != ""
  {
  }

  lemma InitialOwned(n: nat)
    ensures Owned(Initial(n), n, {})
  {
    var p := Initial(n);
    forall i, j | 0 <= i < j < |p.available| ensures p.available[i] != p.available[j] {
      if ClosName(i + 2) == ClosName(j + 2) {
        assert ClosName(i + 2)[3..] == Itoa(i + 2) && ClosName(j + 2)[3..] == Itoa(j + 2);
        ItoaInjective(i + 2, j + 2);
      }
    }
    forall x | x in Names(n) ensures x in p.available {
      var i: nat :| 2 <= i < n && x == ClosName(i);
      assert p.available[i - 2] == x;
    }
  }

  lemma UseKeeps(p: Pool, n: nat, held: set<string>)
    requires Owned(p, n, held)
    ensures var (q, r) := Use(p);
      && Owned(q, n, if r.Some? then held + {r.value} else held)
      && (r.Some? ==> r.value in Names(n) - held)
      && (r.None? <==> held == Names(n))
  {
    if |p.available| >= 1 {
      var x := p.available[0];
      assert x in p.available;
      var q := Use(p).0;
      assert p.available == [x] + q.available;
      forall y ensures y in q.available <==> y in Names(n) - (held + {x}) {
        assert y in p.available <==> y in Names(n) - held;
        if y in q.available {
          var j :| 0 <= j < |q.available| && q.available[j] == y;
          assert p.available[j + 1] == y;
        }
      }
    } else {
      forall x | x in Names(n) ensures x in held {
        assert x !in p.available;
      }
    }
  }

  lemma WithoutMembers(s: seq<string>, i: nat)
    requires i < |s|
    ensures forall x :: x in s <==> x == s[i] || x in Without(s, i)
    ensures Distinct(s) ==> Distinct(Without(s, i)) && s[i] !in Without(s, i)
  {
    var r := Without(s, i);
    forall x | x in s && x != s[i] ensures x in r {
      var j :| 0 <= j < |s| && s[j] == x;
      assert x == if j < i then r[j] else r[j - 1];
    }
  }

  lemma MarkKeeps(p: Pool, n: nat, held: set<string>, name: string)
    requires Owned(p, n, held)
    ensures Owned(Mark(p, name).0, n, HeldAfter(p, held, MarkOp(name)))
    ensures Mark(p, name).1 <==> name in Names(n) - held
  {
    if name in p.available {
      NameIsProper(n, name);
      WithoutMembers(p.available, IndexOf(p.available, name));
    }
  }

  /** Giving a name back keeps the ownership straight exactly when the caller is permitted to:
      a name that is listed as used but not held (the shared class leaves such an entry behind)
      would become available twice. */
  lemma ReturnKeeps(p: Pool, n: nat, held: set<string>, name: string)
    requires Owned(p, n, held)
    ensures Permitted(p, held, ReturnOp(name)) <==> Owned(Return(p, name).0, n, held - {name})
    ensures name in held ==> Return(p, name).1
  {
    var q := Return(p, name).0;
    if name in held {
      NameIsProper(n, name);
      HeldReturn(p, n, held, name);
    } else if name in p.used {
      NameIsProper(n, name);
      assert name in p.available && name != p.shared;
      var i :| 0 <= i < |p.available| && p.available[i] == name;
      assert q.available[i] == q.available[|p.available|] == name;
    } else {
      assert p.shared != name || p.shared == "";
      assert q == p && held - {name} == held;
    }
  }

  lemma HeldReturn(p: Pool, n: nat, held: set<string>, name: string)
    requires Owned(p, n, held) && name in held && "COS" <= name
    ensures Return(p, name).1 && Owned(Return(p, name).0, n, held - {name})
  {
    var q := Return(p, name).0;
    assert name in p.used && name !in p.available;
    assert q.available == p.available + [name];
    if name != p.shared {
      WithoutMembers(p.used, IndexOf(p.used, name));
    }
  }

  lemma ShareKeeps(p: Pool, n: nat, held: set<string>)
    requires Owned(p, n, held)
    ensures Owned(Share(p).0, n, HeldAfter(p, held, ShareOp))
  {
    UseKeeps(p, n, held);
    if p.shared != "" {
      assert held + {p.shared} == held;
    }
  }

  lemma ExecKeeps(p: Pool, n: nat, held: set<string>, op: Op)
    requires Owned(p, n, held) && Permitted(p, held, op)
    ensures Owned(Exec(p, op), n, HeldAfter(p, held, op))
  {
    match op {
      case UseOp => UseKeeps(p, n, held);
      case ReturnOp(name) => ReturnKeeps(p, n, held, name);
      case ShareOp => ShareKeeps(p, n, held);
      case MarkOp(name) => MarkKeeps(p, n, held, name);
    }
  }

  /** A run of the pool, with the holders it induces. */
  ghost predicate IsRun(n: nat, ops: seq<Op>, pools: seq<Pool>, helds: seq<set<string>>) {
    && |pools| == |helds| == |ops| + 1
    && pools[0] == Initial(n) && helds[0] == {}
    && forall t :: 0 <= t < |ops| ==>
         && Permitted(pools[t], helds[t], ops[t])
         && pools[t + 1] == Exec(pools[t], ops[t])
         && helds[t + 1] == HeldAfter(pools[t], helds[t], ops[t])
  }

  lemma {:induction false} EveryRunOwned(n: nat, ops: seq<Op>, pools: seq<Pool>, helds: seq<set<string>>, t: nat)
    requires IsRun(n, ops, pools, helds) && t < |pools|
    ensures Owned(pools[t], n, helds[t])
  {
    if t == 0 {
      InitialOwned(n);
    } else {
      EveryRunOwned(n, ops, pools, helds, t - 1);
      ExecKeeps(pools[t - 1], n, helds[t - 1], ops[t - 1]);
    }
  }

  /** The name an operation hands out as a new one, if any; repeating the shared name is none. */
  function HandsOut(p: Pool, op: Op): Option<string> {
    match op
    case UseOp => Use(p).1
    case ShareOp => if p.shared != "" then None else Share(p).1
    case MarkOp(name) => if Mark(p, name).1 then Some(name) else None
    case ReturnOp(_) => None
  }

  /** By whichever operation, no name is handed out while someone holds it. A request for any
      name is refused only when every name is held, one for a given name only when that name is
      held or does not exist; and the shared name, once reserved, is the one everybody gets. */
  lemma NeverHandedOutTwice(n: nat, ops: seq<Op>, pools: seq<Pool>, helds: seq<set<string>>, t: nat)
    requires IsRun(n, ops, pools, helds) && t < |ops|
    ensures var p, held, op := pools[t], helds[t], ops[t];
      && (HandsOut(p, op).Some? ==> HandsOut(p, op).value in Names(n) - held)
      && helds[t + 1] == (if op.ReturnOp? then held - {op.name}
                          else if HandsOut(p, op).Some? then held + {HandsOut(p, op).value} else held)
      && (op.UseOp? ==> (HandsOut(p, op).None? <==> held == Names(n)))
      && (op.ShareOp? && p.shared == "" ==> (HandsOut(p, op).None? <==> held == Names(n)))
      && (op.ShareOp? && p.shared != "" ==> Share(p) == (p, Some(p.shared)) && p.shared in held)
      && (op.MarkOp? ==> (HandsOut(p, op).None? <==> op.name !in Names(n) - held))
  {
    var p, held := pools[t], helds[t];
    EveryRunOwned(n, ops, pools, helds, t);
    match ops[t] {
      case UseOp => UseKeeps(p, n, held);
      case ReturnOp(name) =>
      case ShareOp =>
        UseKeeps(p, n, held);
        if p.shared != "" {
          assert held + {p.shared} == held;
        }
      case MarkOp(name) => MarkKeeps(p, n, held, name);
    }
  }

  /** As long as nobody asks for the shared class, the used list is exactly who holds what, each
      name once, and every return is permitted. */
  lemma {:induction false} UsedIsHeld(n: nat, ops: seq<Op>, pools: seq<Pool>, helds: seq<set<string>>, t: nat)
    requires IsRun(n, ops, pools, helds) && t < |pools|
    requires forall s :: 0 <= s < t ==> !ops[s].ShareOp?
    ensures Distinct(pools[t].used) && pools[t].shared == "" && forall x :: x in pools[t].used <==> x in helds[t]
  {
    if t > 0 {
      UsedIsHeld(n, ops, pools, helds, t - 1);
      EveryRunOwned(n, ops, pools, helds, t - 1);
      UsedStaysHeld(pools[t - 1], n, helds[t - 1], ops[t - 1]);
    }
  }

  lemma UsedStaysHeld(p: Pool, n: nat, held: set<string>, op: Op)
    requires Owned(p, n, held) && !op.ShareOp?
    requires Distinct(p.used) && p.shared == "" && forall x :: x in p.used <==> x in held
    ensures var q := Exec(p, op);
      Distinct(q.used) && q.shared == "" && forall x :: x in q.used <==> x in HeldAfter(p, held, op)
  {
    match op {
      case UseOp => UseKeeps(p, n, held);
      case ReturnOp(name) =>
        if name in held {
          NameIsProper(n, name);
          WithoutMembers(p.used, IndexOf(p.used, name));
        }
      case ShareOp =>
      case MarkOp(name) => MarkKeeps(p, n, held, name);
    }
  }

  /** So a class that is returned cannot be returned again. */
  lemma ReturnedOnce(n: nat, ops: seq<Op>, pools: seq<Pool>, helds: seq<set<string>>, t: nat, name: string)
    requires IsRun(n, ops, pools, helds) && t < |pools| && forall s :: 0 <= s < t ==> !ops[s].ShareOp?
    requires Return(pools[t], name).1
    ensures name in helds[t] && !Return(Return(pools[t], name).0, name).1
    ensures name in Return(pools[t], name).0.available
  {
    var p := pools[t];
    UsedIsHeld(n, ops, pools, helds, t);
    WithoutMembers(p.used, IndexOf(p.used, name));
  }

  /** Without the permission: take the shared class, return it, return it again. */
  lemma SharedReturnedTwice()
    ensures var p := Exec(Exec(Exec(Initial(4), ShareOp), ReturnOp("COS2")), ReturnOp("COS2"));
      p.available == ["COS3", "COS2", "COS2"]
  {
    var p := Initial(4);
    assert ClosName(2) == "COS2" && ClosName(3) == "COS3";
    assert |p.available| == 2 && p.available[0] == ClosName(2) && p.available[1] == ClosName(3);
    assert p.available == ["COS2", "COS3"];
    var p1 := Exec(p, ShareOp);
    assert p1 == Pool(["COS3"], ["COS2"], "COS2");
    var p2 := Exec(p1, ReturnOp("COS2"));
    assert p2 == Pool(["COS3", "COS2"], ["COS2"], "");
  }
}
