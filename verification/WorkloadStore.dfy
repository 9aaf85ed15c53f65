/** The workload database (internal/db/boltdb.go and internal/db/db.go): admission, storage, and
    the index from UUIDs to workloads. */
module WorkloadStore {
  import opened Bitmaps
  import opened RangeLists
  import opened Ranges
  import opened Text

  /** A stored workload; `rest` stands for the fields the database does not look into. */
  datatype Workload = Workload(id: string, uuid: string, tasks: seq<string>, cores: seq<string>, rest: string)

  // ----- core sets -----

  function CoreItems(w: Workload): seq<Item> {
    ParseRanges(w.cores).items
  }

  predicate CoresReadable(w: Workload) {
    ParseRanges(w.cores).ok
  }

  /** The cores a workload names. */
  ghost function CoreSet(w: Workload): set<nat> {
    Fold({}, CoreItems(w))
  }

  /** What the list leaves in the upper halves of the words, see module Ranges. */
  ghost function CoreUpper(w: Workload): set<nat> {
    FoldUpper({}, CoreItems(w))
  }

  /** Cores named one by one, each in a text of its own, are exactly the cores meant. */
  lemma NumberedCores(w: Workload, ids: seq<nat>)
    requires w.cores == Itoas(ids)
    ensures CoresReadable(w) && CoreSet(w) == Members(ids) && CoreUpper(w) == {}
  {
    NumbersReadBack(ids);
  }

  /** A bitmap over machine words, as its lower and its upper halves. */
  datatype CoreBits = CoreBits(low: Bitmap, high: Bitmap) {
    ghost predicate Holds(l: set<nat>, h: set<nat>) {
      low.Valid() && high.Valid() && low.View() == l && high.View() == h
    }
  }

  /** `NewBitmap(w.CoreIDs)`: the length follows from the largest number mentioned, here rounded
      up to whole words. */
  method CoreBitmap(w: Workload) returns (b: CoreBits, ok: bool)
    ensures ok == CoresReadable(w) && b.Holds(CoreSet(w), CoreUpper(w))
  {
    var count := WordCount(MaxMentioned(CoreItems(w)) + 1);
    assert WordCount(32 * count) == count;
    assert Addressable(CoreItems(w), count);
    AddressableBound(CoreItems(w), count);
    var low, high;
    low, high, ok := FromRanges(32 * count, w.cores);
    b := CoreBits(low, high);
  }

  // ----- admission -----

  /** A workload is complete enough, and its cores can be read. */
  predicate Complete(w: Workload) {
    && !(w.id == "" && w.tasks == [] && w.cores == [])
    && (w.cores != [] ==> CoresReadable(w))
  }

  predicate TasksClash(w: Workload, x: Workload) {
    exists t :: t in w.tasks && t in x.tasks
  }

  /** A new workload `w` and a stored one `x` get along. */
  ghost predicate Compatible(w: Workload, x: Workload) {
    && NamesApart(w, x)
    && (w.cores != [] ==> CoresApart(w, x))
  }

  ghost predicate CoresApart(w: Workload, x: Workload) {
    x.cores != [] ==> CoresReadable(x) && CoreSet(w) !! CoreSet(x) && CoreUpper(w) !! CoreUpper(x)
  }

  ghost predicate CompatibleWithAll(w: Workload, ws: seq<Workload>) {
    forall i :: 0 <= i < |ws| ==> Compatible(w, ws[i])
  }

  /** What is admitted, field by field: a workload that names something, whose ID, UUID and tasks
      are new, and whose cores can be read and are those of no stored one. */
  lemma AdmissionInFull(w: Workload, ws: seq<Workload>)
    ensures Complete(w) && CompatibleWithAll(w, ws) <==>
      && (w.id != "" || w.tasks != [] || w.cores != [])
      && (forall i :: 0 <= i < |ws| ==> w.id == "" || ws[i].id != w.id)
      && (forall i :: 0 <= i < |ws| ==> w.uuid == "" || ws[i].uuid != w.uuid)
      && (forall i, t :: 0 <= i < |ws| && t in w.tasks ==> t !in ws[i].tasks)
      && (w.cores != [] ==> ParseRanges(w.cores).ok && forall i :: 0 <= i < |ws| && ws[i].cores != [] ==>
            && ParseRanges(ws[i].cores).ok
            && Fold({}, ParseRanges(w.cores).items) !! Fold({}, ParseRanges(ws[i].cores).items)
            && FoldUpper({}, ParseRanges(w.cores).items) !! FoldUpper({}, ParseRanges(ws[i].cores).items))
  {
    forall i | 0 <= i < |ws| ensures TasksClash(w, ws[i]) <==> exists t :: t in w.tasks && t in ws[i].tasks {
    }
    assert CompatibleWithAll(w, ws) ==> forall i :: 0 <= i < |ws| ==> Compatible(w, ws[i]) && NamesApart(w, ws[i]);
  }

  /** validateWorkload accepts exactly the complete workloads that clash with no stored one. */
  method ValidateWorkload(w: Workload, ws: seq<Workload>) returns (ok: bool)
    ensures ok <==> Complete(w) && CompatibleWithAll(w, ws)
  {
    if |w.id| == 0 && |w.tasks| == 0 && |w.cores| == 0 {
      return false;
    }
    var named := CheckNames(w, ws);
    if !named {
      return false;
    }
    if |w.cores| == 0 {
      return true;
    }
    ok := CheckCores(w, ws);
  }

  ghost predicate NamesApart(w: Workload, x: Workload) {
    (w.id != "" ==> w.id != x.id) && (w.uuid != "" ==> w.uuid != x.uuid) && !TasksClash(w, x)
  }

  /** The three search loops over IDs, UUIDs and task ids. */
  method CheckNames(w: Workload, ws: seq<Workload>) returns (ok: bool)
    ensures ok <==> forall i :: 0 <= i < |ws| ==> NamesApart(w, ws[i])
  {
    if w.id != "" {
      for i := 0 to |ws|
        invariant forall j :: 0 <= j < i ==> ws[j].id != w.id
      {
        if w.id == ws[i].id {
          assert !NamesApart(w, ws[i]);
          return false;
        }
      }
    }
    if w.uuid != "" {
      for i := 0 to |ws|
        invariant forall j :: 0 <= j < i ==> ws[j].uuid != w.uuid
      {
        if w.uuid == ws[i].uuid {
          assert !NamesApart(w, ws[i]);
          return false;
        }
      }
    }
    for t := 0 to |w.tasks|
      invariant forall s, j :: 0 <= s < t && 0 <= j < |ws| ==> w.tasks[s] !in ws[j].tasks
    {
      for i := 0 to |ws|
        invariant forall j :: 0 <= j < i ==> w.tasks[t] !in ws[j].tasks
      {
        if w.tasks[t] in ws[i].tasks {
          assert !NamesApart(w, ws[i]);
          return false;
        }
      }
    }
    ok := true;
  }

  /** The core check: the stored workloads' cores are united, whatever their lengths, and
      intersected with the new ones. */
  method CheckCores(w: Workload, ws: seq<Workload>) returns (ok: bool)
    requires w.cores != []
    ensures ok <==> CoresReadable(w) && forall i :: 0 <= i < |ws| ==> CoresApart(w, ws[i])
  {
    var bm, readable := CoreBitmap(w);
    if !readable {
      return false;
    }
    var bmsum, fine := UnitedCores(ws);
    if !fine {
      ghost var i :| 0 <= i < |ws| && !CoresFine(ws[i]);
      assert !CoresApart(w, ws[i]);
      return false;
    }
    ok := NothingInCommon(bm, bmsum, CoreSet(w), CoreUpper(w), Union(Halves(ws, false)), Union(Halves(ws, true)));
    ApartFromAll(w, ws);
  }

  method NothingInCommon(a: CoreBits, b: CoreBits, ghost al: set<nat>, ghost ah: set<nat>, ghost bl: set<nat>, ghost bh: set<nat>)
      returns (empty: bool)
    requires a.Holds(al, ah) && b.Holds(bl, bh)
    ensures empty <==> al !! bl && ah !! bh
  {
    var low := a.low.And(b.low);
    var high := a.high.And(b.high);
    var lowEmpty := low.IsEmpty();
    var highEmpty := high.IsEmpty();
    empty := lowEmpty && highEmpty;
    NoneShared(al, bl);
    NoneShared(ah, bh);
  }

  lemma NoneShared(a: set<nat>, b: set<nat>)
    ensures a * b == {} <==> a !! b
  {
    assert forall i :: i in a && i in b ==> i in a * b;
  }

  /** One half of the words of a core list. */
  ghost function Half(w: Workload, upper: bool): set<nat> {
    if w.cores == [] then {} else if upper then CoreUpper(w) else CoreSet(w)
  }

  ghost function Halves(ws: seq<Workload>, upper: bool): (hs: seq<set<nat>>)
    ensures |hs| == |ws| && forall i :: 0 <= i < |ws| ==> hs[i] == Half(ws[i], upper)
  {
    seq(|ws|, i requires 0 <= i < |ws| => Half(ws[i], upper))
  }

  ghost function Union(hs: seq<set<nat>>): set<nat> {
    if hs == [] then {} else Union(hs[..|hs| - 1]) + hs[|hs| - 1]
  }

  lemma UnionStep(hs: seq<set<nat>>, i: nat)
    requires i < |hs|
    ensures Union(hs[..i + 1]) == Union(hs[..i]) + hs[i]
  {
    assert hs[..i + 1][..i] == hs[..i];
  }

  lemma {:induction false} ApartFromUnion(s: set<nat>, hs: seq<set<nat>>)
    ensures s !! Union(hs) <==> forall i :: 0 <= i < |hs| ==> s !! hs[i]
  {
    if hs != [] {
      var front, last := hs[..|hs| - 1], hs[|hs| - 1];
      ApartFromUnion(s, front);
      assert s !! Union(front) + last <==> s !! Union(front) && s !! last;
      assert forall i :: 0 <= i < |front| ==> hs[i] == front[i];
    }
  }

  predicate CoresFine(w: Workload) {
    w.cores == [] || CoresReadable(w)
  }

  ghost predicate AllFine(ws: seq<Workload>, n: nat)
    requires n <= |ws|
  {
    forall i :: 0 <= i < n ==> CoresFine(ws[i])
  }

  lemma OneMoreFine(ws: seq<Workload>, i: nat)
    requires i < |ws|
    ensures AllFine(ws, i + 1) <==> AllFine(ws, i) && CoresFine(ws[i])
    ensures AllFine(ws, |ws|) ==> CoresFine(ws[i])
  {
  }

  method UnitedCores(ws: seq<Workload>) returns (bmsum: CoreBits, ok: bool)
    ensures ok ==> bmsum.Holds(Union(Halves(ws, false)), Union(Halves(ws, true)))
    ensures ok <==> AllFine(ws, |ws|)
  {
    bmsum := CoreBits(Blank(0), Blank(0));
    ghost var lows, highs := Halves(ws, false), Halves(ws, true);
    for i := 0 to |ws|
      invariant bmsum.Holds(Union(lows[..i]), Union(highs[..i]))
      invariant AllFine(ws, i)
    {
      UnionStep(lows, i);
      UnionStep(highs, i);
      OneMoreFine(ws, i);
      var fine;
      bmsum, fine := UniteOne(bmsum, ws[i], Union(lows[..i]), Union(highs[..i]));
      if !fine {
        return bmsum, false;
      }
    }
    assert lows[..|ws|] == lows && highs[..|ws|] == highs;
    ok := true;
  }

  /** One turn of the loop: a workload without cores is skipped. */
  method UniteOne(sum: CoreBits, w: Workload, ghost l: set<nat>, ghost h: set<nat>) returns (r: CoreBits, ok: bool)
    requires sum.Holds(l, h)
    ensures ok <==> CoresFine(w)
    ensures ok ==> r.Holds(l + Half(w, false), h + Half(w, true))
  {
    if |w.cores| == 0 {
      return sum, true;
    }
    var tmpbm;
    tmpbm, ok := CoreBitmap(w);
    if !ok {
      return sum, false;
    }
    var low := sum.low.Or(tmpbm.low);
    var high := sum.high.Or(tmpbm.high);
    r := CoreBits(low, high);
  }

  lemma ApartFromAll(w: Workload, ws: seq<Workload>)
    requires AllFine(ws, |ws|)
    ensures CoreSet(w) !! Union(Halves(ws, false)) && CoreUpper(w) !! Union(Halves(ws, true))
      <==> forall i :: 0 <= i < |ws| ==> CoresApart(w, ws[i])
  {
    var lows, highs := Halves(ws, false), Halves(ws, true);
    ApartFromUnion(CoreSet(w), lows);
    ApartFromUnion(CoreUpper(w), highs);
    forall i | 0 <= i < |ws| ensures CoresApart(w, ws[i]) <==> CoreSet(w) !! lows[i] && CoreUpper(w) !! highs[i] {
      assert CoresFine(ws[i]);
    }
  }

  // ----- the two buckets and the sequence counter -----

  datatype Database = Database(workloads: map<string, Workload>, mapping: map<string, string>, seqno: nat)

  /** The ID a workload is stored under: its own, or the next number of the bucket's sequence. */
  function IdFor(db: Database, w: Workload): string {
    if w.id == "" then Itoa(db.seqno + 1) else w.id
  }

  function Create(db: Database, w: Workload): Database {
    var id := IdFor(db, w);
    Database(db.workloads[id := w.(id := id)],
             if w.uuid != "" then db.mapping[w.uuid := id] else db.mapping,
             if w.id == "" then db.seqno + 1 else db.seqno)
  }

  function Delete(db: Database, w: Workload): Database {
    Database(db.workloads - {w.id}, if w.uuid != "" then db.mapping - {w.uuid} else db.mapping, db.seqno)
  }

  function Update(db: Database, w: Workload): Database {
    db.(workloads := db.workloads[w.id := w])
  }

  /** Through the index. */
  function Lookup(db: Database, uuid: string): Option<Workload> {
    if uuid !in db.mapping || db.mapping[uuid] !in db.workloads then None
    else Some(db.workloads[db.mapping[uuid]])
  }

  // ----- what every run keeps -----

  ghost predicate RecordOk(db: Database, id: string)
    requires id in db.workloads
  {
    var w := db.workloads[id];
    && w.id == id && id != ""
    && (w.uuid != "" ==> w.uuid in db.mapping && db.mapping[w.uuid] == id)
    && (w.cores != [] ==> CoresReadable(w))
  }

  ghost predicate IndexOk(db: Database, u: string)
    requires u in db.mapping
  {
    u != "" && db.mapping[u] in db.workloads && db.workloads[db.mapping[u]].uuid == u
  }

  /** Two stored workloads share no core and no task. */
  ghost predicate Apart(x: Workload, y: Workload) {
    (forall t :: t in x.tasks ==> t !in y.tasks) && CoreSet(x) !! CoreSet(y)
  }

  ghost predicate Consistent(db: Database) {
    && (forall id :: id in db.workloads ==> RecordOk(db, id))
    && (forall u :: u in db.mapping ==> IndexOk(db, u))
    && forall i, j :: i in db.workloads && j in db.workloads && i != j ==> Apart(db.workloads[i], db.workloads[j])
  }

  /** Validated against everything stored. Nothing looks whether a generated ID is in use. */
  ghost predicate CreateStep(db: Database, w: Workload, next: Database) {
    && Complete(w) && (forall id :: id in db.workloads ==> Compatible(w, db.workloads[id]))
    && next == Create(db, w)
  }

  /** The new ID is not in use, or its owner is not in the index. */
  predicate Harmless(db: Database, w: Workload) {
    IdFor(db, w) in db.workloads ==> db.workloads[IdFor(db, w)].uuid == ""
  }

  ghost predicate DeleteStep(db: Database, w: Workload, next: Database) {
    w.id in db.workloads && db.workloads[w.id] == w && next == Delete(db, w)
  }

  ghost predicate UpdateStep(db: Database, w: Workload, next: Database) {
    && w.id in db.workloads && next == Update(db, w)
    && var x := db.workloads[w.id]; w.uuid == x.uuid && w.cores == x.cores && w.tasks == x.tasks
  }

  ghost predicate Step(db: Database, next: Database) {
    exists w: Workload :: CreateStep(db, w, next) || DeleteStep(db, w, next) || UpdateStep(db, w, next)
  }

  ghost predicate IsRun(run: seq<Database>) {
    && |run| >= 1 && run[0] == Database(map[], map[], 0)
    && forall t :: 0 < t < |run| ==> Step(run[t - 1], run[t])
  }

  /** If the step can be a create, it is a harmless one. */
  ghost predicate HarmlessStep(db: Database, next: Database) {
    forall w: Workload :: CreateStep(db, w, next) ==> Harmless(db, w)
  }

  ghost predicate HarmlessRun(run: seq<Database>) {
    forall t :: 0 < t < |run| ==> HarmlessStep(run[t - 1], run[t])
  }

  /** The steps of a database in which nobody chooses an ID. */
  ghost predicate GeneratedStep(db: Database, next: Database) {
    exists w: Workload :: (w.id == "" && CreateStep(db, w, next)) || DeleteStep(db, w, next) || UpdateStep(db, w, next)
  }

  ghost predicate IsGeneratedRun(run: seq<Database>) {
    && |run| >= 1 && run[0] == Database(map[], map[], 0)
    && forall t :: 0 < t < |run| ==> GeneratedStep(run[t - 1], run[t])
  }

  lemma {:induction false} NoItems()
    ensures Fold({}, ParseRanges([]).items) == {}
  {
  }

  lemma NewcomerApart(w: Workload, x: Workload)
    requires Compatible(w, x)
    ensures !TasksClash(w, x) && !TasksClash(x, w) && CoreSet(w) !! CoreSet(x)
  {
    NoItems();
    if t :| t in x.tasks && t in w.tasks {
      assert TasksClash(w, x);
    }
  }

  /** An admitted workload keeps the database consistent if and only if it does not take the ID
      of an indexed one. */
  lemma CreateKeeps(db: Database, w: Workload, next: Database)
    requires Consistent(db) && CreateStep(db, w, next)
    ensures Consistent(next) <==> Harmless(db, w)
  {
    if Harmless(db, w) {
      HarmlessKeepsRecords(db, w, next);
      CreateKeepsApart(db, w, next);
    } else {
      var x := db.workloads[IdFor(db, w)];
      assert RecordOk(db, IdFor(db, w)) && Compatible(w, x);
      assert x.uuid in next.mapping && !IndexOk(next, x.uuid);
    }
  }

  lemma HarmlessKeepsRecords(db: Database, w: Workload, next: Database)
    requires Consistent(db) && CreateStep(db, w, next) && Harmless(db, w)
    ensures forall i :: i in next.workloads ==> RecordOk(next, i)
    ensures forall u :: u in next.mapping ==> IndexOk(next, u)
  {
    var id := IdFor(db, w);
    IdNotEmpty(db, w);
    forall i | i in next.workloads ensures RecordOk(next, i) {
      if i != id {
        assert RecordOk(db, i) && Compatible(w, db.workloads[i]);
      }
    }
    forall u | u in next.mapping ensures IndexOk(next, u) {
      if u != w.uuid {
        assert IndexOk(db, u);
      }
    }
  }

  lemma CreateKeepsApart(db: Database, w: Workload, next: Database)
    requires Consistent(db) && CreateStep(db, w, next)
    ensures forall i, j :: i in next.workloads && j in next.workloads && i != j ==> Apart(next.workloads[i], next.workloads[j])
  {
    var id := IdFor(db, w);
    var stored := next.workloads[id];
    forall j | j in db.workloads ensures Apart(stored, db.workloads[j]) && Apart(db.workloads[j], stored) {
      NewcomerApart(w, db.workloads[j]);
      SameCores(w, stored);
    }
  }

  lemma SameCores(w: Workload, x: Workload)
    requires w.cores == x.cores && w.tasks == x.tasks
    ensures CoreSet(w) == CoreSet(x)
    ensures forall y: Workload :: (TasksClash(w, y) <==> TasksClash(x, y)) && (TasksClash(y, w) <==> TasksClash(y, x))
  {
  }

  lemma IdNotEmpty(db: Database, w: Workload)
    ensures IdFor(db, w) != ""
  {
  }

  lemma DeleteKeeps(db: Database, w: Workload, next: Database)
    requires Consistent(db) && DeleteStep(db, w, next)
    ensures Consistent(next)
  {
    forall i | i in next.workloads ensures RecordOk(next, i) {
      assert RecordOk(db, i) && RecordOk(db, w.id);
    }
    forall u | u in next.mapping ensures IndexOk(next, u) {
      assert IndexOk(db, u) && RecordOk(db, w.id);
    }
  }

  lemma UpdateKeeps(db: Database, w: Workload, next: Database)
    requires Consistent(db) && UpdateStep(db, w, next)
    ensures Consistent(next)
  {
    var x := db.workloads[w.id];
    SameCores(w, x);
    forall i | i in next.workloads ensures RecordOk(next, i) {
      assert RecordOk(db, i);
    }
    forall u | u in next.mapping ensures IndexOk(next, u) {
      assert IndexOk(db, u);
    }
    forall i, j | i in next.workloads && j in next.workloads && i != j
      ensures Apart(next.workloads[i], next.workloads[j])
    {
      assert Apart(db.workloads[i], db.workloads[j]);
    }
  }

  lemma StepKeeps(db: Database, next: Database)
    requires Consistent(db) && Step(db, next) && HarmlessStep(db, next)
    ensures Consistent(next)
  {
    var w: Workload :| CreateStep(db, w, next) || DeleteStep(db, w, next) || UpdateStep(db, w, next);
    if CreateStep(db, w, next) {
      CreateKeeps(db, w, next);
    } else if DeleteStep(db, w, next) {
      DeleteKeeps(db, w, next);
    } else {
      UpdateKeeps(db, w, next);
    }
  }

  lemma {:induction false} EveryRunConsistent(run: seq<Database>, t: nat)
    requires IsRun(run) && HarmlessRun(run) && t < |run|
    ensures Consistent(run[t])
  {
    if t > 0 {
      EveryRunConsistent(run, t - 1);
      StepKeeps(run[t - 1], run[t]);
    }
  }

  lemma ConsistentStepIsHarmless(db: Database, next: Database)
    requires Consistent(db) && Consistent(next)
    ensures HarmlessStep(db, next)
  {
    forall w: Workload | CreateStep(db, w, next) ensures Harmless(db, w) {
      CreateKeeps(db, w, next);
    }
  }

  /** A run is consistent throughout if and only if no create takes the ID of an indexed
      workload. */
  lemma RunConsistentIff(run: seq<Database>)
    requires IsRun(run)
    ensures (forall t :: 0 <= t < |run| ==> Consistent(run[t])) <==> HarmlessRun(run)
  {
    if HarmlessRun(run) {
      forall t | 0 <= t < |run| ensures Consistent(run[t]) {
        EveryRunConsistent(run, t);
      }
    }
    if forall t :: 0 <= t < |run| ==> Consistent(run[t]) {
      forall t | 0 < t < |run| ensures HarmlessStep(run[t - 1], run[t]) {
        ConsistentStepIsHarmless(run[t - 1], run[t]);
      }
    }
  }

  /** In every such run the index answers what a scan of all workloads would: it finds a workload
      exactly when one is stored, and that one is the only one with this UUID. */
  lemma IndexAgreesWithScan(run: seq<Database>, t: nat, u: string)
    requires IsRun(run) && HarmlessRun(run) && t < |run| && u != ""
    ensures var db := run[t];
      && (forall id :: id in db.workloads ==> (db.workloads[id].uuid == u <==> Lookup(db, u) == Some(db.workloads[id])))
      && (Lookup(db, u).None? <==> forall id :: id in db.workloads ==> db.workloads[id].uuid != u)
  {
    var db := run[t];
    EveryRunConsistent(run, t);
    forall id | id in db.workloads
      ensures db.workloads[id].uuid == u <==> Lookup(db, u) == Some(db.workloads[id])
    {
      assert RecordOk(db, id);
      if u in db.mapping {
        assert IndexOk(db, u);
      }
    }
    if u in db.mapping {
      assert IndexOk(db, u);
    }
  }

  // ----- generated IDs -----

  /** Every stored ID was generated. */
  ghost predicate Generated(db: Database) {
    forall id :: id in db.workloads ==> exists i: nat :: 1 <= i <= db.seqno && id == Itoa(i)
  }

  /** Then the next one is fresh. */
  lemma GeneratedIsFresh(db: Database, w: Workload)
    requires Generated(db) && w.id == ""
    ensures IdFor(db, w) !in db.workloads && Generated(Create(db, w))
  {
    if IdFor(db, w) in db.workloads {
      var i: nat :| 1 <= i <= db.seqno && IdFor(db, w) == Itoa(i);
      ItoaInjective(i, db.seqno + 1);
    }
    var next := Create(db, w);
    forall id | id in next.workloads ensures exists i: nat :: 1 <= i <= next.seqno && id == Itoa(i) {
      if id in db.workloads {
        var i: nat :| 1 <= i <= db.seqno && id == Itoa(i);
        assert 1 <= i <= next.seqno && id == Itoa(i);
      } else {
        assert id == Itoa(next.seqno);
      }
    }
  }

  lemma FewerGenerated(db: Database, next: Database)
    requires Generated(db) && next.workloads.Keys <= db.workloads.Keys && next.seqno == db.seqno
    ensures Generated(next)
  {
    assert forall id :: id in next.workloads ==> id in db.workloads;
  }

  /** A chosen ID that passes admission is always fresh. */
  lemma ChosenIsFresh(db: Database, w: Workload)
    requires Consistent(db) && w.id != "" && forall id :: id in db.workloads ==> Compatible(w, db.workloads[id])
    ensures w.id !in db.workloads
  {
    assert w.id in db.workloads ==> RecordOk(db, w.id);
  }

  lemma GeneratedCreateIsFresh(db: Database, w: Workload, next: Database)
    requires Generated(db) && Consistent(db) && CreateStep(db, w, next)
    ensures IdFor(db, w) !in db.workloads
  {
    if w.id == "" {
      GeneratedIsFresh(db, w);
    } else {
      ChosenIsFresh(db, w);
    }
  }

  lemma GeneratedStepKeeps(db: Database, next: Database)
    requires Generated(db) && Consistent(db) && GeneratedStep(db, next)
    ensures Step(db, next) && Generated(next) && Consistent(next)
  {
    var w: Workload :| (w.id == "" && CreateStep(db, w, next)) || DeleteStep(db, w, next) || UpdateStep(db, w, next);
    if w.id == "" && CreateStep(db, w, next) {
      GeneratedIsFresh(db, w);
    } else {
      FewerGenerated(db, next);
    }
    GeneratedStepAdds(db, next);
    StepKeeps(db, next);
  }

  /** Where nobody chooses an ID, freshness needs no check: it holds over creates, updates and
      deletes, and every state is consistent. */
  lemma {:induction false} GeneratedRunKeeps(run: seq<Database>, t: nat)
    requires IsGeneratedRun(run) && t < |run|
    ensures Generated(run[t]) && Consistent(run[t])
    ensures t > 0 ==> Step(run[t - 1], run[t])
  {
    if t > 0 {
      GeneratedRunKeeps(run, t - 1);
      GeneratedStepKeeps(run[t - 1], run[t]);
    }
  }

  /** So such a run is a run to which the results above apply, and no create in it replaces a
      stored workload. */
  lemma GeneratedRunIsHarmless(run: seq<Database>)
    requires IsGeneratedRun(run)
    ensures IsRun(run) && HarmlessRun(run)
    ensures forall t :: 0 < t < |run| ==> CreatesAdd(run[t - 1], run[t])
  {
    forall t | 0 < t < |run| ensures Step(run[t - 1], run[t]) && HarmlessStep(run[t - 1], run[t]) && CreatesAdd(run[t - 1], run[t]) {
      GeneratedRunKeeps(run, t - 1);
      GeneratedRunKeeps(run, t);
      GeneratedStepAdds(run[t - 1], run[t]);
    }
  }

  /** If the step can be a create, every stored workload stays as it is. */
  ghost predicate CreatesAdd(db: Database, next: Database) {
    (exists w: Workload :: CreateStep(db, w, next)) ==>
      forall id :: id in db.workloads ==> id in next.workloads && next.workloads[id] == db.workloads[id]
  }

  lemma GeneratedStepAdds(db: Database, next: Database)
    requires Generated(db) && Consistent(db)
    ensures HarmlessStep(db, next) && CreatesAdd(db, next)
  {
    forall w: Workload | CreateStep(db, w, next) ensures IdFor(db, w) !in db.workloads {
      GeneratedCreateIsFresh(db, w, next);
    }
  }

  /** An admitted workload that names a task or a core leaves all stored ones in place exactly
      when its ID is fresh: a generated number that a user-chosen ID already occupies silently
      replaces that workload. */
  lemma CreateKeepsOthers(db: Database, w: Workload)
    requires Consistent(db) && Complete(w) && forall id :: id in db.workloads ==> Compatible(w, db.workloads[id])
    requires w.tasks != [] || CoreSet(w) != {}
    ensures (forall id :: id in db.workloads ==> id in Create(db, w).workloads && Create(db, w).workloads[id] == db.workloads[id])
      <==> IdFor(db, w) !in db.workloads
  {
    var id := IdFor(db, w);
    if id in db.workloads {
      Different(w, db.workloads[id], id);
    }
  }

  /** A user submits a workload under the ID "1"; the first generated ID is "1" again. The second
      submission is admitted and the first workload is gone; the index breaks if it was listed. */
  lemma TakenNumber(uuid: string) returns (run: seq<Database>)
    ensures IsRun(run) && |run| == 3
    ensures run[1].workloads == map["1" := Workload("1", uuid, ["7"], [], "")]
    ensures run[2].workloads == map["1" := Workload("1", "", ["8"], [], "")]
    ensures Consistent(run[1]) && (Consistent(run[2]) <==> uuid == "")
  {
    var none := Database(map[], map[], 0);
    var x, w := Workload("1", uuid, ["7"], [], ""), Workload("", "", ["8"], [], "");
    var first := Create(none, x);
    assert CreateStep(none, x, first);
    CreateKeeps(none, x, first);
    FirstNumber();
    assert IdFor(first, w) == "1";
    assert Compatible(w, x);
    var second := Create(first, w);
    assert CreateStep(first, w, second);
    CreateKeeps(first, w, second);
    run := [none, first, second];
  }

  lemma FirstNumber()
    ensures Itoa(1) == "1"
  {
  }

  lemma Different(w: Workload, x: Workload, id: string)
    requires Compatible(w, x) && (w.tasks != [] || CoreSet(w) != {})
    ensures w.(id := id) != x
  {
    NewcomerApart(w, x);
    if w.tasks != [] {
      assert w.tasks[0] in w.tasks;
    } else {
      var c :| c in CoreSet(w);
      assert c !in CoreSet(x);
      assert w.cores == x.cores ==> CoreSet(w) == CoreSet(x);
    }
  }

  // ----- the code -----

  ghost predicate IsStored(workloads: map<string, Workload>, w: Workload) {
    exists id :: id in workloads && workloads[id] == w
  }

  method AllOf(workloads: map<string, Workload>) returns (ws: seq<Workload>)
    ensures forall i :: 0 <= i < |ws| ==> IsStored(workloads, ws[i])
    ensures forall id :: id in workloads ==> workloads[id] in ws
  {
    ws := [];
    var todo := workloads.Keys;
    while todo != {}
      invariant todo <= workloads.Keys
      invariant forall i :: 0 <= i < |ws| ==> IsStored(workloads, ws[i])
      invariant forall id :: id in workloads && id !in todo ==> workloads[id] in ws
    {
      var id :| id in todo;
      todo := todo - {id};
      assert IsStored(workloads, workloads[id]);
      ghost var before := ws;
      ws := ws + [workloads[id]];
      assert ws[|before|] == workloads[id] && forall i :: 0 <= i < |before| ==> ws[i] == before[i];
    }
  }

  class Store {
    var workloads: map<string, Workload>
    var mapping: map<string, string>
    var seqno: nat

    function State(): Database
      reads this
    {
      Database(workloads, mapping, seqno)
    }

    constructor ()
      ensures State() == Database(map[], map[], 0)
    {
      workloads, mapping, seqno := map[], map[], 0;
    }

    /** GetAllWorkload, in some order. */
    method GetAllWorkload() returns (ws: seq<Workload>)
      ensures forall i :: 0 <= i < |ws| ==> IsStored(workloads, ws[i])
      ensures forall id :: id in workloads ==> workloads[id] in ws
    {
      ws := AllOf(workloads);
    }

    /** CreateWorkload: both buckets are written in one transaction. */
    method CreateWorkload(w: Workload) returns (id: string)
      modifies this
      ensures State() == Create(old(State()), w) && id == IdFor(old(State()), w)
      ensures id == (if w.id == "" then Itoa(seqno) else w.id) && seqno == old(seqno) + if w.id == "" then 1 else 0
      ensures workloads == old(workloads)[id := w.(id := id)]
      ensures mapping == if w.uuid == "" then old(mapping) else old(mapping)[w.uuid := id]
    {
      var stored := w;
      if w.id == "" {
        seqno := seqno + 1;
        stored := w.(id := Itoa(seqno));
      }
      if |w.uuid| > 0 {
        mapping := mapping[w.uuid := stored.id];
      }
      workloads := workloads[stored.id := stored];
      id := stored.id;
    }

    /** ValidateWorkload followed by CreateWorkload: the step of a run. */
    method Submit(w: Workload) returns (id: Option<string>)
      modifies this
      ensures id.Some? <==> Complete(w) && forall i :: i in old(workloads) ==> Compatible(w, old(workloads)[i])
      ensures id.None? ==> State() == old(State())
      ensures id.Some? ==> CreateStep(old(State()), w, State()) && id.value == IdFor(old(State()), w)
    {
      var ws := GetAllWorkload();
      var ok := ValidateWorkload(w, ws);
      if !ok {
        if Complete(w) {
          ghost var i :| 0 <= i < |ws| && !Compatible(w, ws[i]);
          assert IsStored(workloads, ws[i]);
        }
        return None;
      }
      forall i | i in workloads ensures Compatible(w, workloads[i]) {
        var j :| 0 <= j < |ws| && ws[j] == workloads[i];
      }
      var created := CreateWorkload(w);
      id := Some(created);
    }

    /** DeleteWorkload: the record and its index entry go, everything else stays. */
    method DeleteWorkload(w: Workload)
      modifies this
      ensures State() == Delete(old(State()), w)
      ensures w.id !in workloads && (w.uuid != "" ==> w.uuid !in mapping) && seqno == old(seqno)
      ensures forall id :: id in old(workloads) && id != w.id ==> id in workloads && workloads[id] == old(workloads)[id]
      ensures forall u :: u in old(mapping) && (w.uuid == "" || u != w.uuid) ==> u in mapping && mapping[u] == old(mapping)[u]
      ensures workloads.Keys <= old(workloads.Keys) && mapping.Keys <= old(mapping.Keys)
    {
      if |w.uuid| > 0 {
        mapping := mapping - {w.uuid};
      }
      workloads := workloads - {w.id};
    }

    method UpdateWorkload(w: Workload) returns (ok: bool)
      modifies this
      ensures ok <==> w.id != ""
      ensures State() == if ok then Update(old(State()), w) else old(State())
      ensures ok ==> workloads == old(workloads)[w.id := w]
      ensures mapping == old(mapping) && seqno == old(seqno)
    {
      if |w.id| == 0 {
        return false;
      }
      workloads := workloads[w.id := w];
      ok := true;
    }

    method GetWorkloadByUUID(uuid: string) returns (w: Option<Workload>)
      ensures w == Lookup(State(), uuid)
    {
      if uuid !in mapping {
        return None;
      }
      var id := mapping[uuid];
      if id !in workloads {
        return None;
      }
      w := Some(workloads[id]);
    }
  }

  /** What was taken only by a deleted workload is free again: a workload that clashed with nothing
      else stored is admitted right after. */
  method DeleteThenSubmit(s: Store, x: Workload, w: Workload) returns (id: Option<string>)
    requires Complete(w) && forall i :: i in s.workloads && i != x.id ==> Compatible(w, s.workloads[i])
    modifies s
    ensures id.Some? && s.workloads == (old(s.workloads) - {x.id})[id.value := w.(id := id.value)]
  {
    s.DeleteWorkload(x);
    assert s.workloads == old(s.workloads) - {x.id};
    id := s.Submit(w);
  }
}
