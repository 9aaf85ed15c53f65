/** The schemata text of a resource group: the printer SchemataTask.Run
    (utils/resctrl/task_flow.go) and the parser in parserResAssociation
    (utils/resctrl/resctrl.go). */
module Schemata {
  import opened Text

  /** The mask of one cache; `id` is an 8-bit number. */
  datatype CacheCos = CacheCos(id: nat, mask: string)

  // ----- printing -----

  /** The first entry for a cache id. */
  function FirstWith(v: seq<CacheCos>, id: nat): (r: Option<CacheCos>)
    ensures r.Some? ==> exists j :: 0 <= j < |v| && v[j] == r.value && r.value.id == id && forall i :: 0 <= i < j ==> v[i].id != id
    ensures r.None? ==> forall c :: c in v ==> c.id != id
  {
    if v == [] then None else if v[0].id == id then Some(v[0]) else FirstWith(v[1..], id)
  }

  function EntryText(c: CacheCos): string {
    Itoa(c.id) + "=" + c.mask
  }

  /** The entry of a cache id, if there is one. */
  function EntryOf(v: seq<CacheCos>, id: nat): seq<string> {
    match FirstWith(v, id) { case Some(c) => [EntryText(c)] case None => [] }
  }

  /** The entries for the cache ids below n, in order; ids wrap at 8 bits. */
  function Row(v: seq<CacheCos>, n: nat): seq<string> {
    if n == 0 then [] else Row(v, n - 1) + EntryOf(v, (n - 1) % 256)
  }

  function Line(key: string, v: seq<CacheCos>): string {
    key + ":" + Join(Row(v, |v|), ';')
  }

  function Lines(m: map<string, seq<CacheCos>>, order: seq<string>): (r: seq<string>)
    requires forall i :: 0 <= i < |order| ==> order[i] in m
    ensures |r| == |order|
  {
    if order == [] then [] else [Line(order[0], m[order[0]])] + Lines(m, order[1..])
  }

  /** What ends up in the file: the lines, each closed by a newline; a bare newline if none. */
  function Print(m: map<string, seq<CacheCos>>, order: seq<string>): string
    requires forall i :: 0 <= i < |order| ==> order[i] in m
  {
    Join(Lines(m, order), '\n') + "\n"
  }

  /** `order` lists every key once. */
  ghost predicate Enumerates(order: seq<string>, keys: set<string>) {
    && (forall i :: 0 <= i < |order| ==> order[i] in keys)
    && (forall k :: k in keys ==> k in order)
    && forall i, j :: 0 <= i < j < |order| ==> order[i] != order[j]
  }

  /** SchemataTask.Run and writeFile; the keys are visited in some order. */
  method Run(m: map<string, seq<CacheCos>>) returns (text: string)
    ensures exists order: seq<string> :: Enumerates(order, m.Keys) && text == Print(m, order)
  {
    var schemata: seq<string> := [];
    ghost var order: seq<string> := [];
    var todo := m.Keys;
    while todo != {}
      invariant todo <= m.Keys && Enumerates(order, m.Keys - todo)
      invariant schemata == Lines(m, order)
    {
      var k :| k in todo;
      todo := todo - {k};
      var str := RowOf(m[k]);
      LinesAppend(m, order, k);
      schemata := schemata + [Join([k, Join(str, ';')], ':')];
      order := order + [k];
    }
    var data := Join(schemata, '\n');
    text := data + "\n";
    assert m.Keys - todo == m.Keys;
    assert Enumerates(order, m.Keys) && text == Print(m, order);
  }

  lemma {:induction false} LinesAppend(m: map<string, seq<CacheCos>>, order: seq<string>, k: string)
    requires k in m && forall i :: 0 <= i < |order| ==> order[i] in m
    ensures Lines(m, order + [k]) == Lines(m, order) + [Line(k, m[k])]
    ensures Line(k, m[k]) == Join([k, Join(Row(m[k], |m[k]|), ';')], ':')
  {
    var row := Join(Row(m[k], |m[k]|), ';');
    assert [k, row][1..] == [row];
    if order == [] {
      assert order + [k] == [k];
    } else {
      LinesAppend(m, order[1..], k);
      assert (order + [k])[1..] == order[1..] + [k];
    }
  }

  method RowOf(v: seq<CacheCos>) returns (str: seq<string>)
    ensures str == Row(v, |v|)
  {
    str := [];
    for cacheid := 0 to |v|
      invariant str == Row(v, cacheid)
    {
      var entry := FindEntry(v, cacheid % 256);
      if entry.Some? {
        str := str + [EntryText(entry.value)];
      } else {
        assert str == str + [];
      }
    }
  }

  /** The inner loop: the first entry of a cache. */
  method FindEntry(v: seq<CacheCos>, id: nat) returns (entry: Option<CacheCos>)
    ensures entry == FirstWith(v, id)
  {
    assert v[0..] == v;
    for i := 0 to |v|
      invariant FirstWith(v[i..], id) == FirstWith(v, id)
    {
      assert v[i..][0] == v[i] && v[i..][1..] == v[i + 1..];
      if id == v[i].id {
        return Some(v[i]);
      }
    }
    assert v[|v|..] == [];
    entry := None;
  }

  // ----- parsing -----

  function RemoveSpaces(s: string): string {
    if s == "" then ""
    else if s[0] == ' ' then RemoveSpaces(s[1..])
    else [s[0]] + RemoveSpaces(s[1..])
  }

  /** `strconv.ParseUint(s, 10, 8)` with its error ignored. */
  function ParseId(s: string): nat {
    match ParseNat(s, 10)
    case None => 0
    case Some(v) => if v < 256 then v else 255
  }

  /** An entry without "=" makes the code index out of range. */
  function ParseEntry(cos: string): Option<CacheCos> {
    match Cut(cos, '=')
    case None => None
    case Some((id, mask)) => Some(CacheCos(ParseId(id), mask))
  }

  function ParseEntries(coses: seq<string>): Option<seq<CacheCos>> {
    if coses == [] then Some([])
    else
      match (ParseEntry(coses[0]), ParseEntries(coses[1..]))
      case (Some(c), Some(rest)) => Some([c] + rest)
      case _ => None
  }

  /** The key of a line, spaces removed, and its entries. */
  function LineKey(line: string): string {
    RemoveSpaces(match Cut(line, ':') { case None => line case Some((key, _)) => key })
  }

  function ParseLine(line: string, res: map<string, seq<CacheCos>>): Option<map<string, seq<CacheCos>>> {
    var key := LineKey(line);
    var before := if key in res then res[key] else [];
    match Cut(line, ':')
    case None => None
    case Some((_, values)) =>
      match ParseEntries(Split(values, ';'))
      case None => None
      case Some(entries) => Some(res[key := before + entries])
  }

  /** Lines up to the first one with an empty key. */
  function ParseLines(lines: seq<string>, res: map<string, seq<CacheCos>>): Option<map<string, seq<CacheCos>>>
    decreases |lines|
  {
    if lines == [] || LineKey(lines[0]) == "" then Some(res)
    else
      match ParseLine(lines[0], res)
      case None => None
      case Some(next) => ParseLines(lines[1..], next)
  }

  function Parse(text: string, prior: map<string, seq<CacheCos>>): Option<map<string, seq<CacheCos>>> {
    var strs := Split(text, '\n');
    ParseLines(strs, if |strs| > 1 then map[] else prior)
  }

  /** The "Schemata" case of the parser; nothing stands for a runtime panic. */
  method ParseSchemata(text: string, prior: map<string, seq<CacheCos>>) returns (r: Option<map<string, seq<CacheCos>>>)
    ensures r == Parse(text, prior)
  {
    var strs := Split(text, '\n');
    r := AddLines(strs, if |strs| > 1 then map[] else prior);
  }

  lemma LinesStep(strs: seq<string>, i: nat, res: map<string, seq<CacheCos>>)
    requires i < |strs|
    ensures ParseLines(strs[i..], res) ==
      if LineKey(strs[i]) == "" then Some(res)
      else match ParseLine(strs[i], res) { case None => None case Some(next) => ParseLines(strs[i + 1..], next) }
  {
    assert strs[i..][0] == strs[i] && strs[i..][1..] == strs[i + 1..];
  }

  /** The outer loop, which stops at a line without a key. */
  method AddLines(strs: seq<string>, prior: map<string, seq<CacheCos>>) returns (r: Option<map<string, seq<CacheCos>>>)
    ensures r == ParseLines(strs, prior)
  {
    var res := prior;
    assert strs[0..] == strs;
    for i := 0 to |strs|
      invariant ParseLines(strs[i..], res) == ParseLines(strs, prior)
    {
      LinesStep(strs, i, res);
      if LineKey(strs[i]) == "" {
        return Some(res);
      }
      var next := AddLine(strs[i], res);
      if next.None? {
        return None;
      }
      res := next.value;
    }
    r := Some(res);
  }

  method AddLine(line: string, res: map<string, seq<CacheCos>>) returns (r: Option<map<string, seq<CacheCos>>>)
    ensures r == ParseLine(line, res)
  {
    var key := LineKey(line);
    var list := if key in res then res[key] else [];
    var cut := Cut(line, ':');
    if cut.None? {
      return None;
    }
    var coses := Split(cut.value.1, ';');
    var entries := AddEntries(coses, list);
    if entries.None? {
      return None;
    }
    r := Some(res[key := entries.value]);
  }

  /** The inner loop: the entries of a line, behind those already there. */
  method AddEntries(coses: seq<string>, before: seq<CacheCos>) returns (r: Option<seq<CacheCos>>)
    ensures r == Prefixed(before, ParseEntries(coses))
  {
    var list, done: seq<CacheCos> := before, [];
    assert coses[0..] == coses;
    NothingDone(ParseEntries(coses));
    for i := 0 to |coses|
      invariant list == before + done
      invariant ParseEntries(coses) == Prefixed(done, ParseEntries(coses[i..]))
    {
      EntryStep(coses, i, done);
      var entry := ParseEntry(coses[i]);
      if entry.None? {
        return None;
      }
      list := list + [entry.value];
      done := done + [entry.value];
    }
    assert coses[|coses|..] == [] && done + [] == done;
    r := Some(list);
  }

  function Prefixed(done: seq<CacheCos>, rest: Option<seq<CacheCos>>): Option<seq<CacheCos>> {
    match rest { case Some(r) => Some(done + r) case None => None }
  }

  lemma NothingDone(rest: Option<seq<CacheCos>>)
    ensures Prefixed([], rest) == rest
  {
    if rest.Some? {
      assert [] + rest.value == rest.value;
    }
  }

  lemma EntryStep(coses: seq<string>, i: nat, done: seq<CacheCos>)
    requires i < |coses|
    ensures Prefixed(done, ParseEntries(coses[i..])) ==
      match ParseEntry(coses[i]) {
        case None => None
        case Some(c) => Prefixed(done + [c], ParseEntries(coses[i + 1..]))
      }
  {
    assert coses[i..][0] == coses[i] && coses[i..][1..] == coses[i + 1..];
    if ParseEntry(coses[i]).Some? && ParseEntries(coses[i + 1..]).Some? {
      var c, rest := ParseEntry(coses[i]).value, ParseEntries(coses[i + 1..]).value;
      assert done + ([c] + rest) == (done + [c]) + rest;
    }
  }

  // ----- the round trip -----

  /** The cache ids are 0..n-1, each once, and 8 bits wide; the masks avoid the delimiters. */
  ghost predicate GoodRow(v: seq<CacheCos>) {
    && 1 <= |v| <= 256
    && (forall j :: 0 <= j < |v| ==> v[j].id < |v| && ';' !in v[j].mask && '\n' !in v[j].mask)
    && (forall i, j :: 0 <= i < j < |v| ==> v[i].id != v[j].id)
    && forall id: nat :: id < |v| ==> FirstWith(v, id).Some?
  }

  predicate GoodKey(k: string) {
    k != "" && ':' !in k && '\n' !in k && ' ' !in k
  }

  /** The same entries, by cache id. */
  function Sorted(v: seq<CacheCos>): (r: seq<CacheCos>)
    ensures |r| == |v| && forall id: nat :: id < |v| && FirstWith(v, id).Some? ==> r[id] == FirstWith(v, id).value
  {
    seq(|v|, id requires 0 <= id < |v| => match FirstWith(v, id) { case Some(c) => c case None => CacheCos(0, "") })
  }

  lemma SortedIsSame(v: seq<CacheCos>)
    requires GoodRow(v)
    ensures forall j :: 0 <= j < |v| ==> Sorted(v)[v[j].id] == v[j]
    ensures forall id: nat :: id < |v| ==> Sorted(v)[id].id == id && Sorted(v)[id] in v
  {
    forall j | 0 <= j < |v| ensures Sorted(v)[v[j].id] == v[j] {
      var c := FirstWith(v, v[j].id).value;
      var i :| 0 <= i < |v| && v[i] == c;
      assert v[i].id == v[j].id;
      assert i == j;
    }
  }

  lemma EntryParses(c: CacheCos)
    requires c.id < 256
    ensures ParseEntry(EntryText(c)) == Some(c)
  {
    FormatParses(c.id, 10);
    assert '=' !in Itoa(c.id);
    CutHead(Itoa(c.id), '=', c.mask);
  }

  /** The entry printed for cache id `i`. */
  lemma RowEntry(v: seq<CacheCos>, i: nat) returns (c: CacheCos)
    requires GoodRow(v) && i < |v|
    ensures FirstWith(v, i % 256) == Some(c) && Sorted(v)[i] == c
    ensures ParseEntry(EntryText(c)) == Some(c) && ';' !in EntryText(c) && '\n' !in EntryText(c)
  {
    assert i % 256 == i;
    c := FirstWith(v, i).value;
    var j :| 0 <= j < |v| && v[j] == c;
    EntryParses(c);
    EntryAvoids(c);
  }

  lemma {:induction false} RowParses(v: seq<CacheCos>, n: nat)
    requires GoodRow(v) && n <= |v|
    ensures |Row(v, n)| == n && ParseEntries(Row(v, n)) == Some(Sorted(v)[..n])
    ensures forall i :: 0 <= i < n ==> ';' !in Row(v, n)[i] && '\n' !in Row(v, n)[i]
  {
    if n > 0 {
      RowParses(v, n - 1);
      var c := RowEntry(v, n - 1);
      var row, text := Row(v, n - 1), EntryText(c);
      RowStep(row, text, c, Sorted(v), n);
      RowGrows(v, n, c);
      forall i | 0 <= i < n ensures ';' !in (row + [text])[i] && '\n' !in (row + [text])[i] {
        assert i < n - 1 ==> (row + [text])[i] == row[i];
      }
    }
  }

  lemma RowGrows(v: seq<CacheCos>, n: nat, c: CacheCos)
    requires n >= 1 && FirstWith(v, (n - 1) % 256) == Some(c)
    ensures Row(v, n) == Row(v, n - 1) + [EntryText(c)]
  {
  }

  lemma RowStep(row: seq<string>, text: string, c: CacheCos, sorted: seq<CacheCos>, n: nat)
    requires 1 <= n <= |sorted| && sorted[n - 1] == c
    requires ParseEntry(text) == Some(c) && ParseEntries(row) == Some(sorted[..n - 1])
    ensures ParseEntries(row + [text]) == Some(sorted[..n])
  {
    EntriesAppend(row, text);
    assert sorted[..n] == sorted[..n - 1] + [c];
  }

  lemma EntryAvoids(c: CacheCos)
    requires ';' !in c.mask && '\n' !in c.mask
    ensures ';' !in EntryText(c) && '\n' !in EntryText(c)
  {
    FormatParses(c.id, 10);
    assert ';' !in Itoa(c.id) && '\n' !in Itoa(c.id);
  }

  lemma {:induction false} EntriesAppend(coses: seq<string>, last: string)
    requires ParseEntries(coses).Some? && ParseEntry(last).Some?
    ensures ParseEntries(coses + [last]) == Some(ParseEntries(coses).value + [ParseEntry(last).value])
  {
    var all := coses + [last];
    if coses == [] {
      assert all == [last] && [last][1..] == [] && ParseEntries([]) == Some([]);
      var d := ParseEntry(last).value;
      assert [d] + [] == [d] == [] + [d];
    } else {
      EntriesAppend(coses[1..], last);
      assert all[1..] == coses[1..] + [last] && all[0] == coses[0];
      var c, rest, d := ParseEntry(coses[0]).value, ParseEntries(coses[1..]).value, ParseEntry(last).value;
      assert [c] + (rest + [d]) == ([c] + rest) + [d];
    }
  }

  lemma {:induction false} JoinAvoids(parts: seq<string>, sep: char, c: char)
    requires c != sep && forall i :: 0 <= i < |parts| ==> c !in parts[i]
    ensures c !in Join(parts, sep)
  {
    if |parts| > 1 {
      JoinAvoids(parts[1..], sep, c);
    }
  }

  lemma {:induction false} NoSpaces(s: string)
    requires ' ' !in s
    ensures RemoveSpaces(s) == s
  {
    if s != "" {
      NoSpaces(s[1..]);
      assert [s[0]] + s[1..] == s;
    }
  }

  /** The entries there are under a key. */
  function Under(res: map<string, seq<CacheCos>>, k: string): seq<CacheCos> {
    if k in res then res[k] else []
  }

  /** A line adds its entries, by cache id, behind those that its key has already. */
  lemma LineParses(k: string, v: seq<CacheCos>, res: map<string, seq<CacheCos>>)
    requires GoodKey(k) && GoodRow(v)
    ensures LineKey(Line(k, v)) == k && ParseLine(Line(k, v), res) == Some(res[k := Under(res, k) + Sorted(v)])
    ensures k !in res ==> ParseLine(Line(k, v), res) == Some(res[k := Sorted(v)])
    ensures '\n' !in Line(k, v)
  {
    var row := Row(v, |v|);
    RowParses(v, |v|);
    CutHead(k, ':', Join(row, ';'));
    NoSpaces(k);
    SplitJoin(row, ';');
    JoinAvoids(row, ';', '\n');
    assert Sorted(v)[..|v|] == Sorted(v) && [] + Sorted(v) == Sorted(v);
  }

  ghost predicate GoodSchemata(m: map<string, seq<CacheCos>>) {
    forall k :: k in m ==> GoodKey(k) && GoodRow(m[k])
  }

  lemma {:induction false} LinesAvoid(m: map<string, seq<CacheCos>>, order: seq<string>)
    requires GoodSchemata(m) && forall i :: 0 <= i < |order| ==> order[i] in m
    ensures forall i :: 0 <= i < |order| ==> '\n' !in Lines(m, order)[i]
  {
    if order != [] {
      LineParses(order[0], m[order[0]], map[]);
      LinesAvoid(m, order[1..]);
    }
  }

  lemma LinesCons(m: map<string, seq<CacheCos>>, order: seq<string>)
    requires order != [] && forall i :: 0 <= i < |order| ==> order[i] in m
    ensures var all := Lines(m, order) + [""];
      all[0] == Line(order[0], m[order[0]]) && all[1..] == Lines(m, order[1..]) + [""]
  {
  }

  /** Parsing the lines of the keys in `order` adds exactly those keys, sorted. */
  lemma {:induction false} LinesParse(m: map<string, seq<CacheCos>>, order: seq<string>, res: map<string, seq<CacheCos>>)
    requires GoodSchemata(m) && (forall i :: 0 <= i < |order| ==> order[i] in m && order[i] !in res)
    requires forall i, j :: 0 <= i < j < |order| ==> order[i] != order[j]
    ensures ParseLines(Lines(m, order) + [""], res) == Some(res + SortedFor(m, order))
    decreases |order|
  {
    if order == [] {
      assert Lines(m, order) + [""] == [""] && LineKey("") == "";
      assert res + SortedFor(m, order) == res;
    } else {
      var k := order[0];
      LineParses(k, m[k], res);
      LinesCons(m, order);
      SortedForStep(m, order, res);
      LinesParse(m, order[1..], res[k := Sorted(m[k])]);
    }
  }

  /** The parsed form of the resources in `order`. */
  ghost function SortedFor(m: map<string, seq<CacheCos>>, order: seq<string>): map<string, seq<CacheCos>> {
    map k | k in order && k in m :: Sorted(m[k])
  }

  lemma SortedForStep(m: map<string, seq<CacheCos>>, order: seq<string>, res: map<string, seq<CacheCos>>)
    requires order != [] && order[0] in m && order[0] !in order[1..]
    ensures res[order[0] := Sorted(m[order[0]])] + SortedFor(m, order[1..]) == res + SortedFor(m, order)
  {
    assert forall k :: k in order <==> k == order[0] || k in order[1..];
  }

  /** Schemata round trip: whatever order the resources are printed in and whatever order their
      entries were in, parsing gives back every mask under its cache id, sorted. */
  lemma SchemataRoundTrip(m: map<string, seq<CacheCos>>, order: seq<string>, prior: map<string, seq<CacheCos>>)
    requires GoodSchemata(m) && Enumerates(order, m.Keys)
    ensures Parse(Print(m, order), prior).Some?
    ensures var parsed := Parse(Print(m, order), prior).value;
      parsed.Keys == m.Keys && forall k :: k in m ==> parsed[k] == Sorted(m[k])
  {
    var lines := Lines(m, order);
    LinesParse(m, order, map[]);
    LinesAvoid(m, order);
    SplitPrinted(lines);
    if order == [] {
      assert ParseLines(["", ""], map[]) == Some(map[]);
    } else {
      assert Parse(Print(m, order), prior) == Some(map[] + SortedFor(m, order));
    }
  }

  lemma SplitPrinted(lines: seq<string>)
    requires forall i :: 0 <= i < |lines| ==> '\n' !in lines[i]
    ensures Split(Join(lines, '\n') + "\n", '\n') == if lines == [] then ["", ""] else lines + [""]
  {
    if lines == [] {
      SplitHead("", '\n', "");
      assert "" + "\n" + "" == "" + "\n";
    } else {
      JoinLast(lines);
      SplitJoin(lines + [""], '\n');
    }
  }

  lemma JoinLast(lines: seq<string>)
    requires lines != []
    ensures Join(lines + [""], '\n') == Join(lines, '\n') + "\n"
  {
    JoinAppend(lines, '\n', "");
    assert Join(lines, '\n') + ['\n'] + "" == Join(lines, '\n') + "\n";
  }

  // ----- spaces in front of the keys -----

  function Spaces(n: nat): (s: string)
    ensures |s| == n && forall i :: 0 <= i < n ==> s[i] == ' '
  {
    seq(n, _ => ' ')
  }

  lemma {:induction false} SpacesGone(s: string)
    ensures ' ' !in RemoveSpaces(s)
    ensures forall c :: c != ' ' ==> (c in RemoveSpaces(s) <==> c in s)
  {
    if s != "" {
      SpacesGone(s[1..]);
      assert s == [s[0]] + s[1..];
    }
  }

  lemma {:induction false} RemoveAppend(a: string, b: string)
    ensures RemoveSpaces(a + b) == RemoveSpaces(a) + RemoveSpaces(b)
  {
    if a == "" {
      assert a + b == b;
    } else {
      RemoveAppend(a[1..], b);
      assert (a + b)[0] == a[0] && (a + b)[1..] == a[1..] + b;
      assert [a[0]] + (RemoveSpaces(a[1..]) + RemoveSpaces(b)) == ([a[0]] + RemoveSpaces(a[1..])) + RemoveSpaces(b);
    }
  }

  lemma {:induction false} OnlySpaces(n: nat)
    ensures RemoveSpaces(Spaces(n)) == ""
  {
    if n > 0 {
      OnlySpaces(n - 1);
      assert Spaces(n)[1..] == Spaces(n - 1);
    }
  }

  /** The kernel writes the keys flush right: spaces in front of a line change nothing. */
  lemma IndentedLine(n: nat, line: string, res: map<string, seq<CacheCos>>)
    ensures LineKey(Spaces(n) + line) == LineKey(line)
    ensures ParseLine(Spaces(n) + line, res) == ParseLine(line, res)
  {
    OnlySpaces(n);
    var pad := Spaces(n);
    if ':' in line {
      var key, values := Cut(line, ':').value.0, Cut(line, ':').value.1;
      assert pad + line == (pad + key) + [':'] + values;
      CutHead(pad + key, ':', values);
      RemoveAppend(pad, key);
      assert "" + RemoveSpaces(key) == RemoveSpaces(key);
    } else {
      assert ':' !in pad + line;
      RemoveAppend(pad, line);
      assert "" + RemoveSpaces(line) == RemoveSpaces(line);
    }
  }

  /** Each line with its own number of spaces in front. */
  function Indent(ns: seq<nat>, lines: seq<string>): (r: seq<string>)
    requires |ns| == |lines|
    ensures |r| == |lines| && forall i :: 0 <= i < |lines| ==> r[i] == Spaces(ns[i]) + lines[i]
  {
    if lines == [] then [] else [Spaces(ns[0]) + lines[0]] + Indent(ns[1..], lines[1..])
  }

  lemma {:induction false} IndentedLines(ns: seq<nat>, lines: seq<string>, res: map<string, seq<CacheCos>>)
    requires |ns| == |lines|
    ensures ParseLines(Indent(ns, lines), res) == ParseLines(lines, res)
    decreases |lines|
  {
    if lines != [] {
      IndentedLine(ns[0], lines[0], res);
      if ParseLine(lines[0], res).Some? {
        IndentedLines(ns[1..], lines[1..], ParseLine(lines[0], res).value);
      }
    }
  }

  /** Whatever the spaces in front of the printed lines, the text is parsed to the same masks. */
  lemma IndentedTextParses(m: map<string, seq<CacheCos>>, order: seq<string>, ns: seq<nat>, prior: map<string, seq<CacheCos>>)
    requires GoodSchemata(m) && Enumerates(order, m.Keys) && |ns| == |order|
    ensures Parse(Join(Indent(ns, Lines(m, order)), '\n') + "\n", prior) == Parse(Print(m, order), prior)
  {
    var lines := Lines(m, order);
    var padded := Indent(ns, lines);
    LinesAvoid(m, order);
    SplitPrinted(lines);
    SplitPrinted(padded);
    if lines != [] {
      LastUnpadded(ns, lines);
      IndentedLines(ns + [0], lines + [""], map[]);
    }
  }

  lemma {:induction false} LastUnpadded(ns: seq<nat>, lines: seq<string>)
    requires |ns| == |lines|
    ensures Indent(ns + [0], lines + [""]) == Indent(ns, lines) + [""]
  {
    var r := Indent(ns + [0], lines + [""]);
    var n := |lines|;
    assert (ns + [0])[n] == 0 && (lines + [""])[n] == "" && r[n] == Spaces(0) + "" == "";
    forall i | 0 <= i < n ensures r[i] == Indent(ns, lines)[i] {
      assert (ns + [0])[i] == ns[i] && (lines + [""])[i] == lines[i];
    }
  }

  ghost predicate CleanKeys(res: map<string, seq<CacheCos>>) {
    forall k :: k in res ==> ' ' !in k && k != ""
  }

  lemma {:induction false} LinesKeepClean(lines: seq<string>, res: map<string, seq<CacheCos>>)
    requires CleanKeys(res) && ParseLines(lines, res).Some?
    ensures CleanKeys(ParseLines(lines, res).value)
    decreases |lines|
  {
    if lines != [] && LineKey(lines[0]) != "" {
      var line := lines[0];
      SpacesGone(match Cut(line, ':') { case None => line case Some(p) => p.0 });
      LinesKeepClean(lines[1..], ParseLine(line, res).value);
    }
  }

  /** No key of a parsed text holds a space, and none is empty. */
  lemma KeysAreClean(text: string, prior: map<string, seq<CacheCos>>)
    requires CleanKeys(prior) && Parse(text, prior).Some?
    ensures CleanKeys(Parse(text, prior).value)
  {
    var strs := Split(text, '\n');
    LinesKeepClean(strs, if |strs| > 1 then map[] else prior);
  }

  // ----- what else the parser does -----

  lemma LineThenRest(line: string, rest: seq<string>, res: map<string, seq<CacheCos>>, next: map<string, seq<CacheCos>>)
    requires LineKey(line) != "" && ParseLine(line, res) == Some(next)
    ensures ParseLines([line] + rest, res) == ParseLines(rest, next)
  {
    assert ([line] + rest)[1..] == rest;
  }

  /** A text without a line end adds to what was there before. */
  lemma OneLineAdds(k: string, v: seq<CacheCos>, prior: map<string, seq<CacheCos>>)
    requires GoodKey(k) && GoodRow(v)
    ensures Parse(Line(k, v), prior) == Some(prior[k := Under(prior, k) + Sorted(v)])
  {
    var line := Line(k, v);
    LineParses(k, v, prior);
    SplitHead(line, '\n', "");
    LineThenRest(line, [], prior, prior[k := Under(prior, k) + Sorted(v)]);
    assert [line] + [] == [line];
  }

  /** Two lines with the same key: the entries of both, in order, and nothing from before. */
  lemma RepeatedKey(k: string, v: seq<CacheCos>, w: seq<CacheCos>, prior: map<string, seq<CacheCos>>)
    requires GoodKey(k) && GoodRow(v) && GoodRow(w)
    ensures Parse(Join([Line(k, v), Line(k, w)], '\n') + "\n", prior) == Some(map[k := Sorted(v) + Sorted(w)])
  {
    var a, b := Line(k, v), Line(k, w);
    LineParses(k, v, map[]);
    LineParses(k, w, map[k := Sorted(v)]);
    SplitPrinted([a, b]);
    TwoLines(a, b, k, Sorted(v), Sorted(w));
  }

  lemma TwoLines(a: string, b: string, k: string, v: seq<CacheCos>, w: seq<CacheCos>)
    requires LineKey(a) == LineKey(b) == k && k != "" && ParseLine(a, map[]) == Some(map[k := v])
    requires ParseLine(b, map[k := v]) == Some(map[k := v][k := v + w])
    ensures ParseLines([a, b] + [""], map[]) == Some(map[k := v + w])
  {
    assert [a, b] + [""] == [a] + ([b] + [""]);
    assert map[k := v][k := v + w] == map[k := v + w];
    LineThenRest(a, [b] + [""], map[], map[k := v]);
    LineThenRest(b, [""], map[k := v], map[k := v + w]);
    assert LineKey("") == "";
  }

  /** Nothing behind an empty line is read. */
  lemma {:induction false} StopsAtEmptyLine(lines: seq<string>, more: seq<string>, res: map<string, seq<CacheCos>>)
    ensures ParseLines(lines + [""] + more, res) == ParseLines(lines + [""], res)
    decreases |lines|
  {
    if lines == [] {
      assert ([""] + more)[0] == "" && LineKey("") == "";
      assert lines + [""] + more == [""] + more && lines + [""] == [""];
    } else {
      assert (lines + [""] + more)[1..] == lines[1..] + [""] + more && (lines + [""])[1..] == lines[1..] + [""];
      assert (lines + [""] + more)[0] == (lines + [""])[0] == lines[0];
      if ParseLine(lines[0], res).Some? {
        StopsAtEmptyLine(lines[1..], more, ParseLine(lines[0], res).value);
      }
    }
  }

  /** A line makes the code panic exactly when it lacks a colon or one of its entries an equals
      sign. */
  lemma LinePanics(line: string, res: map<string, seq<CacheCos>>)
    ensures ':' !in line ==> ParseLine(line, res).None?
    ensures ':' in line ==>
      var coses := Split(Cut(line, ':').value.1, ';');
      ParseLine(line, res).None? <==> SomeEntryWithout(coses)
  {
    if ':' in line {
      var coses := Split(Cut(line, ':').value.1, ';');
      EntriesPanic(coses);
      assert ParseLine(line, res).None? <==> ParseEntries(coses).None?;
    }
  }

  ghost predicate SomeEntryWithout(coses: seq<string>) {
    exists i :: 0 <= i < |coses| && '=' !in coses[i]
  }

  lemma {:induction false} EntriesPanic(coses: seq<string>)
    ensures ParseEntries(coses).None? <==> SomeEntryWithout(coses)
  {
    if coses != [] {
      EntriesPanic(coses[1..]);
      assert forall i :: 1 <= i < |coses| ==> coses[i] == coses[1..][i - 1];
      if i :| 0 <= i < |coses[1..]| && '=' !in coses[1..][i] {
        assert '=' !in coses[i + 1];
      }
    }
  }

  /** Cache ids: a number above 255 is read as 255, and what is no number as 0. */
  lemma IdsAreBytes(n: nat, s: string)
    ensures ParseId(Itoa(n)) == if n <= 255 then n else 255
    ensures (s == "" || !AllDigits(s, 10)) ==> ParseId(s) == 0
  {
    FormatParses(n, 10);
  }

  /** The text of the first entry of a cache id below `n`. */
  ghost predicate FirstEntry(v: seq<CacheCos>, n: nat, t: string) {
    exists id: nat :: id < n && t in EntryOf(v, id)
  }

  /** A row of up to 256 entries holds exactly the first entry of every cache id in its range. */
  lemma {:induction false} RowMembers(v: seq<CacheCos>, n: nat, t: string)
    requires n <= 256
    ensures t in Row(v, n) <==> FirstEntry(v, n, t)
  {
    if n > 0 {
      RowMembers(v, n - 1, t);
      SmallId(n - 1);
      assert FirstEntry(v, n, t) <==> FirstEntry(v, n - 1, t) || t in EntryOf(v, n - 1);
    }
  }

  lemma SmallId(id: nat)
    requires id < 256
    ensures id % 256 == id
  {
  }

  lemma SameByte(id: nat)
    ensures (256 + id) % 256 == id % 256
  {
  }

  /** Cache ids are bytes: a longer row starts over. */
  lemma {:induction false} RowStartsOver(v: seq<CacheCos>, n: nat)
    ensures Row(v, 256 + n) == Row(v, 256) + Row(v, n)
  {
    if n == 0 {
      assert Row(v, 256) + [] == Row(v, 256);
    } else {
      RowStartsOver(v, n - 1);
      SameByte(n - 1);
      NextEntry(v, 256 + (n - 1));
      NextEntry(v, n - 1);
      Regroup(Row(v, 256), Row(v, n - 1), EntryOf(v, (n - 1) % 256));
    }
  }

  lemma NextEntry(v: seq<CacheCos>, n: nat)
    ensures Row(v, n + 1) == Row(v, n) + EntryOf(v, n % 256)
  {
  }

  lemma Regroup(a: seq<string>, b: seq<string>, c: seq<string>)
    ensures (a + b) + c == a + (b + c)
  {
  }
}
