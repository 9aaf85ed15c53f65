/** Lists of range texts such as ["2-8,^3-4", "9"] (utils/bitmap/bitmap.go, genBits): every text
    counts, and which texts are readable at all. */
module RangeLists {
  import Runs
  import opened HumanText
  import opened Ranges
  import opened Text
  import opened WaySets

  // ----- one text after the other -----

  lemma OneTextParses(t: string)
    ensures ParseRanges([t]) == if BadExpression(t) then Parsed([], false) else ParseItems(Split(t, ','))
  {
    assert [t][1..] == [];
    var head := ParseItems(Split(t, ','));
    assert head.items + [] == head.items;
  }

  /** Reading on after `a`. */
  function Then(a: Parsed, b: Parsed): Parsed {
    if a.ok then Parsed(a.items + b.items, b.ok) else a
  }

  lemma ThenAgain(a: Parsed, b: Parsed, c: Parsed)
    ensures Then(a, Then(b, c)) == Then(Then(a, b), c)
  {
    assert (a.items + b.items) + c.items == a.items + (b.items + c.items);
  }

  lemma FirstThenRest(t: string, rest: seq<string>)
    ensures ParseRanges([t] + rest) == Then(ParseRanges([t]), ParseRanges(rest))
  {
    OneTextParses(t);
    assert ([t] + rest)[1..] == rest;
  }

  /** Texts are read one after the other, up to the first that has an error. */
  lemma {:induction false} ParseConcat(a: seq<string>, b: seq<string>)
    ensures ParseRanges(a + b) == Then(ParseRanges(a), ParseRanges(b))
  {
    if a == [] {
      assert a + b == b && [] + ParseRanges(b).items == ParseRanges(b).items;
    } else {
      var t, rest := a[0], a[1..];
      ParseConcat(rest, b);
      assert a == [t] + rest && a + b == [t] + (rest + b);
      FirstThenRest(t, rest + b);
      FirstThenRest(t, rest);
      ThenAgain(ParseRanges([t]), ParseRanges(rest), ParseRanges(b));
    }
  }

  /** A list is read without an error exactly when each of its texts is, on its own. */
  lemma {:induction false} OkOneByOne(texts: seq<string>)
    ensures ParseRanges(texts).ok <==> forall i :: 0 <= i < |texts| ==> ParseRanges([texts[i]]).ok
  {
    if texts != [] {
      OkOneByOne(texts[1..]);
      ParseConcat([texts[0]], texts[1..]);
      assert [texts[0]] + texts[1..] == texts;
      assert forall i :: 1 <= i < |texts| ==> texts[i] == texts[1..][i - 1];
    }
  }

  function TextOf(items: seq<Item>): string {
    Join(ItemTexts(items), ',')
  }

  function TextsOf(lists: seq<seq<Item>>): (r: seq<string>)
    ensures |r| == |lists| && forall i :: 0 <= i < |lists| ==> r[i] == TextOf(lists[i])
  {
    if lists == [] then [] else [TextOf(lists[0])] + TextsOf(lists[1..])
  }

  /** The lists one after the other. */
  function AllItems(lists: seq<seq<Item>>): seq<Item> {
    if lists == [] then [] else lists[0] + AllItems(lists[1..])
  }

  /** Several texts, each with any items in it, are read as all those items in order. */
  lemma {:induction false} TextsReadBack(lists: seq<seq<Item>>)
    requires forall i :: 0 <= i < |lists| ==> lists[i] != []
    ensures ParseRanges(TextsOf(lists)) == Parsed(AllItems(lists), true)
  {
    if lists != [] {
      TextsReadBack(lists[1..]);
      FirstReadBack(lists[0], TextsOf(lists[1..]), AllItems(lists[1..]));
    }
  }

  lemma FirstReadBack(items: seq<Item>, rest: seq<string>, more: seq<Item>)
    requires items != [] && ParseRanges(rest) == Parsed(more, true)
    ensures ParseRanges([TextOf(items)] + rest) == Parsed(items + more, true)
  {
    ItemTextsReadBack(items);
    FirstThenRest(TextOf(items), rest);
  }

  /** Texts of single numbers, "1", "2", as workloads name their cores, stand for exactly those
      positions, however many texts there are. */
  lemma {:induction false} NumbersReadBack(ids: seq<nat>)
    ensures ParseRanges(Itoas(ids)).ok
    ensures Fold({}, ParseRanges(Itoas(ids)).items) == Members(ids)
    ensures FoldUpper({}, ParseRanges(Itoas(ids)).items) == {}
  {
    if ids != [] {
      var front, last := ids[..|ids| - 1], ids[|ids| - 1];
      NumbersReadBack(front);
      OneNumber(last);
      ParseConcat(Itoas(front), [Itoa(last)]);
      OneMorePosition(ParseRanges(Itoas(front)).items, last);
      OneMoreId(ids);
    }
  }

  lemma OneMorePosition(items: seq<Item>, p: nat)
    ensures Fold({}, items + [Single(true, p)]) == Fold({}, items) + {p}
    ensures FoldUpper({}, items + [Single(true, p)]) == FoldUpper({}, items)
  {
    var it := Single(true, p);
    FoldOne(items, it);
    FoldUpperAppend({}, items, [it]);
    assert [it][1..] == [];
    assert Interval(p, p + 1) == {p};
  }

  ghost function Members(ids: seq<nat>): (s: set<nat>)
    ensures forall i :: i in s <==> i in ids
  {
    set i | i in ids
  }

  lemma OneMoreId(ids: seq<nat>)
    requires ids != []
    ensures Members(ids) == Members(ids[..|ids| - 1]) + {ids[|ids| - 1]}
  {
    assert ids == ids[..|ids| - 1] + [ids[|ids| - 1]];
  }

  lemma OneNumber(n: nat)
    ensures ParseRanges([Itoa(n)]) == Parsed([Single(true, n)], true)
  {
    var it := Single(true, n);
    ItemTextsReadBack([it]);
    NoSign(it);
    assert ItemTexts([it]) == [ItemText(it)];
  }

  // ----- which texts are readable -----

  predicate Numeral(s: string) {
    s != "" && AllDigits(s, 10)
  }

  /** "5" or "2-8". */
  predicate RangeForm(s: string) {
    Numeral(s) || exists i :: 0 <= i < |s| && s[i] == '-' && Numeral(s[..i]) && Numeral(s[i + 1..])
  }

  /** With or without a caret in front. */
  predicate ItemForm(s: string) {
    RangeForm(s) || (s != "" && s[0] == '^' && RangeForm(s[1..]))
  }

  ghost predicate AllForms(parts: seq<string>) {
    forall j :: 0 <= j < |parts| ==> ItemForm(parts[j])
  }

  /** A range list is read without an error exactly when every text is a comma-separated list of
      items "5", "2-8", "^7" and "^3-4". */
  lemma ReadableIff(texts: seq<string>)
    ensures ParseRanges(texts).ok <==> forall i :: 0 <= i < |texts| ==> AllForms(Split(texts[i], ','))
  {
    OkOneByOne(texts);
    forall i | 0 <= i < |texts| ensures ParseRanges([texts[i]]).ok <==> AllForms(Split(texts[i], ',')) {
      OneTextParses(texts[i]);
      if AllForms(Split(texts[i], ',')) {
        FormsAreRead(texts[i]);
      }
      if ParseRanges([texts[i]]).ok {
        ReadHasForms(texts[i]);
      }
    }
  }

  lemma FormsAreRead(t: string)
    requires AllForms(Split(t, ','))
    ensures !BadExpression(t) && ParseItems(Split(t, ',')).ok
  {
    FormsAreClean(t);
    CleanIsGood(t);
    var parts := Split(t, ',');
    forall j | 0 <= j < |parts| ensures ParseItem(parts[j]).Some? {
      FormParses(parts[j]);
    }
    ItemsOkIff(parts);
  }

  lemma ReadHasForms(t: string)
    requires !BadExpression(t) && ParseItems(Split(t, ',')).ok
    ensures AllForms(Split(t, ','))
  {
    var parts := Split(t, ',');
    ItemsOkIff(parts);
    GoodParts(t);
    forall j | 0 <= j < |parts| ensures ItemForm(parts[j]) {
      ParsedHasForm(parts[j]);
    }
  }

  lemma {:induction false} ItemsOkIff(scopes: seq<string>)
    ensures ParseItems(scopes).ok <==> forall j :: 0 <= j < |scopes| ==> ParseItem(scopes[j]).Some?
  {
    if scopes != [] {
      ItemsOkIff(scopes[1..]);
      assert forall j :: 1 <= j < |scopes| ==> scopes[j] == scopes[1..][j - 1];
    }
  }

  /** The text in front of the first comma, and the rest. */
  lemma SplitAtComma(t: string) returns (a: string, rest: string)
    requires ',' in t
    ensures t == a + "," + rest && ',' !in a && Split(t, ',') == [a] + Split(rest, ',') && |rest| < |t|
  {
    a, rest := Cut(t, ',').value.0, Cut(t, ',').value.1;
    SplitHead(a, ',', rest);
    assert t == a + [','] + rest;
  }

  lemma WholeText(t: string)
    requires ',' !in t
    ensures Split(t, ',') == [t]
  {
    SplitHead(t, ',', "");
  }

  /** When the expression check passes, it passes for every part. */
  lemma {:induction false} GoodParts(t: string)
    requires !BadExpression(t)
    ensures forall j :: 0 <= j < |Split(t, ',')| ==> !BadExpression(Split(t, ',')[j])
    decreases |t|
  {
    if ',' in t {
      var a, rest := SplitAtComma(t);
      GoodHalves(a, rest);
      GoodParts(rest);
    } else {
      WholeText(t);
    }
  }

  lemma GoodHalves(a: string, b: string)
    requires !BadExpression(a + "," + b)
    ensures !BadExpression(a) && !BadExpression(b)
  {
    var t := a + "," + b;
    forall i | 0 <= i < |a| ensures !BadAt(a, i) {
      assert !BadAt(t, i) && t[i] == a[i];
      assert i > 0 ==> t[i - 1] == a[i - 1];
      assert t[i + 1] == if i + 1 < |a| then a[i + 1] else ',';
    }
    forall i | 0 <= i < |b| ensures !BadAt(b, i) {
      var k := |a| + 1 + i;
      assert !BadAt(t, k) && t[k] == b[i];
      assert t[k - 1] == if i > 0 then b[i - 1] else ',';
      assert k + 1 < |t| ==> t[k + 1] == b[i + 1];
    }
  }

  /** And texts made of such items pass the check. */
  lemma {:induction false} FormsAreClean(t: string)
    requires AllForms(Split(t, ','))
    ensures Clean(t)
    decreases |t|
  {
    if ',' in t {
      var a, rest := SplitAtComma(t);
      assert Split(t, ',')[0] == a;
      assert forall j :: 0 <= j < |Split(rest, ',')| ==> Split(t, ',')[j + 1] == Split(rest, ',')[j];
      FormIsClean(a);
      FormsAreClean(rest);
      CleanAppend(a, rest);
    } else {
      WholeText(t);
      assert Split(t, ',')[0] == t;
      FormIsClean(t);
    }
  }

  lemma RangeIsClean(s: string)
    requires RangeForm(s)
    ensures Clean(s) && IsDigit(s[0], 10)
  {
    if !Numeral(s) {
      var i :| 0 <= i < |s| && s[i] == '-' && Numeral(s[..i]) && Numeral(s[i + 1..]);
      forall k | 0 <= k < |s| ensures CleanAt(s, k) {
        assert k < i ==> s[k] == s[..i][k];
        assert k > i ==> s[k] == s[i + 1..][k - i - 1];
        assert s[i - 1] == s[..i][i - 1] && s[i + 1] == s[i + 1..][0];
      }
      assert s[0] == s[..i][0];
    }
  }

  lemma FormIsClean(s: string)
    requires ItemForm(s)
    ensures Clean(s)
  {
    if RangeForm(s) {
      RangeIsClean(s);
    } else {
      var r := s[1..];
      RangeIsClean(r);
      forall k | 0 <= k < |s| ensures CleanAt(s, k) {
        assert s[1] == r[0];
        if k > 0 {
          assert CleanAt(r, k - 1);
        }
      }
    }
  }

  /** An item without its caret. */
  function Body(s: string): string {
    if s != "" && s[0] == '^' then s[1..] else s
  }

  lemma DigitsHold(s: string, c: char)
    requires AllDigits(s, 10) && !IsDigit(c, 10)
    ensures c !in s
  {
  }

  lemma NumeralParses(s: string)
    ensures ParseNat(s, 10).Some? <==> Numeral(s)
  {
  }

  lemma FormParses(s: string)
    requires ItemForm(s)
    ensures ParseItem(s).Some?
  {
    var r := Body(s);
    BodyForm(s);
    NoCaret(r);
    TrimmedBody(s);
    if Numeral(r) {
      DigitsHold(r, '-');
      assert '-' in s <==> '-' in r;
      NumeralParses(r);
    } else {
      var i :| 0 <= i < |r| && r[i] == '-' && Numeral(r[..i]) && Numeral(r[i + 1..]);
      SpanParses(s, r, i);
    }
  }

  lemma BodyForm(s: string)
    requires ItemForm(s)
    ensures RangeForm(Body(s))
  {
    if RangeForm(s) {
      RangeIsClean(s);
      assert Body(s) == s;
    }
  }

  lemma NoCaret(r: string)
    requires RangeForm(r)
    ensures '^' !in r
  {
    if Numeral(r) {
      DigitsHold(r, '^');
    } else {
      var i :| 0 <= i < |r| && r[i] == '-' && Numeral(r[..i]) && Numeral(r[i + 1..]);
      DigitsHold(r[..i], '^');
      DigitsHold(r[i + 1..], '^');
      NotInParts(r, i, '^');
    }
  }

  lemma NotInParts(r: string, i: nat, c: char)
    requires i < |r| && r[i] != c && c !in r[..i] && c !in r[i + 1..]
    ensures c !in r
  {
    assert r == r[..i] + [r[i]] + r[i + 1..];
  }

  lemma TrimmedBody(s: string)
    requires '^' !in Body(s)
    ensures TrimLeft(s, '^') == Body(s)
  {
    if s != "" && s[0] == '^' {
      TrimCaret(s[1..]);
      assert s == "^" + s[1..];
    }
  }

  lemma SpanParses(s: string, r: string, i: nat)
    requires i < |r| && r[i] == '-' && Numeral(r[..i]) && Numeral(r[i + 1..])
    requires r == Body(s) == TrimLeft(s, '^')
    ensures ParseItem(s).Some?
  {
    DigitsHold(r[..i], '-');
    assert r == r[..i] + ['-'] + r[i + 1..];
    CutHead(r[..i], '-', r[i + 1..]);
    assert r[i] in r;
    assert forall c :: c in r ==> c in s;
    NumeralParses(r[..i]);
    NumeralParses(r[i + 1..]);
  }

  lemma ParsedHasForm(s: string)
    requires !BadExpression(s) && ParseItem(s).Some?
    ensures ItemForm(s)
  {
    OneCaret(s);
    var r := Body(s);
    if '-' in s {
      var lo, hi := Cut(r, '-').value.0, Cut(r, '-').value.1;
      assert r == lo + ['-'] + hi;
      assert r[..|lo|] == lo && r[|lo| + 1..] == hi;
      NumeralParses(lo);
      NumeralParses(hi);
      assert r[|lo|] == '-' && Numeral(r[..|lo|]) && Numeral(r[|lo| + 1..]);
    } else {
      NumeralParses(r);
    }
    assert RangeForm(r);
  }

  /** The check lets only one caret stand in front. */
  lemma OneCaret(s: string)
    requires !BadExpression(s)
    ensures TrimLeft(s, '^') == Body(s)
  {
    if s != "" && s[0] == '^' {
      assert !BadAt(s, 0);
      assert IsDigit(s[1], 10) && s[1..][0] == s[1];
    }
  }

  /** A text with any other character in it is refused as a whole: nothing of it, and nothing
      behind it, is read. */
  lemma ForeignCharacter(t: string, i: nat, rest: seq<string>)
    requires i < |t| && !IsDigit(t[i], 10) && t[i] != ',' && t[i] != '-' && t[i] != '^'
    ensures ParseRanges([t] + rest) == Parsed([], false)
  {
    assert BadAt(t, i);
    OneTextParses(t);
    ParseConcat([t], rest);
  }

  // ----- the items of a printed bitmap -----

  /** The items stand in order below `bound`, with a position left out between any two; and a
      position that stands alone is written alone. */
  ghost predicate Spaced(items: seq<Item>, bound: nat) {
    && (forall i :: 0 <= i < |items| ==> items[i].Lo() <= items[i].Hi() < bound)
    && (forall i :: 0 <= i < |items| && items[i].Span? ==> items[i].low < items[i].high)
    && forall i, j :: 0 <= i < j < |items| ==> items[i].Hi() + 1 < items[j].Lo()
  }

  lemma OneMoreSpaced(items: seq<Item>, it: Item, at: nat, bound: nat)
    requires Spaced(items, if at > 0 then at - 1 else 0) && at <= it.Lo() <= it.Hi() < bound && (it.Span? ==> it.low < it.high)
    ensures Spaced(items + [it], bound)
  {
  }

  /** ToHumanString writes as few items as there can be. */
  lemma {:induction false} ItemsAreRuns(ss: seq<string>, s: set<nat>, n: nat, k: nat)
    requires Runs.IsRuns(ss, s, n) && k <= |ss|
    ensures Spaced(RunItems(ss, k), Runs.Offset(ss, k))
    ensures k == 0 || ss[k - 1][0] != '1' ==>
      Spaced(RunItems(ss, k), if Runs.Offset(ss, k) > 0 then Runs.Offset(ss, k) - 1 else 0)
  {
    if k > 0 {
      ItemsAreRuns(ss, s, n, k - 1);
      RunChars(ss, s, n, k);
      NextSpaced(ss, k, RunItems(ss, k - 1), Runs.Offset(ss, k - 1));
    }
  }

  lemma RunChars(ss: seq<string>, s: set<nat>, n: nat, k: nat)
    requires Runs.IsRuns(ss, s, n) && 1 <= k <= |ss|
    ensures ss[k - 1] != "" && (k > 1 ==> ss[k - 2] != "" && (ss[k - 1][0] == '1' ==> ss[k - 2][0] != '1'))
  {
    assert Runs.Uniform(ss[k - 1]) && (k > 1 ==> Runs.Uniform(ss[k - 2]) && ss[k - 2][0] != ss[k - 1][0]);
  }

  lemma NextSpaced(ss: seq<string>, k: nat, before: seq<Item>, at: nat)
    requires 1 <= k <= |ss| && forall j :: 0 <= j < |ss| ==> ss[j] != ""
    requires before == RunItems(ss, k - 1) && at == Runs.Offset(ss, k - 1) && Spaced(before, at)
    requires ss[k - 1][0] == '1' ==> Spaced(before, if at > 0 then at - 1 else 0)
    ensures Spaced(RunItems(ss, k), Runs.Offset(ss, k))
    ensures ss[k - 1][0] != '1' ==> Spaced(RunItems(ss, k), Runs.Offset(ss, k) - 1)
  {
    if ss[k - 1][0] == '1' {
      OneMoreSpaced(before, RunItem(ss, k - 1), at, Runs.Offset(ss, k));
    } else {
      assert RunItems(ss, k) == before + [] == before;
    }
  }
}
