/** Printing a bitmap as a range list (utils/bitmap/bitmap.go, ToHumanString), and reading it
    back through genBits. */
module HumanText {
  import opened WaySets
  import opened Bitmaps
  import opened Ranges
  import opened Runs
  import opened Text

  /** A range as it is written: "5", "2-8", "^7", "^3-4". */
  function ItemText(it: Item): string {
    (if it.add then "" else "^") + RangeText(it)
  }

  function RangeText(it: Item): string {
    if it.Single? then Itoa(it.pos) else Itoa(it.low) + "-" + Itoa(it.high)
  }

  function ItemTexts(items: seq<Item>): (r: seq<string>)
    ensures |r| == |items|
  {
    if items == [] then [] else [ItemText(items[0])] + ItemTexts(items[1..])
  }

  /** The item for a run of ones. */
  function RunItem(ss: seq<string>, k: nat): Item
    requires k < |ss| && ss[k] != ""
  {
    var pos := Offset(ss, k);
    if |ss[k]| == 1 then Single(true, pos) else Span(true, pos, pos + |ss[k]| - 1)
  }

  /** The items for the first k runs. */
  function RunItems(ss: seq<string>, k: nat): seq<Item>
    requires k <= |ss| && forall j :: 0 <= j < |ss| ==> ss[j] != ""
  {
    if k == 0 then []
    else RunItems(ss, k - 1) + if ss[k - 1][0] == '1' then [RunItem(ss, k - 1)] else []
  }

  /** `text` is read back, without error and within the length, as exactly the set `s`. */
  ghost predicate ReadsBackAs(text: string, s: set<nat>, n: nat) {
    var p := ParseRanges([text]);
    p.ok && Addressable(p.items, WordCount(n)) && Fold({}, p.items) == s && FoldUpper({}, p.items) == {}
  }

  /** The text of a run decomposition. */
  function HumanOf(ss: seq<string>): string
    requires forall j :: 0 <= j < |ss| ==> ss[j] != ""
  {
    Join(ItemTexts(RunItems(ss, |ss|)), ',')
  }

  method ToHumanString(b: Bitmap) returns (text: string)
    requires b.Valid()
    ensures exists ss: seq<string> :: IsRuns(ss, b.View(), b.len) && text == HumanOf(ss)
    ensures b.View() == {} ==> text == ""
    ensures b.View() != {} ==> ReadsBackAs(text, b.View(), b.len)
  {
    var ts := ToBinStrings(b);
    var hs := RunTexts(ts);
    RunsReadBack(ts, b.View(), b.len);
    if |hs| == 0 {
      hs := hs + [""];
    }
    text := Join(hs, ',');
    assert text == HumanOf(ts);
  }

  /** The loop: one item per run of ones, the position counted along. */
  method RunTexts(ts: seq<string>) returns (hs: seq<string>)
    requires forall j :: 0 <= j < |ts| ==> ts[j] != ""
    ensures hs == ItemTexts(RunItems(ts, |ts|))
  {
    hs := [];
    var pos := 0;
    for k := 0 to |ts|
      invariant pos == Offset(ts, k)
      invariant hs == ItemTexts(RunItems(ts, k))
    {
      var v := ts[k];
      NextTexts(ts, k);
      if v[0] == '1' {
        var text := if |v| == 1 then Itoa(pos) else Itoa(pos) + "-" + Itoa(pos + |v| - 1);
        assert text == RangeText(RunItem(ts, k));
        hs := hs + [text];
      }
      pos := pos + |v|;
    }
  }

  lemma NextTexts(ts: seq<string>, k: nat)
    requires k < |ts| && forall j :: 0 <= j < |ts| ==> ts[j] != ""
    ensures ItemTexts(RunItems(ts, k + 1)) ==
      if ts[k][0] == '1' then ItemTexts(RunItems(ts, k)) + [RangeText(RunItem(ts, k))] else ItemTexts(RunItems(ts, k))
  {
    if ts[k][0] == '1' {
      NoSign(RunItem(ts, k));
      AppendText(RunItems(ts, k), RunItem(ts, k));
    } else {
      assert RunItems(ts, k) + [] == RunItems(ts, k);
    }
  }

  lemma NoSign(it: Item)
    requires it.add
    ensures ItemText(it) == RangeText(it)
  {
  }

  lemma {:induction false} AppendText(items: seq<Item>, it: Item)
    ensures ItemTexts(items + [it]) == ItemTexts(items) + [ItemText(it)]
  {
    if items == [] {
      assert items + [it] == [it];
    } else {
      AppendText(items[1..], it);
      assert (items + [it])[1..] == items[1..] + [it];
    }
  }

  // ----- an item's text is read back as that item -----

  predicate Printable(it: Item) {
    it.add && it.Lo() <= it.Hi()
  }

  lemma ItoaAvoids(n: nat, c: char)
    requires !IsDigit(c, 10)
    ensures c !in Itoa(n)
  {
    FormatParses(n, 10);
  }

  /** What the tokeniser needs to know about a range without its sign. */
  lemma RangeBody(it: Item)
    ensures '^' !in RangeText(it) && ',' !in RangeText(it) && ('-' in RangeText(it) <==> it.Span?)
    ensures it.Span? ==> Cut(RangeText(it), '-') == Some((Itoa(it.low), Itoa(it.high)))
    ensures RangeText(it) != "" && IsDigit(RangeText(it)[0], 10)
  {
    FormatParses(it.Lo(), 10);
    FormatParses(it.Hi(), 10);
    ItoaAvoids(it.Lo(), '^');
    ItoaAvoids(it.Hi(), '^');
    ItoaAvoids(it.Lo(), ',');
    ItoaAvoids(it.Hi(), ',');
    ItoaAvoids(it.Lo(), '-');
    if it.Span? {
      CutHead(Itoa(it.low), '-', Itoa(it.high));
    }
  }

  lemma TrimCaret(r: string)
    requires '^' !in r
    ensures TrimLeft("^" + r, '^') == r
  {
    assert ("^" + r)[1..] == r;
  }

  lemma ItemParses(it: Item)
    ensures ParseItem(ItemText(it)) == Some(it) && ',' !in ItemText(it)
  {
    var r := RangeText(it);
    RangeBody(it);
    TrimCaret(r);
    FormatParses(it.Lo(), 10);
    FormatParses(it.Hi(), 10);
    assert "" + r == r;
    assert TrimLeft(ItemText(it), '^') == r;
    assert '-' in ItemText(it) <==> '-' in r;
    assert '^' in ItemText(it) <==> !it.add;
  }

  lemma {:induction false} ItemsParse(items: seq<Item>)
    ensures ParseItems(ItemTexts(items)) == Parsed(items, true)
  {
    if items != [] {
      ItemParses(items[0]);
      ItemsParse(items[1..]);
      ParseMore(ItemText(items[0]), items[0], ItemTexts(items[1..]), items[1..]);
      assert [items[0]] + items[1..] == items;
    }
  }

  lemma {:induction false} ItemsAvoidComma(items: seq<Item>)
    ensures forall k :: 0 <= k < |items| ==> ',' !in ItemTexts(items)[k]
  {
    if items != [] {
      ItemParses(items[0]);
      ItemsAvoidComma(items[1..]);
    }
  }

  lemma ParseMore(text: string, it: Item, texts: seq<string>, items: seq<Item>)
    requires ParseItem(text) == Some(it) && ParseItems(texts) == Parsed(items, true)
    ensures ParseItems([text] + texts) == Parsed([it] + items, true)
  {
    assert ([text] + texts)[1..] == texts;
  }

  // ----- and passes the expression check -----

  predicate CleanAt(t: string, i: nat)
    requires i < |t|
  {
    || IsDigit(t[i], 10)
    || t[i] == ','
    || (t[i] == '^' && i < |t| - 1 && IsDigit(t[i + 1], 10))
    || (t[i] == '-' && 0 < i < |t| - 1 && IsDigit(t[i - 1], 10) && IsDigit(t[i + 1], 10))
  }

  ghost predicate Clean(t: string) {
    forall i :: 0 <= i < |t| ==> CleanAt(t, i)
  }

  lemma CleanIsGood(t: string)
    requires Clean(t)
    ensures !BadExpression(t)
  {
    forall i | 0 <= i < |t| ensures !BadAt(t, i) {
      assert CleanAt(t, i);
    }
  }

  lemma RangeClean(it: Item)
    ensures Clean(RangeText(it))
  {
    FormatParses(it.Lo(), 10);
    FormatParses(it.Hi(), 10);
    var a, b, t := Itoa(it.Lo()), Itoa(it.Hi()), RangeText(it);
    forall i | 0 <= i < |t| ensures CleanAt(t, i) {
      if it.Span? && i >= |a| {
        assert t[|a|] == '-' && t[|a| - 1] == a[|a| - 1] && t[|a| + 1] == b[0];
        assert i > |a| ==> t[i] == b[i - |a| - 1];
      } else {
        assert t[i] == a[i];
      }
    }
  }

  lemma ItemClean(it: Item)
    ensures Clean(ItemText(it))
  {
    RangeClean(it);
    RangeBody(it);
    var r, t := RangeText(it), ItemText(it);
    if it.add {
      NoSign(it);
    } else {
      forall i | 0 <= i < |t| ensures CleanAt(t, i) {
        assert t[1..] == r;
        if i > 0 {
          assert CleanAt(r, i - 1);
        }
      }
    }
  }

  lemma CleanAppend(a: string, b: string)
    requires Clean(a) && Clean(b)
    ensures Clean(a + "," + b)
  {
    var t := a + "," + b;
    forall i | 0 <= i < |t| ensures CleanAt(t, i) {
      if i < |a| {
        assert CleanAt(a, i);
        assert t[..|a|] == a;
      } else if i > |a| {
        assert CleanAt(b, i - |a| - 1);
        assert t[|a| + 1..] == b;
      }
    }
  }

  lemma {:induction false} JoinClean(items: seq<Item>)
    ensures Clean(Join(ItemTexts(items), ','))
  {
    if items != [] {
      ItemClean(items[0]);
      var texts := ItemTexts(items);
      assert texts[1..] == ItemTexts(items[1..]);
      if |items| > 1 {
        JoinClean(items[1..]);
        CleanAppend(texts[0], Join(texts[1..], ','));
      }
    }
  }

  // ----- the runs of a set are read back as the set -----

  lemma {:induction false} RunItemsBelow(ss: seq<string>, k: nat)
    requires k <= |ss| && forall j :: 0 <= j < |ss| ==> ss[j] != ""
    ensures forall j :: 0 <= j < |RunItems(ss, k)| ==>
      Printable(RunItems(ss, k)[j]) && RunItems(ss, k)[j].Hi() < Offset(ss, k)
  {
    if k > 0 {
      RunItemsBelow(ss, k - 1);
    }
  }

  lemma {:induction false} RunItemsFold(ss: seq<string>, s: set<nat>, n: nat, k: nat)
    requires IsRuns(ss, s, n) && k <= |ss|
    ensures Fold({}, RunItems(ss, k)) == set i | i in s && i < Offset(ss, k)
  {
    if k > 0 {
      RunItemsFold(ss, s, n, k - 1);
      var before := RunItems(ss, k - 1);
      assert RunMeans(ss, k - 1, s) && ss[k - 1] != "";
      BelowMore(s, Offset(ss, k - 1), |ss[k - 1]|, ss[k - 1][0] == '1');
      if ss[k - 1][0] == '1' {
        assert RunItem(ss, k - 1).End() == Offset(ss, k);
        FoldOne(before, RunItem(ss, k - 1));
      } else {
        assert RunItems(ss, k) == before + [] == before;
      }
    }
  }

  lemma FoldOne(items: seq<Item>, it: Item)
    ensures Fold({}, items + [it]) == ApplyItem(Fold({}, items), it)
  {
    FoldAppend({}, items, [it]);
    assert [it][1..] == [];
  }

  /** The members below `at`, and those below `at + len` when the positions between are all in or
      all out. */
  lemma BelowMore(s: set<nat>, at: nat, len: nat, ones: bool)
    requires forall i: nat :: at <= i < at + len ==> (i in s <==> ones)
    ensures (set i | i in s && i < at + len) ==
      (set i | i in s && i < at) + (if ones then Interval(at, at + len) else {})
  {
  }

  lemma RunsReadBack(ss: seq<string>, s: set<nat>, n: nat)
    requires IsRuns(ss, s, n)
    ensures RunItems(ss, |ss|) == [] <==> s == {}
    ensures s != {} ==> ReadsBackAs(Join(ItemTexts(RunItems(ss, |ss|)), ','), s, n)
  {
    var items := RunItems(ss, |ss|);
    RunItemsFold(ss, s, n, |ss|);
    RunItemsBelow(ss, |ss|);
    AllBelow(s, n);
    if items != [] {
      LastItemStays(items);
      ItemTextsReadBack(items);
      AddressableBelow(items, n);
      NoWrapNoUpper(items);
    }
  }

  lemma AllBelow(s: set<nat>, n: nat)
    requires forall i :: i in s ==> i < n
    ensures (set i | i in s && i < n) == s
  {
  }

  lemma AddressableBelow(items: seq<Item>, n: nat)
    requires forall k :: 0 <= k < |items| ==> Printable(items[k]) && items[k].Hi() < n
    ensures Addressable(items, WordCount(n))
  {
  }

  lemma LastItemStays(items: seq<Item>)
    requires items != [] && Printable(items[|items| - 1])
    ensures Fold({}, items) != {}
  {
    var front, it := items[..|items| - 1], items[|items| - 1];
    assert items == front + [it];
    FoldAppend({}, front, [it]);
    assert Fold(Fold({}, front), [it]) == ApplyItem(Fold({}, front), it);
    assert it.Lo() in Fold({}, items);
  }

  /** Every list of items, removals included, is tokenised back from its text. */
  lemma ItemTextsReadBack(items: seq<Item>)
    requires items != []
    ensures ParseRanges([Join(ItemTexts(items), ',')]) == Parsed(items, true)
  {
    ItemsParse(items);
    ItemsAvoidComma(items);
    JoinClean(items);
    var text := Join(ItemTexts(items), ',');
    CleanIsGood(text);
    SplitJoin(ItemTexts(items), ',');
    OneText(text, items);
  }

  /** A downward span such as "5-3" is read without an error. Inside one word it means all
      positions from its first number to the end of the word, and fills the upper half too;
      across words it means nothing. */
  lemma DownwardSpan(low: nat, high: nat)
    requires high + 1 < low
    ensures ParseRanges([Itoa(low) + "-" + Itoa(high)]) == Parsed([Span(true, low, high)], true)
    ensures Fold({}, [Span(true, low, high)]) == if low / 32 == high / 32 then Interval(low, 32 * (low / 32) + 32) else {}
    ensures FoldUpper({}, [Span(true, low, high)]) ==
      if low / 32 == high / 32 then Interval(32 * (low / 32), 32 * (low / 32) + 32) else {}
  {
    var it := Span(true, low, high);
    ItemTextsReadBack([it]);
    assert ItemTexts([it]) == [ItemText(it)];
    assert ItemText(it) == Itoa(low) + "-" + Itoa(high);
    MeansOne(it);
  }

  lemma OneText(text: string, items: seq<Item>)
    requires !BadExpression(text) && ParseItems(Split(text, ',')) == Parsed(items, true)
    ensures ParseRanges([text]) == Parsed(items, true)
  {
    assert ParseRanges([text][1..]) == Parsed([], true);
    assert items + [] == items;
  }

  /** Human round trip: `NewBitmap(b.Len, [b.ToHumanString()])` is `b` again for every non-empty
      bitmap. The text of an empty bitmap, "", is refused. */
  method HumanRoundTrip(b: Bitmap) returns (c: Bitmap, upper: Bitmap, ok: bool)
    requires b.Valid()
    ensures ok <==> b.View() != {}
    ensures c == b && upper.View() == {}
  {
    var text := ToHumanString(b);
    if b.View() == {} {
      EmptyTextRefused();
    }
    c, upper, ok := FromRanges(b.len, [text]);
    SameView(c, b);
  }

  lemma EmptyTextRefused()
    ensures ParseRanges([""]) == Parsed([], false)
  {
    assert ParseNat("", 10) == None;
  }
}
