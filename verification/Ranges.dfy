/** Range lists such as "2-8,^3-4,9": the human notation for a bitmap
    (utils/bitmap/bitmap.go, genBits and fillBitMap). */
module Ranges {
  import opened Words
  import opened WaySets
  import opened Bitmaps
  import opened Text

  /** One comma-separated item: a position or a span, added or (with `^`) taken away. */
  datatype Item = Single(add: bool, pos: nat) | Span(add: bool, low: nat, high: nat) {
    function Lo(): nat {
      if Single? then pos else low
    }
    function Hi(): nat {
      if Single? then pos else high
    }

    /** A downward span inside one word, by more than one position. The code then shifts by a
        negative amount, and the mask is every bit of the machine word from `low` up. */
    predicate Wraps() {
      Span? && high + 1 < low && low / 32 == high / 32
    }

    /** Whether a word is written at all: a downward span across words is cut into no pieces. */
    predicate Touches() {
      Lo() <= Hi() || Lo() / 32 == Hi() / 32
    }

    /** The item acts on the positions from `Lo()` to below `End()`. */
    function End(): nat {
      if Lo() <= Hi() then Hi() + 1 else if Wraps() then 32 * (Lo() / 32) + 32 else Lo()
    }
  }

  // ----- meaning: a left-to-right fold over positions -----

  ghost function ApplyItem(s: set<nat>, it: Item): set<nat> {
    if it.add then s + Interval(it.Lo(), it.End()) else s - Interval(it.Lo(), it.End())
  }

  ghost function Fold(s: set<nat>, items: seq<Item>): set<nat>
    decreases |items|
  {
    if items == [] then s else Fold(ApplyItem(s, items[0]), items[1..])
  }

  predicate Covers(it: Item, p: nat) {
    it.Lo() <= p < it.End()
  }

  /** The last item that is about `p` adds it. */
  ghost predicate LastAdds(items: seq<Item>, p: nat) {
    exists k :: 0 <= k < |items| && Covers(items[k], p) && items[k].add && NoneAfter(items, k, p)
  }

  ghost predicate NoneAfter(items: seq<Item>, k: int, p: nat) {
    forall j :: k < j && 0 <= j < |items| ==> !Covers(items[j], p)
  }

  /** The order counts: of the items about a position the last one decides, whatever was there. */
  lemma {:induction false} LastItemDecides(s: set<nat>, items: seq<Item>, p: nat)
    ensures p in Fold(s, items) <==> LastAdds(items, p) || (p in s && NoneAfter(items, -1, p))
    decreases |items|
  {
    if items != [] {
      var rest := items[1..];
      LastItemDecides(ApplyItem(s, items[0]), rest, p);
      LaterItems(items, p);
    }
  }

  lemma LaterItems(items: seq<Item>, p: nat)
    requires items != []
    ensures NoneAfter(items, 0, p) <==> NoneAfter(items[1..], -1, p)
    ensures LastAdds(items, p) <==> LastAdds(items[1..], p) || (Covers(items[0], p) && items[0].add && NoneAfter(items, 0, p))
  {
    var rest := items[1..];
    assert forall j :: 1 <= j < |items| ==> items[j] == rest[j - 1];
    assert forall k :: 1 <= k < |items| ==> (NoneAfter(items, k, p) <==> NoneAfter(rest, k - 1, p));
    if LastAdds(items, p) {
      var k :| 0 <= k < |items| && Covers(items[k], p) && items[k].add && NoneAfter(items, k, p);
      if k > 0 {
        assert Covers(rest[k - 1], p) && NoneAfter(rest, k - 1, p);
      }
    }
    if LastAdds(rest, p) {
      var k :| 0 <= k < |rest| && Covers(rest[k], p) && rest[k].add && NoneAfter(rest, k, p);
      assert Covers(items[k + 1], p) && NoneAfter(items, k + 1, p);
    }
  }

  /** Go's words have 64 bits. A span that wraps also sets or clears the upper half of its word;
      the upper halves are kept as words of their own, at the same positions. */
  ghost function ApplyUpper(s: set<nat>, it: Item): set<nat> {
    var word := Interval(32 * (it.Lo() / 32), 32 * (it.Lo() / 32) + 32);
    if !it.Wraps() then s else if it.add then s + word else s - word
  }

  ghost function FoldUpper(s: set<nat>, items: seq<Item>): set<nat>
    decreases |items|
  {
    if items == [] then s else FoldUpper(ApplyUpper(s, items[0]), items[1..])
  }

  /** The words written are below `count`; outside this the Go code indexes past its slice. */
  predicate Addressable(items: seq<Item>, count: nat) {
    forall k :: 0 <= k < |items| && items[k].Touches() ==> items[k].Lo() < 32 * count && items[k].Hi() < 32 * count
  }

  /** What a reader expects of an item: it adds or removes the positions between its bounds. */
  ghost function Plain(s: set<nat>, it: Item): set<nat> {
    var between := Interval(it.Lo(), it.Hi() + 1);
    if it.add then s + between else s - between
  }

  /** Whatever the words hold before, the item does that, and touches no upper half. */
  ghost predicate MeansPlainly(it: Item) {
    && (forall s :: Fold(s, [it]) == Plain(s, it))
    && forall u :: FoldUpper(u, [it]) == u
  }

  /** A list of one item does what a reader expects exactly when the item does not wrap; for an
      added item that already shows on an empty bitmap. */
  lemma WrapsIsExact(it: Item)
    ensures MeansPlainly(it) <==> !it.Wraps()
    ensures it.add ==> ((Fold({}, [it]) == Plain({}, it) && FoldUpper({}, [it]) == {}) <==> !it.Wraps())
  {
    assert [it][1..] == [];
    assert forall s :: Fold(s, [it]) == ApplyItem(s, it);
    assert forall u :: FoldUpper(u, [it]) == ApplyUpper(u, it);
    if it.Wraps() {
      var all := {it.Lo()};
      assert it.Lo() in Interval(it.Lo(), it.End()) && it.Lo() !in Interval(it.Lo(), it.Hi() + 1);
      assert Fold(if it.add then {} else all, [it]) != Plain(if it.add then {} else all, it);
    }
  }

  /** The mask of a span that wraps, as a 64-bit word: the code computes `-1 << low`. */
  lemma WrappedMask(low: nat, j: nat)
    requires low < 32 && j < 64
    ensures BitAt(Shl(Ones(64 - low), low), j) == if j < 32 then BitAt(Shl(Ones(32 - low), low), j) else BitAt(Ones(32), j - 32)
  {
    BlockBit(64 - low, low, j);
    BlockBit(32 - low, low, j);
    if j >= 32 {
      OnesBit(32, j - 32);
    }
  }

  lemma {:induction false} NoWrapNoUpper(items: seq<Item>)
    requires forall k :: 0 <= k < |items| ==> !items[k].Wraps()
    ensures FoldUpper({}, items) == {}
    decreases |items|
  {
    if items != [] {
      NoWrapNoUpper(items[1..]);
    }
  }

  lemma MeansOne(it: Item)
    ensures Fold({}, [it]) == ApplyItem({}, it) && FoldUpper({}, [it]) == ApplyUpper({}, it)
  {
    assert [it][1..] == [];
  }

  // ----- tokenising -----

  /** `BitMapBadExpression` matches somewhere in `s`. */
  predicate BadExpression(s: string) {
    exists i :: 0 <= i < |s| && BadAt(s, i)
  }

  predicate BadAt(s: string, i: nat)
    requires i < |s|
  {
    var digitBefore := i > 0 && IsDigit(s[i - 1], 10);
    var digitAfter := i + 1 < |s| && IsDigit(s[i + 1], 10);
    match s[i]
    case '-' => (i > 0 && !digitBefore) || (i + 1 < |s| && !digitAfter)
    case '^' => !digitAfter
    case ',' => false
    case c => !IsDigit(c, 10)
  }

  function TrimLeft(s: string, c: char): (r: string)
    ensures c !in s ==> r == s
  {
    if s != "" && s[0] == c then TrimLeft(s[1..], c) else s
  }

  /** One item, or nothing where the code reports a number it cannot read. */
  function ParseItem(v: string): Option<Item> {
    var add := '^' !in v;
    var body := TrimLeft(v, '^');
    if '-' in v then
      match Cut(body, '-')
      case None => None
      case Some((lo, hi)) =>
        match (ParseNat(lo, 10), ParseNat(hi, 10))
        case (Some(l), Some(h)) => Some(Span(add, l, h))
        case _ => None
    else
      match ParseNat(body, 10)
      case Some(p) => Some(Single(add, p))
      case None => None
  }

  /** The items up to the first error, and whether there was none. */
  datatype Parsed = Parsed(items: seq<Item>, ok: bool)

  function ParseItems(scopes: seq<string>): Parsed {
    if scopes == [] then Parsed([], true)
    else
      match ParseItem(scopes[0])
      case None => Parsed([], false)
      case Some(it) =>
        var rest := ParseItems(scopes[1..]);
        Parsed([it] + rest.items, rest.ok)
  }

  function ParseRanges(texts: seq<string>): Parsed {
    if texts == [] then Parsed([], true)
    else if BadExpression(texts[0]) then Parsed([], false)
    else
      var head := ParseItems(Split(texts[0], ','));
      if !head.ok then head
      else
        var rest := ParseRanges(texts[1..]);
        Parsed(head.items + rest.items, rest.ok)
  }

  // ----- filling words -----

  /** The bits of a word that an item inside it is about. */
  function MaskOf(it: Item): nat
    requires it.Lo() % 32 <= it.Hi() % 32
  {
    if it.Single? then Shl(1, it.pos % 32) else Shl(Ones(it.high % 32 - it.low % 32 + 1), it.low % 32)
  }

  /** fillBitMap: one item inside one word. */
  function FillWord(bits: nat, it: Item): nat
    requires it.Lo() % 32 <= it.Hi() % 32
  {
    Bitwise(if it.add then Or else AndNot, bits, MaskOf(it))
  }

  /** The part of a span that lies in word `k`. */
  function Piece(it: Item, k: nat): Item {
    Span(it.add,
         if it.Lo() < 32 * k then 32 * k else it.Lo(),
         if 32 * k + 31 < it.Hi() then 32 * k + 31 else it.Hi())
  }

  /** Cuts a span at the word boundaries. */
  method SplitSpan(it: Item) returns (spans: seq<Item>)
    requires it.Span?
    ensures it.low <= it.high ==> |spans| == it.high / 32 - it.low / 32 + 1
    ensures it.low <= it.high ==> forall k :: 0 <= k < |spans| ==> spans[k] == Piece(it, it.low / 32 + k)
    ensures it.low > it.high ==> spans == if it.Touches() then [it] else []
  {
    if it.high / 32 == it.low / 32 {
      return [it];
    }
    spans := [];
    if it.low / 32 > it.high / 32 {
      return;
    }
    for i := it.low / 32 to it.high / 32 + 1
      invariant |spans| == i - it.low / 32
      invariant forall k :: 0 <= k < |spans| ==> spans[k] == Piece(it, it.low / 32 + k)
    {
      var begin, end := it.low, it.high;
      if (i + 1) * 32 - 1 < it.high {
        end := (i + 1) * 32 - 1;
      }
      if i > it.low / 32 {
        begin := i * 32;
      }
      spans := spans + [Span(it.add, begin, end)];
    }
  }

  /** What an item makes of the bit at position `i`. */
  predicate Updated(it: Item, was: bool, i: nat) {
    if it.Lo() <= i < it.End() then it.add else was
  }

  /** And of the bit at the same place of the upper halves. */
  predicate UpdatedUpper(it: Item, was: bool, i: nat) {
    if it.Wraps() && i / 32 == it.low / 32 then it.add else was
  }

  lemma SpanMask(lo: nat, hi: nat, sv: nat)
    requires lo <= hi < 32 && sv == Shl(Ones(hi - lo + 1), lo)
    ensures sv < Shl(1, 32)
    ensures forall j: nat :: BitAt(sv, j) == (lo <= j <= hi)
  {
    forall j: nat ensures BitAt(sv, j) == (lo <= j <= hi) {
      BlockBit(hi - lo + 1, lo, j);
    }
    BoundFromBits(sv, 32);
  }

  /** The word mask of an item that lies inside word `k`. */
  lemma ItemMask(it: Item, k: nat)
    requires 32 * k <= it.Lo() <= it.Hi() < 32 * k + 32
    ensures MaskOf(it) < Shl(1, 32)
    ensures forall j: nat :: BitAt(MaskOf(it), j) == (it.Lo() <= 32 * k + j <= it.Hi())
  {
    var lo, hi := it.Lo() - 32 * k, it.Hi() - 32 * k;
    InWord(it.Lo(), k);
    InWord(it.Hi(), k);
    assert Ones(1) == 1;
    SpanMask(lo, hi, MaskOf(it));
  }

  lemma InWord(i: nat, k: nat)
    requires 32 * k <= i < 32 * k + 32
    ensures i % 32 == i - 32 * k && i / 32 == k
  {
  }

  lemma SetOrClear(add: bool, w: nat, sv: nat, j: nat)
    ensures BitAt(Bitwise(if add then Or else AndNot, w, sv), j) == if BitAt(sv, j) then add else BitAt(w, j)
  {
    BitwiseBit(if add then Or else AndNot, w, sv, j);
  }

  lemma FillWordBits(w: nat, it: Item, k: nat)
    requires w < Shl(1, 32)
    requires 32 * k <= it.Lo() <= it.Hi() < 32 * k + 32
    ensures FillWord(w, it) < Shl(1, 32)
    ensures forall j: nat :: j < 32 ==>
      BitAt(FillWord(w, it), j) == Updated(it, BitAt(w, j), 32 * k + j)
  {
    InWord(it.Lo(), k);
    InWord(it.Hi(), k);
    ItemMask(it, k);
    BitwiseBound(if it.add then Or else AndNot, w, MaskOf(it), 32);
    forall j: nat | j < 32
      ensures BitAt(FillWord(w, it), j) == Updated(it, BitAt(w, j), 32 * k + j)
    {
      SetOrClear(it.add, w, MaskOf(it), j);
    }
  }

  /** Writing one word through an item inside it. */
  lemma PutWord(ws: seq<nat>, it: Item, k: nat, w: nat)
    requires WordsInRange(ws) && k < |ws| && w < Shl(1, 32)
    requires forall j: nat :: j < 32 ==> BitAt(w, j) == Updated(it, BitAt(ws[k], j), 32 * k + j)
    ensures WordsInRange(ws[k := w])
    ensures forall i: nat ::
      HasBit(ws[k := w], i) == (if i / 32 == k then Updated(it, HasBit(ws, i), i) else HasBit(ws, i))
  {
    forall i: nat | i / 32 == k ensures BitAt(w, i % 32) == Updated(it, HasBit(ws, i), i) {
      assert i == 32 * k + i % 32;
    }
  }

  method FillItem(words: array<nat>, high: array<nat>, it: Item)
    requires words != high && words.Length == high.Length && WordsInRange(words[..]) && WordsInRange(high[..])
    requires it.Touches() ==> it.Lo() < 32 * words.Length && it.Hi() < 32 * words.Length
    modifies words, high
    ensures WordsInRange(words[..]) && WordsInRange(high[..])
    ensures forall i: nat :: HasBit(words[..], i) == Updated(it, HasBit(old(words[..]), i), i)
    ensures forall i: nat :: HasBit(high[..], i) == UpdatedUpper(it, HasBit(old(high[..]), i), i)
  {
    if it.Single? {
      FillAt(words, it, it.pos / 32);
      return;
    }
    var spans := SplitSpan(it);
    if it.low <= it.high {
      FillSpans(words, it, spans);
    } else if |spans| == 1 {
      FillDown(words, high, it);
    }
  }

  /** A downward span inside one word: nothing if it is empty, else both halves of the word. */
  method FillDown(words: array<nat>, high: array<nat>, it: Item)
    requires words != high && words.Length == high.Length && WordsInRange(words[..]) && WordsInRange(high[..])
    requires it.Span? && it.high < it.low < 32 * words.Length && it.low / 32 == it.high / 32
    modifies words, high
    ensures WordsInRange(words[..]) && WordsInRange(high[..])
    ensures forall i: nat :: HasBit(words[..], i) == Updated(it, HasBit(old(words[..]), i), i)
    ensures forall i: nat :: HasBit(high[..], i) == UpdatedUpper(it, HasBit(old(high[..]), i), i)
    ensures it.Wraps() ==> forall j: nat :: j < 64 ==>
      Bit64(words[..], high[..], it.low / 32, j) == Masked64(it, Bit64(old(words[..]), old(high[..]), it.low / 32, j), j)
  {
    if it.high + 1 == it.low {
      return;
    }
    var pos := it.low / 32;
    FillAt(words, Span(it.add, it.low, 32 * pos + 31), pos);
    FillAt(high, Span(it.add, 32 * pos, 32 * pos + 31), pos);
    forall j: nat | j < 64
      ensures Bit64(words[..], high[..], pos, j) == Masked64(it, Bit64(old(words[..]), old(high[..]), pos, j), j)
    {
      HalvesAreMasked(old(words[..]), old(high[..]), words[..], high[..], it, j);
    }
  }

  /** Bit `j` of the 64-bit word `k`. */
  predicate Bit64(words: seq<nat>, high: seq<nat>, k: nat, j: nat)
    requires |words| == |high|
  {
    if j < 32 then HasBit(words, 32 * k + j) else HasBit(high, 32 * k + j - 32)
  }

  /** What the code makes of that bit: the mask is `-1 << low`, cut to 64 bits. */
  predicate Masked64(it: Item, was: bool, j: nat) {
    if BitAt(Shl(Ones(64 - it.Lo() % 32), it.Lo() % 32), j) then it.add else was
  }

  lemma HalvesAreMasked(words: seq<nat>, high: seq<nat>, words': seq<nat>, high': seq<nat>, it: Item, j: nat)
    requires it.Wraps() && j < 64 && |words| == |high| && |words'| == |high'|
    requires forall i: nat :: HasBit(words', i) == Updated(it, HasBit(words, i), i)
    requires forall i: nat :: HasBit(high', i) == UpdatedUpper(it, HasBit(high, i), i)
    ensures Bit64(words', high', it.low / 32, j) == Masked64(it, Bit64(words, high, it.low / 32, j), j)
  {
    var k, low := it.low / 32, it.low % 32;
    assert it.low == 32 * k + low;
    WrappedMask(low, j);
    if j < 32 {
      BlockBit(32 - low, low, j);
    } else {
      OnesBit(32, j - 32);
      assert (32 * k + j - 32) / 32 == k;
    }
  }

  method FillSpans(words: array<nat>, ghost it: Item, spans: seq<Item>)
    requires WordsInRange(words[..])
    requires it.Span? && it.low <= it.high < 32 * words.Length
    requires |spans| == it.high / 32 - it.low / 32 + 1
    requires forall k :: 0 <= k < |spans| ==> spans[k] == Piece(it, it.low / 32 + k)
    modifies words
    ensures WordsInRange(words[..])
    ensures forall i: nat :: HasBit(words[..], i) == Updated(it, HasBit(old(words[..]), i), i)
  {
    for k := 0 to |spans|
      invariant WordsInRange(words[..])
      invariant forall i: nat ::
        HasBit(words[..], i) ==
        (if i / 32 < it.low / 32 + k then Updated(it, HasBit(old(words[..]), i), i)
         else HasBit(old(words[..]), i))
    {
      var pos := spans[k].low / 32;
      assert pos == it.low / 32 + k;
      PieceCovers(it, pos);
      FillAt(words, spans[k], pos);
    }
  }

  method FillAt(words: array<nat>, it: Item, pos: nat)
    requires WordsInRange(words[..]) && pos < words.Length && 32 * pos <= it.Lo() <= it.Hi() < 32 * pos + 32
    modifies words
    ensures WordsInRange(words[..])
    ensures forall i: nat ::
      HasBit(words[..], i) ==
      (if i / 32 == pos then Updated(it, HasBit(old(words[..]), i), i) else HasBit(old(words[..]), i))
  {
    InWord(it.Lo(), pos);
    InWord(it.Hi(), pos);
    FillWordBits(words[pos], it, pos);
    var filled := FillWord(words[pos], it);
    PutWord(words[..], it, pos, filled);
    ghost var next := words[..][pos := filled];
    words[pos] := filled;
    assert words[..] == next;
  }

  lemma PieceCovers(it: Item, k: nat)
    requires it.Lo() <= it.Hi()
    ensures forall i: nat, was: bool :: i / 32 == k ==> Updated(Piece(it, k), was, i) == Updated(it, was, i)
  {
  }

  // ----- genBits -----

  lemma {:induction false} FoldAppend(s: set<nat>, a: seq<Item>, b: seq<Item>)
    ensures Fold(s, a + b) == Fold(Fold(s, a), b)
    decreases |a|
  {
    if a == [] {
      assert a + b == b;
    } else {
      FoldAppend(ApplyItem(s, a[0]), a[1..], b);
      assert (a + b)[1..] == a[1..] + b;
    }
  }

  ghost function Positions(ws: seq<nat>): (s: set<nat>)
    ensures forall i: nat :: i in s <==> HasBit(ws, i)
  {
    Bitmap(0, ws).View()
  }

  lemma {:induction false} FoldUpperAppend(s: set<nat>, a: seq<Item>, b: seq<Item>)
    ensures FoldUpper(s, a + b) == FoldUpper(FoldUpper(s, a), b)
    decreases |a|
  {
    if a == [] {
      assert a + b == b;
    } else {
      FoldUpperAppend(ApplyUpper(s, a[0]), a[1..], b);
      assert (a + b)[1..] == a[1..] + b;
    }
  }

  method FillItems(words: array<nat>, high: array<nat>, items: seq<Item>)
    requires words != high && words.Length == high.Length && WordsInRange(words[..]) && WordsInRange(high[..])
    requires Addressable(items, words.Length)
    modifies words, high
    ensures WordsInRange(words[..]) && WordsInRange(high[..])
    ensures Positions(words[..]) == Fold(Positions(old(words[..])), items)
    ensures Positions(high[..]) == FoldUpper(Positions(old(high[..])), items)
  {
    ghost var goal, upper := Fold(Positions(words[..]), items), FoldUpper(Positions(high[..]), items);
    assert items[0..] == items;
    for k := 0 to |items|
      invariant WordsInRange(words[..]) && WordsInRange(high[..])
      invariant Fold(Positions(words[..]), items[k..]) == goal
      invariant FoldUpper(Positions(high[..]), items[k..]) == upper
    {
      ghost var before, beforeUpper := Positions(words[..]), Positions(high[..]);
      FillItem(words, high, items[k]);
      assert Positions(words[..]) == ApplyItem(before, items[k]);
      assert Positions(high[..]) == ApplyUpper(beforeUpper, items[k]);
      assert items[k..][1..] == items[k + 1..];
    }
  }

  /** What is still to be read, `rest`, completes the words to the meaning of the whole list. */
  ghost predicate Completes(words: seq<nat>, high: seq<nat>, rest: Parsed, all: Parsed) {
    && rest.ok == all.ok && Addressable(rest.items, |words|)
    && Fold(Positions(words), rest.items) == Fold({}, all.items)
    && FoldUpper(Positions(high), rest.items) == FoldUpper({}, all.items)
  }

  /** The words a range list denotes: the code that splits every span at word boundaries and
      works with shifted masks computes the plain fold over positions, up to the first error. */
  method GenBits(texts: seq<string>, bitLen: nat) returns (words: seq<nat>, high: seq<nat>, ok: bool)
    requires Addressable(ParseRanges(texts).items, WordCount(bitLen))
    ensures |words| == |high| == WordCount(bitLen) && WordsInRange(words) && WordsInRange(high)
    ensures Positions(words) == Fold({}, ParseRanges(texts).items)
    ensures Positions(high) == FoldUpper({}, ParseRanges(texts).items)
    ensures ok == ParseRanges(texts).ok
  {
    var bits := CopyOf(Blank(bitLen).words);
    var upper := CopyOf(Blank(bitLen).words);
    assert Positions(Blank(bitLen).words) == Blank(bitLen).View() == {};
    ghost var all := ParseRanges(texts);
    assert texts[0..] == texts;
    for t := 0 to |texts|
      invariant WordsInRange(bits[..]) && WordsInRange(upper[..])
      invariant Completes(bits[..], upper[..], ParseRanges(texts[t..]), all)
    {
      assert texts[t..][0] == texts[t] && texts[t..][1..] == texts[t + 1..];
      if BadExpression(texts[t]) {
        return bits[..], upper[..], false;
      }
      var head := ParseItems(Split(texts[t], ','));
      HeadFirst(bits[..], upper[..], head, ParseRanges(texts[t + 1..]), all);
      FillItems(bits, upper, head.items);
      if !head.ok {
        return bits[..], upper[..], false;
      }
    }
    assert texts[|texts|..] == [];
    return bits[..], upper[..], true;
  }

  /** One text of the list: its items come first, and all that follow if it has no error. */
  lemma HeadFirst(words: seq<nat>, high: seq<nat>, head: Parsed, tail: Parsed, all: Parsed)
    requires Completes(words, high, if head.ok then Parsed(head.items + tail.items, tail.ok) else head, all)
    ensures Addressable(head.items, |words|) && (head.ok ==> Addressable(tail.items, |words|))
    ensures head.ok ==>
      && tail.ok == all.ok && Fold(Fold(Positions(words), head.items), tail.items) == Fold({}, all.items)
      && FoldUpper(FoldUpper(Positions(high), head.items), tail.items) == FoldUpper({}, all.items)
  {
    if head.ok {
      var both := head.items + tail.items;
      assert forall k :: 0 <= k < |head.items| ==> head.items[k] == both[k];
      assert forall k :: 0 <= k < |tail.items| ==> tail.items[k] == both[|head.items| + k];
      FoldAppend(Positions(words), head.items, tail.items);
      FoldUpperAppend(Positions(high), head.items, tail.items);
    }
  }

  /** Whatever the items, within the words they write nothing goes astray. */
  lemma AddressableBound(items: seq<Item>, count: nat)
    requires Addressable(items, count)
    ensures forall i :: i in Fold({}, items) ==> i < 32 * count
    ensures forall i :: i in FoldUpper({}, items) ==> i < 32 * count
  {
    FoldInside({}, items, count);
    FoldUpperInside({}, items, count);
  }

  lemma ItemInside(s: set<nat>, it: Item, count: nat)
    requires it.Touches() ==> it.Lo() < 32 * count && it.Hi() < 32 * count
    requires forall i :: i in s ==> i < 32 * count
    ensures forall i :: i in ApplyItem(s, it) ==> i < 32 * count
    ensures forall i :: i in ApplyUpper(s, it) ==> i < 32 * count
  {
    if it.Wraps() {
      WordInside(it.Lo(), count);
    }
  }

  lemma WordInside(i: nat, count: nat)
    requires i < 32 * count
    ensures 32 * (i / 32) + 32 <= 32 * count
  {
  }

  lemma {:induction false} FoldInside(s: set<nat>, items: seq<Item>, count: nat)
    requires Addressable(items, count) && forall i :: i in s ==> i < 32 * count
    ensures forall i :: i in Fold(s, items) ==> i < 32 * count
    decreases |items|
  {
    if items != [] {
      ItemInside(s, items[0], count);
      FoldInside(ApplyItem(s, items[0]), items[1..], count);
    }
  }

  lemma {:induction false} FoldUpperInside(s: set<nat>, items: seq<Item>, count: nat)
    requires Addressable(items, count) && forall i :: i in s ==> i < 32 * count
    ensures forall i :: i in FoldUpper(s, items) ==> i < 32 * count
    decreases |items|
  {
    if items != [] {
      ItemInside(s, items[0], count);
      FoldUpperInside(ApplyUpper(s, items[0]), items[1..], count);
    }
  }

  /** `NewBitmap(bitLen, texts)`, the lower and the upper halves of its words; well formed when
      no bit lies beyond the length and the upper halves are empty. */
  method FromRanges(bitLen: nat, texts: seq<string>) returns (b: Bitmap, upper: Bitmap, ok: bool)
    requires Addressable(ParseRanges(texts).items, WordCount(bitLen))
    ensures ok == ParseRanges(texts).ok && b.len == upper.len == bitLen
    ensures b.View() == Fold({}, ParseRanges(texts).items)
    ensures upper.View() == FoldUpper({}, ParseRanges(texts).items)
    ensures b.Valid() <==> forall i :: i in b.View() ==> i < bitLen
    ensures upper.Valid() <==> forall i :: i in upper.View() ==> i < bitLen
  {
    var words, high;
    words, high, ok := GenBits(texts, bitLen);
    b, upper := Bitmap(bitLen, words), Bitmap(bitLen, high);
    assert b.View() == Positions(words) && upper.View() == Positions(high);
  }

  /** `NewBitmap(bitLen, [lo-hi])` with the numbers already at hand, as the searches use it. */
  method FromBlock(bitLen: nat, lo: nat, hi: nat) returns (b: Bitmap)
    requires lo <= hi < bitLen
    ensures b.Valid() && b.len == bitLen && b.View() == Interval(lo, hi + 1)
  {
    var bits := CopyOf(Blank(bitLen).words);
    assert Positions(bits[..]) == Blank(bitLen).View() == {};
    var it := if lo == hi then Single(true, lo) else Span(true, lo, hi);
    var upper := CopyOf(Blank(bitLen).words);
    FillItem(bits, upper, it);
    b := Bitmap(bitLen, bits[..]);
    assert b.View() == Interval(lo, hi + 1);
  }

  // ----- the length a range list needs -----

  /** lenHumanStyle: the largest number the list mentions. */
  function MaxMentioned(items: seq<Item>): (m: nat)
    ensures forall k :: 0 <= k < |items| ==> items[k].Lo() <= m && items[k].Hi() <= m
    ensures items != [] ==> exists k :: 0 <= k < |items| && (m == items[k].Hi() || m == items[k].Lo())
  {
    if items == [] then 0
    else
      var h := if items[0].Hi() < items[0].Lo() then items[0].Lo() else items[0].Hi();
      if |items| == 1 then h
      else
        var m := MaxMentioned(items[1..]);
        assert exists k :: 0 <= k < |items| && (m == items[k].Hi() || m == items[k].Lo()) by {
          var k :| 0 <= k < |items[1..]| && (m == items[1..][k].Hi() || m == items[1..][k].Lo());
          assert items[1..][k] == items[k + 1];
        }
        assert forall k :: 1 <= k < |items| ==> items[k] == items[1..][k - 1];
        if h < m then m else h
  }
}
