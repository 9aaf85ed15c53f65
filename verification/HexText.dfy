/** The hexadecimal notation of a bitmap, "bffffc,1f000000,00000366"
    (utils/bitmap/bitmap.go, ToString, string2data and genBitsFromHexString). */
module HexText {
  import opened Words
  import opened Bitmaps
  import opened Text

  // ----- printing -----

  /** `%08x`. */
  function Hex8(w: nat): string {
    var s := Format(w, 16);
    if |s| < 8 then Zeros(8 - |s|) + s else s
  }

  /** Highest word first and unpadded, the others padded to eight digits. */
  function Print(ws: seq<nat>): string {
    if ws == [] then ""
    else if |ws| == 1 then Format(ws[0], 16)
    else Print(ws[1..]) + "," + Hex8(ws[0])
  }

  /** How word `i` is printed. */
  function Part(ws: seq<nat>, i: nat): string
    requires i < |ws|
  {
    if i == |ws| - 1 then Format(ws[i], 16) else Hex8(ws[i])
  }

  /** The text in front of the words below `i`. */
  function Above(ws: seq<nat>, i: nat): string
    requires i <= |ws|
  {
    if i == |ws| then "" else Print(ws[i..]) + ","
  }

  lemma AboveStep(ws: seq<nat>, i: nat)
    requires i < |ws|
    ensures Print(ws[i..]) == Above(ws, i + 1) + Part(ws, i)
  {
    var t := ws[i..];
    assert t[0] == ws[i] && t[1..] == ws[i + 1..];
    if i == |ws| - 1 {
      assert Print(t) == Format(ws[i], 16) == "" + Format(ws[i], 16);
    }
  }

  lemma Regroup(a: string, s: string, str: string)
    ensures ((a + s) + ",") + str == a + (s + "," + str)
  {
  }

  method ToString(b: Bitmap) returns (str: string)
    ensures str == Print(b.words)
    ensures b.Valid() && b.words != [] ==> PrintedForm(b.words, str)
    ensures b.Valid() && b.words != [] ==>
      |str| == 9 * (|b.words| - 1) + |Format(b.words[|b.words| - 1], 16)|
  {
    str := "";
    var l := |b.words|;
    for i := 0 to l
      invariant i == 0 ==> str == ""
      invariant i > 0 ==> Print(b.words) == Above(b.words, i) + str
    {
      var s := if i == l - 1 then Format(b.words[i], 16) else Hex8(b.words[i]);
      AboveStep(b.words, i);
      if i == 0 {
        assert b.words[0..] == b.words;
        str := s;
      } else {
        Regroup(Above(b.words, i + 1), s, str);
        str := s + "," + str;
      }
    }
    if b.words != [] && WordsInRange(b.words) {
      PrintsForm(b.words);
      PrintLength(b.words);
    }
  }

  // ----- parsing -----

  function TrimPrefix(s: string, prefix: string): string {
    if prefix <= s then s[|prefix|..] else s
  }

  function TrimHexPrefix(s: string): string {
    TrimPrefix(TrimPrefix(s, "0x"), "0X")
  }

  /** At most eight hexadecimal digits. */
  function ParseWord(v: string): Option<nat> {
    if |v| > 8 then None else ParseNat(v, 16)
  }

  /** Comma-separated words, highest first. */
  function CommaWords(parts: seq<string>): Option<seq<nat>> {
    if parts == [] then Some([])
    else
      match (CommaWords(parts[1..]), ParseWord(parts[0]))
      case (Some(low), Some(w)) => Some(low + [w])
      case _ => None
  }

  /** The last eight digits (or all that are left) of `s`. */
  function Chunk(s: string): (r: string)
    ensures |r| <= 8 && (s != "" ==> r != "")
  {
    if |s| > 8 then s[|s| - 8..] else s
  }

  function Unchunk(s: string): string {
    if |s| > 8 then s[..|s| - 8] else ""
  }

  /** One run of digits, cut into words of eight digits from the right. */
  function ChunkWords(s: string): Option<seq<nat>>
    decreases |s|
  {
    if s == "" then Some([])
    else
      match (ParseWord(Chunk(s)), ChunkWords(Unchunk(s)))
      case (Some(w), Some(high)) => Some([w] + high)
      case _ => None
  }

  /** The words a hexadecimal text denotes, or nothing where the code reports an error. */
  function Parse(text: string): Option<seq<nat>> {
    var s := TrimHexPrefix(text);
    if ',' in s then CommaWords(Split(s, ',')) else ChunkWords(s)
  }

  method String2Data(text: string) returns (datas: Option<seq<nat>>)
    ensures datas == Parse(text)
  {
    var s := TrimHexPrefix(text);
    if ',' in s {
      datas := CommaLoop(Split(s, ','));
    } else {
      datas := ChunkLoop(s);
    }
  }

  /** The words still to come, below those already there. */
  function Onto(low: Option<seq<nat>>, done: seq<nat>): Option<seq<nat>> {
    match low { case Some(ws) => Some(ws + done) case None => None }
  }

  lemma CommaStep(ss: seq<string>, i: nat, done: seq<nat>)
    requires i < |ss|
    ensures Onto(CommaWords(ss[i..]), done) ==
      match ParseWord(ss[i]) { case Some(w) => Onto(CommaWords(ss[i + 1..]), [w] + done) case None => None }
  {
    assert ss[i..][0] == ss[i] && ss[i..][1..] == ss[i + 1..];
    if CommaWords(ss[i + 1..]).Some? && ParseWord(ss[i]).Some? {
      var low, w := CommaWords(ss[i + 1..]).value, ParseWord(ss[i]).value;
      assert (low + [w]) + done == low + ([w] + done);
    }
  }

  lemma OntoNothing(low: Option<seq<nat>>)
    ensures Onto(low, []) == low
  {
    if low.Some? {
      assert low.value + [] == low.value;
    }
  }

  method CommaLoop(ss: seq<string>) returns (datas: Option<seq<nat>>)
    ensures datas == CommaWords(ss)
  {
    var l := |ss|;
    var data := new nat[l](_ => 0);
    assert ss[0..] == ss && data[l..] == [];
    OntoNothing(CommaWords(ss));
    for i := 0 to l
      invariant Onto(CommaWords(ss[i..]), data[l - i..]) == CommaWords(ss)
    {
      ghost var done := data[l - i..];
      CommaStep(ss, i, done);
      match ParseWord(ss[i]) {
        case None => return None;
        case Some(ui) =>
          data[l - 1 - i] := ui;
          assert data[l - i..] == done;
          assert data[l - 1 - i..] == [data[l - 1 - i]] + data[l - i..];
      }
    }
    assert ss[l..] == [] && [] + data[0..] == data[..];
    return Some(data[..]);
  }

  function Prepend(done: seq<nat>, high: Option<seq<nat>>): Option<seq<nat>> {
    match high { case Some(ws) => Some(done + ws) case None => None }
  }

  lemma ChunkStep(rest: string, done: seq<nat>)
    requires rest != ""
    ensures Prepend(done, ChunkWords(rest)) ==
      match ParseWord(Chunk(rest)) {
        case Some(w) => Prepend(done + [w], ChunkWords(Unchunk(rest)))
        case None => None
      }
  {
    if ParseWord(Chunk(rest)).Some? && ChunkWords(Unchunk(rest)).Some? {
      var w, high := ParseWord(Chunk(rest)).value, ChunkWords(Unchunk(rest)).value;
      assert done + ([w] + high) == (done + [w]) + high;
    }
  }

  /** What is left of `s` once `i` words have been cut off. */
  function Uncut(s: string, i: nat): string {
    if |s| > 8 * i then s[..|s| - 8 * i] else ""
  }

  lemma UncutStep(s: string, i: nat)
    requires 8 * i < |s|
    ensures Uncut(s, i) != "" && Unchunk(Uncut(s, i)) == Uncut(s, i + 1)
    ensures var end := |s| - i * 8;
      Chunk(Uncut(s, i)) == if end > 8 then s[end - 8..end] else s[..end]
  {
  }

  method ChunkLoop(s: string) returns (datas: Option<seq<nat>>)
    ensures datas == ChunkWords(s)
  {
    var l := |s|;
    var n := (l + 7) / 8;
    var data: seq<nat> := [];
    NothingDone(ChunkWords(s));
    assert Uncut(s, 0) == s;
    for i := 0 to n
      invariant Prepend(data, ChunkWords(Uncut(s, i))) == ChunkWords(s)
    {
      var end := l - i * 8;
      var start := end - 8;
      var ns := if start > 0 then s[start..end] else s[..end];
      UncutStep(s, i);
      ChunkStep(Uncut(s, i), data);
      match ParseWord(ns) {
        case None => return None;
        case Some(ui) => data := data + [ui];
      }
    }
    assert Uncut(s, n) == "" && data + [] == data;
    return Some(data);
  }

  lemma NothingDone(high: Option<seq<nat>>)
    ensures Prepend([], high) == high
  {
    if high.Some? {
      assert [] + high.value == high.value;
    }
  }

  /** `NewBitmap(len, text)`: with length 0 the length follows from the words. */
  function Decode(len: nat, text: string): Option<Bitmap> {
    match Parse(text)
    case None => None
    case Some(ws) => Some(Bitmap(if len == 0 then 32 * |ws| else len, ws))
  }

  method FromHex(len: nat, text: string) returns (b: Option<Bitmap>)
    ensures b == Decode(len, text)
    ensures b.Some? ==> b.value.len == if len == 0 then 32 * TextWords(text) else len
  {
    ParsedBits(text);
    var datas := String2Data(text);
    match datas {
      case None => b := None;
      case Some(ws) => b := Some(Bitmap(if len == 0 then 32 * |ws| else len, ws));
    }
  }

  // ----- the round trip -----

  lemma {:induction false} FormatLength(w: nat, n: nat)
    requires w < Shl(1, 4 * n) && n >= 1
    ensures |Format(w, 16)| <= n
  {
    SixteenFold(0);
    if w >= 16 {
      SixteenFold(4 * (n - 1));
      assert 4 * (n - 1) + 4 == 4 * n;
      FormatLength(w / 16, n - 1);
    }
  }

  lemma SixteenFold(k: nat)
    ensures Shl(1, k + 4) == 16 * Shl(1, k)
  {
    assert Shl(1, k + 4) == 2 * Shl(1, k + 3) == 4 * Shl(1, k + 2) == 8 * Shl(1, k + 1);
  }

  lemma WordParses(w: nat)
    requires w < Shl(1, 32)
    ensures AllDigits(Format(w, 16), 16) && |Format(w, 16)| <= 8 && ParseWord(Format(w, 16)) == Some(w)
  {
    FormatParses(w, 16);
    FormatLength(w, 8);
  }

  lemma PaddedWordParses(w: nat)
    requires w < Shl(1, 32)
    ensures AllDigits(Hex8(w), 16) && |Hex8(w)| == 8 && ParseWord(Hex8(w)) == Some(w)
  {
    WordParses(w);
    PadParses(8 - |Format(w, 16)|, Format(w, 16));
    assert Zeros(0) + Format(w, 16) == Format(w, 16);
  }

  lemma PadParses(n: nat, s: string)
    requires s != "" && AllDigits(s, 16) && n + |s| <= 8
    ensures AllDigits(Zeros(n) + s, 16) && |Zeros(n) + s| == n + |s| && ParseWord(Zeros(n) + s) == ParseWord(s)
  {
    PaddedValue(n, s, 16);
  }

  lemma DigitsAvoid(s: string, base: nat, c: char)
    requires AllDigits(s, base) && DigitValue(c).None?
    ensures c !in s
  {
  }

  /** The parts of a printed bitmap, highest word first. */
  function PrintParts(ws: seq<nat>): seq<string> {
    if ws == [] then []
    else if |ws| == 1 then [Format(ws[0], 16)]
    else PrintParts(ws[1..]) + [Hex8(ws[0])]
  }

  lemma {:induction false} PrintedParts(ws: seq<nat>)
    requires ws != [] && WordsInRange(ws)
    ensures |PrintParts(ws)| == |ws| && Print(ws) == Join(PrintParts(ws), ',')
    ensures forall k :: 0 <= k < |ws| ==> AllDigits(PrintParts(ws)[k], 16)
    ensures CommaWords(PrintParts(ws)) == Some(ws)
  {
    if |ws| == 1 {
      WordParses(ws[0]);
      OneWord(Format(ws[0], 16));
      assert ws == [ws[0]];
    } else {
      PaddedWordParses(ws[0]);
      PrintedParts(ws[1..]);
      JoinAppend(PrintParts(ws[1..]), ',', Hex8(ws[0]));
      CommaAppend(PrintParts(ws[1..]), Hex8(ws[0]));
      assert [ws[0]] + ws[1..] == ws;
    }
  }

  lemma OneWord(part: string)
    requires ParseWord(part).Some?
    ensures CommaWords([part]) == Some([ParseWord(part).value])
  {
    assert CommaWords([part][1..]) == Some([]);
    assert [] + [ParseWord(part).value] == [ParseWord(part).value];
  }

  lemma {:induction false} CommaAppend(parts: seq<string>, last: string)
    requires ParseWord(last).Some? && CommaWords(parts).Some?
    ensures CommaWords(parts + [last]) == Some([ParseWord(last).value] + CommaWords(parts).value)
  {
    var all := parts + [last];
    var w := ParseWord(last).value;
    if parts == [] {
      assert all == [last] && [w] + [] == [w];
      OneWord(last);
    } else {
      CommaAppend(parts[1..], last);
      assert all[1..] == parts[1..] + [last] && all[0] == parts[0];
      var low := CommaWords(parts[1..]).value;
      var h := ParseWord(parts[0]).value;
      assert CommaWords(all) == Some(([w] + low) + [h]);
      assert CommaWords(parts) == Some(low + [h]);
      assert ([w] + low) + [h] == [w] + (low + [h]);
    }
  }

  lemma {:induction false} JoinAvoids(parts: seq<string>, c: char)
    requires c != ',' && forall k :: 0 <= k < |parts| ==> c !in parts[k]
    ensures c !in Join(parts, ',')
  {
    if |parts| > 1 {
      JoinAvoids(parts[1..], c);
    }
  }

  lemma PrintedChars(ws: seq<nat>)
    requires ws != [] && WordsInRange(ws)
    ensures TrimHexPrefix(Print(ws)) == Print(ws)
    ensures forall k :: 0 <= k < |PrintParts(ws)| ==> ',' !in PrintParts(ws)[k]
  {
    PrintedParts(ws);
    var parts := PrintParts(ws);
    forall k | 0 <= k < |parts|
      ensures ',' !in parts[k] && 'x' !in parts[k] && 'X' !in parts[k]
    {
      DigitsAvoid(parts[k], 16, ',');
      DigitsAvoid(parts[k], 16, 'x');
      DigitsAvoid(parts[k], 16, 'X');
    }
    JoinAvoids(parts, 'x');
    JoinAvoids(parts, 'X');
    NoPrefix(Print(ws), "0x");
    NoPrefix(Print(ws), "0X");
  }

  lemma NoPrefix(s: string, prefix: string)
    requires |prefix| == 2 && prefix[1] !in s
    ensures TrimPrefix(s, prefix) == s
  {
  }

  lemma OneChunk(s: string)
    requires s != "" && |s| <= 8 && ParseWord(s).Some?
    ensures ChunkWords(s) == Some([ParseWord(s).value])
  {
    assert ChunkWords("") == Some([]);
    assert Chunk(s) == s && Unchunk(s) == "";
    assert [ParseWord(s).value] + [] == [ParseWord(s).value];
  }

  /** Parsing a printed bitmap gives its words back. */
  lemma PrintParses(ws: seq<nat>)
    requires WordsInRange(ws)
    ensures Parse(Print(ws)) == Some(ws)
  {
    if |ws| == 1 {
      PrintedChars(ws);
      WordParses(ws[0]);
      OneChunk(Print(ws));
      assert PrintParts(ws)[0] == Print(ws);
      assert ws == [ws[0]];
    } else if |ws| > 1 {
      PrintedChars(ws);
      PrintedParts(ws);
      assert ',' in Print(ws);
      SplitJoin(PrintParts(ws), ',');
    }
  }

  /** Hex round trip: decoding a printed well-formed bitmap gives exactly that bitmap. */
  lemma HexRoundTrip(b: Bitmap)
    requires b.Valid()
    ensures Decode(b.len, Print(b.words)) == Some(b)
  {
    PrintParses(b.words);
  }

  lemma PrintInjective(a: seq<nat>, b: seq<nat>)
    requires WordsInRange(a) && WordsInRange(b) && Print(a) == Print(b)
    ensures a == b
  {
    PrintParses(a);
    PrintParses(b);
  }

  // ----- the printed form -----

  /** One word in lower-case hexadecimal: the top one without leading zeros, any other in exactly
      eight digits. */
  ghost predicate WordForm(part: string, w: nat, top: bool) {
    && AllDigits(part, 16) && ValueOf(part, 16) == w && Plain(part)
    && if top then part == "0" || (part != "" && part[0] != '0') else |part| == 8
  }

  /** One part for each word between commas, the highest word first. */
  ghost predicate PrintedForm(ws: seq<nat>, str: string) {
    var parts := Split(str, ',');
    |parts| == |ws| && forall i :: 0 <= i < |ws| ==> WordForm(parts[|ws| - 1 - i], ws[i], i == |ws| - 1)
  }

  lemma TopForm(w: nat)
    ensures WordForm(Format(w, 16), w, true)
  {
    FormatParses(w, 16);
    FormatIsPlain(w, 16);
    if w == 0 {
      DigitTable('0', 0);
      assert Format(w, 16) == ['0'];
    }
  }

  lemma LowForm(w: nat)
    requires w < Shl(1, 32)
    ensures WordForm(Hex8(w), w, false)
  {
    PaddedWordParses(w);
    FormatIsPlain(w, 16);
  }

  lemma {:induction false} PartTexts(ws: seq<nat>, i: nat)
    requires i < |ws|
    ensures |PrintParts(ws)| == |ws| && PrintParts(ws)[|ws| - 1 - i] == Part(ws, i)
  {
    if |ws| > 1 {
      PartTexts(ws[1..], if i == 0 then 0 else i - 1);
    }
  }

  lemma PartForm(ws: seq<nat>, i: nat)
    requires i < |ws| && ws[i] < Shl(1, 32)
    ensures WordForm(Part(ws, i), ws[i], i == |ws| - 1)
  {
    if i == |ws| - 1 {
      TopForm(ws[i]);
    } else {
      LowForm(ws[i]);
    }
  }

  lemma PrintsForm(ws: seq<nat>)
    requires ws != [] && WordsInRange(ws)
    ensures PrintedForm(ws, Print(ws))
  {
    PrintedParts(ws);
    PrintedChars(ws);
    SplitJoin(PrintParts(ws), ',');
    forall i | 0 <= i < |ws| ensures WordForm(PrintParts(ws)[|ws| - 1 - i], ws[i], i == |ws| - 1) {
      PartTexts(ws, i);
      PartForm(ws, i);
    }
  }

  /** Nine characters for every word below the top one. */
  lemma {:induction false} PrintLength(ws: seq<nat>)
    requires ws != [] && WordsInRange(ws)
    ensures |Print(ws)| == 9 * (|ws| - 1) + |Format(ws[|ws| - 1], 16)|
  {
    if |ws| > 1 {
      PaddedWordParses(ws[0]);
      PrintLength(ws[1..]);
    }
  }

  // ----- the prefix -----

  /** One "0x" and then one "0X" may stand in front of the digits. */
  lemma PrefixIgnored(s: string)
    requires !("0x" <= s) && !("0X" <= s)
    ensures Parse("0x" + s) == Parse("0X" + s) == Parse("0x0X" + s) == Parse(s)
  {
    assert ("0x" + s)[2..] == ("0X" + s)[2..] == s;
    assert ("0x0X" + s)[2..] == "0X" + s;
    assert TrimHexPrefix("0X" + s) == TrimHexPrefix("0x" + s) == TrimHexPrefix("0x0X" + s) == TrimHexPrefix(s) == s;
  }

  /** In the other order, or twice, they are not: the text is refused. */
  lemma PrefixRefused(s: string)
    ensures Parse("0X0x" + s).None? && Parse("0x0x" + s).None? && Parse("0X0X" + s).None?
  {
    PrefixLeft("0X0x" + s, "0x" + s);
    PrefixLeft("0x0x" + s, "0x" + s);
    PrefixLeft("0X0X" + s, "0X" + s);
  }

  lemma PrefixLeft(text: string, rest: string)
    requires TrimHexPrefix(text) == rest && |rest| >= 2 && (rest[1] == 'x' || rest[1] == 'X') && rest[0] == '0'
    ensures Parse(text).None?
  {
    ParsedBits(text);
    if ',' in rest {
      FirstPartHolds(rest);
    } else {
      assert !IsDigit(rest[1], 16);
    }
  }

  lemma FirstPartHolds(rest: string)
    requires |rest| >= 2 && rest[0] != ',' && rest[1] != ','
    ensures var first := Split(rest, ',')[0]; |first| >= 2 && first[1] == rest[1]
  {
    assert Split(rest[1..], ',')[0][0] == rest[1];
  }

  // ----- what a run of digits denotes -----

  /** Position `p` of a digit string: bit p%4 of the digit p/4 places from the right. */
  predicate DigitBit(s: string, p: nat)
    requires AllDigits(s, 16)
  {
    p / 4 < |s| && BitAt(DigitValue(s[|s| - 1 - p / 4]).value, p % 4)
  }

  lemma NibbleBit(v: nat, d: nat, p: nat)
    requires d < 16
    ensures BitAt(16 * v + d, p) == if p < 4 then BitAt(d, p) else BitAt(v, p - 4)
  {
    var w := 16 * v + d;
    assert w / 2 == 8 * v + d / 2 && w / 2 / 2 == 4 * v + d / 4;
    assert w / 2 / 2 / 2 == 2 * v + d / 8 && w / 2 / 2 / 2 / 2 == v;
    assert d / 2 / 2 == d / 4 && d / 2 / 2 / 2 == d / 8;
    match p {
      case 0 =>
      case 1 => assert BitAt(w, 1) == BitAt(w / 2, 0) && BitAt(d, 1) == BitAt(d / 2, 0);
      case 2 =>
        assert BitAt(w, 2) == BitAt(w / 2, 1) == BitAt(w / 2 / 2, 0);
        assert BitAt(d, 2) == BitAt(d / 2, 1) == BitAt(d / 2 / 2, 0);
      case 3 =>
        assert BitAt(w, 3) == BitAt(w / 2, 2) == BitAt(w / 2 / 2, 1) == BitAt(w / 2 / 2 / 2, 0);
        assert BitAt(d, 3) == BitAt(d / 2, 2) == BitAt(d / 2 / 2, 1) == BitAt(d / 2 / 2 / 2, 0);
      case _ =>
        assert BitAt(w, p) == BitAt(w / 2, p - 1) == BitAt(w / 2 / 2, p - 2);
        assert BitAt(w / 2 / 2, p - 2) == BitAt(w / 2 / 2 / 2, p - 3) == BitAt(v, p - 4);
    }
  }

  lemma {:induction false} ValueBits(s: string, p: nat)
    requires AllDigits(s, 16)
    ensures BitAt(ValueOf(s, 16), p) == DigitBit(s, p)
    ensures ValueOf(s, 16) < Shl(1, 4 * |s|)
    decreases |s|
  {
    if s == "" {
      ZeroBit(p);
    } else {
      var t := s[..|s| - 1];
      NibbleBit(ValueOf(t, 16), DigitValue(s[|s| - 1]).value, p);
      SixteenFold(4 * |t|);
      assert 4 * |t| + 4 == 4 * |s|;
      ValueBits(t, if p < 4 then 0 else p - 4);
      if p >= 4 {
        assert (p - 4) / 4 == p / 4 - 1 && (p - 4) % 4 == p % 4;
      }
    }
  }

  lemma ConsBit(w: nat, high: seq<nat>, p: nat)
    ensures HasBit([w] + high, p) == if p < 32 then BitAt(w, p) else HasBit(high, p - 32)
  {
    var ws := [w] + high;
    if p < 32 {
      assert p / 32 == 0 && p % 32 == p && ws[0] == w;
    } else {
      var k := (p - 32) / 32;
      assert p / 32 == k + 1 && p % 32 == (p - 32) % 32;
      assert k < |high| ==> ws[k + 1] == high[k];
    }
  }

  lemma ChunkDigit(s: string, p: nat)
    requires s != "" && AllDigits(s, 16)
    ensures AllDigits(Chunk(s), 16) && AllDigits(Unchunk(s), 16)
    ensures DigitBit(s, p) == if p < 32 then DigitBit(Chunk(s), p) else DigitBit(Unchunk(s), p - 32)
  {
    if p >= 32 {
      assert (p - 32) / 4 == p / 4 - 8 && (p - 32) % 4 == p % 4;
    }
  }

  /** Cutting into words loses nothing: the words of a digit string have exactly its bits. */
  lemma {:induction false} ChunkBits(s: string)
    requires AllDigits(s, 16)
    ensures ChunkWords(s).Some?
    ensures |ChunkWords(s).value| == (|s| + 7) / 8 && WordsInRange(ChunkWords(s).value)
    ensures forall p: nat :: HasBit(ChunkWords(s).value, p) == DigitBit(s, p)
    decreases |s|
  {
    if s != "" {
      var c, rest := Chunk(s), Unchunk(s);
      ChunkDigit(s, 0);
      ChunkBits(rest);
      ValueBits(c, 0);
      ShlMonotone(4 * |c|, 32);
      var w, high := ValueOf(c, 16), ChunkWords(rest).value;
      assert ChunkWords(s) == Some([w] + high);
      forall p: nat
        ensures HasBit([w] + high, p) == DigitBit(s, p)
      {
        ConsBit(w, high, p);
        ChunkDigit(s, p);
        ValueBits(c, p);
      }
    }
  }

  lemma {:induction false} ChunksAreDigits(s: string)
    requires ChunkWords(s).Some?
    ensures AllDigits(s, 16)
    decreases |s|
  {
    if s != "" {
      ChunksAreDigits(Unchunk(s));
      assert s == Unchunk(s) + Chunk(s);
    }
  }

  // ----- what any hexadecimal text denotes -----

  predicate WordText(part: string) {
    1 <= |part| <= 8 && AllDigits(part, 16)
  }

  /** Position `p` of comma-separated words, the last of which is the lowest. */
  predicate PartBit(parts: seq<string>, p: nat) {
    p / 32 < |parts| && var part := parts[|parts| - 1 - p / 32]; WordText(part) && DigitBit(part, p % 32)
  }

  lemma SnocBit(low: seq<nat>, w: nat, p: nat)
    ensures HasBit(low + [w], p) == if p / 32 == |low| then BitAt(w, p % 32) else HasBit(low, p)
  {
    var ws := low + [w];
    assert p / 32 < |low| ==> ws[p / 32] == low[p / 32];
  }

  lemma WordTextValue(part: string)
    requires WordText(part)
    ensures ParseWord(part) == Some(ValueOf(part, 16)) && ValueOf(part, 16) < Shl(1, 32)
  {
    ValueBits(part, 0);
    ShlMonotone(4 * |part|, 32);
  }

  /** Every part is one word, from the right. */
  lemma {:induction false} CommaBits(parts: seq<string>)
    requires forall k :: 0 <= k < |parts| ==> WordText(parts[k])
    ensures CommaWords(parts).Some?
    ensures |CommaWords(parts).value| == |parts| && WordsInRange(CommaWords(parts).value)
    ensures forall p: nat :: HasBit(CommaWords(parts).value, p) == PartBit(parts, p)
  {
    if parts != [] {
      var rest := parts[1..];
      CommaBits(rest);
      WordTextValue(parts[0]);
      var low, w := CommaWords(rest).value, ValueOf(parts[0], 16);
      assert CommaWords(parts) == Some(low + [w]);
      forall p: nat ensures HasBit(low + [w], p) == PartBit(parts, p) {
        SnocBit(low, w, p);
        ValueBits(parts[0], p % 32);
      }
    }
  }

  lemma {:induction false} CommaReadable(parts: seq<string>)
    ensures CommaWords(parts).Some? <==> forall k :: 0 <= k < |parts| ==> WordText(parts[k])
  {
    if parts != [] {
      var rest := parts[1..];
      CommaReadable(rest);
      assert ParseWord(parts[0]).Some? <==> WordText(parts[0]);
      assert forall k :: 1 <= k < |parts| ==> parts[k] == rest[k - 1];
    }
  }

  /** The texts the code reads: after an optional "0x" a run of digits, or words of up to eight
      digits between commas. */
  predicate Readable(text: string) {
    var s := TrimHexPrefix(text);
    if ',' in s then forall k :: 0 <= k < |Split(s, ',')| ==> WordText(Split(s, ',')[k]) else AllDigits(s, 16)
  }

  function TextWords(text: string): nat {
    var s := TrimHexPrefix(text);
    if ',' in s then |Split(s, ',')| else (|s| + 7) / 8
  }

  predicate TextBit(text: string, p: nat)
    requires Readable(text)
  {
    var s := TrimHexPrefix(text);
    if ',' in s then PartBit(Split(s, ','), p) else DigitBit(s, p)
  }

  lemma ParsedBits(text: string)
    ensures Parse(text).Some? <==> Readable(text)
    ensures Readable(text) ==>
      && |Parse(text).value| == TextWords(text) && WordsInRange(Parse(text).value)
      && forall p: nat :: HasBit(Parse(text).value, p) == TextBit(text, p)
  {
    var s := TrimHexPrefix(text);
    if ',' in s {
      CommaReadable(Split(s, ','));
      if Readable(text) {
        CommaBits(Split(s, ','));
      }
    } else {
      if ChunkWords(s).Some? {
        ChunksAreDigits(s);
      }
      if AllDigits(s, 16) {
        ChunkBits(s);
      }
    }
  }

  /** The hex constructor does not check its text against the length. Whatever the text, it is
      read exactly when it is digits or words between commas, and then the bitmap is well formed
      exactly when the text has the right number of words and sets no bit beyond the length. */
  lemma DecodedIsValid(len: nat, text: string)
    requires len > 0
    ensures Decode(len, text).Some? <==> Readable(text)
    ensures Readable(text) ==>
      (Decode(len, text).value.Valid() <==>
       TextWords(text) == WordCount(len) && forall p: nat :: TextBit(text, p) ==> p < len)
  {
    ParsedBits(text);
  }
}
