/** Binary text and its maximal runs (utils/bitmap/bitmap.go, ToBinString and ToBinStrings). */
module Runs {
  import opened Words
  import opened WaySets
  import opened Bitmaps
  import opened Text

  // ----- binary text -----

  function BitChar(bit: bool): char {
    if bit then '1' else '0'
  }

  /** The positions below `n`, highest first: '1' for a member of `s`. */
  ghost function BitText(s: set<nat>, n: nat): (t: string)
    ensures |t| == n && forall j :: 0 <= j < n ==> t[j] == BitChar(n - 1 - j in s)
  {
    if n == 0 then "" else [BitChar(n - 1 in s)] + BitText(s, n - 1)
  }

  /** `strings.Replace(s, ",", "", -1)`. */
  function Strip(s: string): string {
    if s == "" then ""
    else if s[0] == ',' then Strip(s[1..])
    else [s[0]] + Strip(s[1..])
  }

  /** The number of bits word `i` contributes: 32, and for the top word what is left. */
  function BitsOfWord(b: Bitmap, i: nat): int {
    if i + 1 == |b.words| then b.len - 32 * i else 32
  }

  /** Word `i` in binary, padded to the bits it contributes. */
  function WordBits(b: Bitmap, i: nat): string
    requires i < |b.words|
  {
    var rb := Format(b.words[i], 2);
    Zeros(if |rb| <= BitsOfWord(b, i) then BitsOfWord(b, i) - |rb| else 0) + rb
  }

  /** The lowest `i` words, highest first, with commas between them. */
  function BinText(b: Bitmap, i: nat): string
    requires i <= |b.words|
  {
    if i == 0 then ""
    else if i == 1 then WordBits(b, 0)
    else WordBits(b, i - 1) + "," + BinText(b, i - 1)
  }

  method ToBinString(b: Bitmap) returns (ts: string)
    requires b.Valid()
    ensures ts == BinText(b, |b.words|)
    ensures Strip(ts) == BitText(b.View(), b.len)
    ensures |ts| == b.len + if b.len == 0 then 0 else |b.words| - 1
    ensures Commas(ts)
  {
    ts := "";
    var l := |b.words|;
    for i := 0 to l
      invariant ts == BinText(b, i)
    {
      var rb := Format(b.words[i], 2);
      var n := |rb|;
      var end := 0;
      if 32 >= n {
        end := 32 - n;
      }
      if l == i + 1 {
        if b.len % 32 >= n {
          end := b.len % 32 - n;
        }
      }
      PadLength(b, i);
      ts := if i == 0 then Zeros(end) + rb else (Zeros(end) + rb) + "," + ts;
    }
    BinTextIs(b, ts);
  }

  lemma BinTextIs(b: Bitmap, ts: string)
    requires b.Valid() && ts == BinText(b, |b.words|)
    ensures Strip(ts) == BitText(b.View(), b.len)
    ensures |ts| == b.len + (if b.len == 0 then 0 else |b.words| - 1) && Commas(ts)
  {
    BinTextMeans(b);
    BinLength(b, |b.words|);
    BinCommas(b, |b.words|);
  }

  lemma PadLength(b: Bitmap, i: nat)
    requires b.Valid() && i < |b.words|
    ensures var n, l := |Format(b.words[i], 2)|, |b.words|;
      && n <= BitsOfWord(b, i) <= 32
      && BitsOfWord(b, i) - n == (if l == i + 1 && b.len % 32 >= n then b.len % 32 - n else 32 - n)
  {
    WordFits(b, i);
  }

  /** The number of positions in the lowest `i` words. */
  function Below(b: Bitmap, i: nat): nat {
    if i == |b.words| then b.len else 32 * i
  }

  lemma WordLength(b: Bitmap, i: nat)
    requires b.Valid() && i < |b.words|
    ensures |WordBits(b, i)| == BitsOfWord(b, i) <= 32
    ensures i + 1 < |b.words| ==> BitsOfWord(b, i) == 32
    ensures ',' !in WordBits(b, i)
  {
    WordFits(b, i);
    FormatParses(b.words[i], 2);
    assert forall k :: 0 <= k < |Format(b.words[i], 2)| ==> IsDigit(Format(b.words[i], 2)[k], 2);
  }

  lemma {:induction false} BinLength(b: Bitmap, i: nat)
    requires b.Valid() && i <= |b.words|
    ensures |BinText(b, i)| == Below(b, i) + if i == 0 then 0 else i - 1
    ensures i < |b.words| ==> Below(b, i) == 32 * i
  {
    if i > 0 {
      WordLength(b, i - 1);
      BinLength(b, i - 1);
    }
  }

  /** From the low end, every 33rd character is a comma, and no other. */
  predicate Commas(t: string) {
    forall j :: 0 <= j < |t| ==> (t[|t| - 1 - j] == ',' <==> j % 33 == 32)
  }

  lemma {:induction false} BinCommas(b: Bitmap, i: nat)
    requires b.Valid() && i <= |b.words|
    ensures Commas(BinText(b, i))
  {
    if i > 0 {
      WordLength(b, i - 1);
      if i == 1 {
        OneWordCommas(BinText(b, 1));
      } else {
        BinLength(b, i - 1);
        BinCommas(b, i - 1);
        MoreCommas(WordBits(b, i - 1), BinText(b, i - 1), i - 1);
      }
    }
  }

  lemma OneWordCommas(t: string)
    requires ',' !in t && |t| <= 32
    ensures Commas(t)
  {
  }

  lemma MoreCommas(high: string, low: string, i: nat)
    requires ',' !in high && |high| <= 32 && i >= 1 && |low| == 33 * i - 1 && Commas(low)
    ensures Commas(high + "," + low)
  {
    var t := high + "," + low;
    forall j | 0 <= j < |t| ensures t[|t| - 1 - j] == ',' <==> j % 33 == 32 {
      HighChar(high, low, j);
      if j >= |low| {
        HighPlace(i, j - |low|);
      }
    }
  }

  lemma HighChar(high: string, low: string, j: nat)
    requires ',' !in high && j <= |low| + |high|
    ensures var t := high + "," + low;
      t[|t| - 1 - j] == if j < |low| then low[|low| - 1 - j] else if j == |low| then ',' else high[|high| + |low| - j]
  {
  }

  lemma HighPlace(i: nat, k: nat)
    requires i >= 1 && k <= 32
    ensures (33 * i - 1 + k) % 33 == 32 <==> k == 0
  {
    if k == 0 {
      assert 33 * i - 1 == 33 * (i - 1) + 32;
    } else {
      assert 33 * i - 1 + k == 33 * i + (k - 1);
    }
  }

  /** Without its commas the text spells the members, highest position first. */
  lemma BinTextMeans(b: Bitmap)
    requires b.Valid()
    ensures Strip(BinText(b, |b.words|)) == BitText(b.View(), b.len)
  {
    var texts := seq(|b.words| + 1, i requires i >= 0 => BitText(b.View(), Below(b, i)));
    assert Below(b, 0) == 0;
    forall i | 0 <= i < |b.words| ensures WordBits(b, i) + texts[i] == texts[i + 1] {
      WordSpells(b, i);
    }
    Accumulates(b, texts, |b.words|);
  }

  lemma {:induction false} Accumulates(b: Bitmap, texts: seq<string>, i: nat)
    requires |texts| == |b.words| + 1 && texts[0] == "" && i <= |b.words|
    requires forall j :: 0 <= j < |b.words| ==> WordBits(b, j) + texts[j] == texts[j + 1]
    ensures Strip(BinText(b, i)) == texts[i]
  {
    if i > 0 {
      Accumulates(b, texts, i - 1);
      NextText(b, i - 1, texts[i - 1], texts[i]);
    }
  }

  lemma WordSpells(b: Bitmap, i: nat)
    requires b.Valid() && i < |b.words|
    ensures WordBits(b, i) + BitText(b.View(), Below(b, i)) == BitText(b.View(), Below(b, i + 1))
  {
    WordFits(b, i);
    var m := BitsOfWord(b, i);
    assert Below(b, i) == 32 * i && Below(b, i + 1) == 32 * i + m;
    assert WordBits(b, i) == Zeros(m - |Format(b.words[i], 2)|) + Format(b.words[i], 2);
    WordText(b, i, m);
  }

  lemma NextText(b: Bitmap, i: nat, low: string, next: string)
    requires i < |b.words| && Strip(BinText(b, i)) == low && WordBits(b, i) + low == next
    ensures Strip(BinText(b, i + 1)) == next
  {
    var s, ts := WordBits(b, i), BinText(b, i);
    StripDigits(|s| - |Format(b.words[i], 2)|, b.words[i]);
    if i > 0 {
      StripComma(s, ts);
    } else {
      assert low == "" && s + low == s;
    }
  }

  lemma WordFits(b: Bitmap, i: nat)
    requires b.Valid() && i < |b.words|
    ensures 1 <= BitsOfWord(b, i) <= 32 && |Format(b.words[i], 2)| <= BitsOfWord(b, i)
  {
    var m := BitsOfWord(b, i);
    WordFromPositions(b.words, i);
    BoundFromBits(b.words[i], m);
    BinaryLength(b.words[i], m);
  }

  lemma {:induction false} BinaryLength(v: nat, m: nat)
    requires m >= 1 && v < Shl(1, m)
    ensures |Format(v, 2)| <= m
  {
    assert Shl(1, 1) == 2 * Shl(1, 0);
    if v >= 2 {
      BinaryLength(v / 2, m - 1);
    }
  }

  lemma {:induction false} BinaryDigit(v: nat, j: nat)
    ensures j < |Format(v, 2)| ==> Format(v, 2)[|Format(v, 2)| - 1 - j] == BitChar(BitAt(v, j))
    ensures j >= |Format(v, 2)| ==> !BitAt(v, j)
  {
    if v < 2 {
      if j > 0 {
        ZeroBit(j - 1);
      }
    } else {
      var t := Format(v / 2, 2);
      assert Format(v, 2) == t + [DigitChar(v % 2)];
      if j > 0 {
        BinaryDigit(v / 2, j - 1);
        assert j <= |t| ==> Format(v, 2)[|t| - j] == t[|t| - j];
      }
    }
  }

  lemma WordText(b: Bitmap, i: nat, m: nat)
    requires i < |b.words| && m <= 32 && |Format(b.words[i], 2)| <= m
    ensures var rb := Format(b.words[i], 2);
      (Zeros(m - |rb|) + rb) + BitText(b.View(), 32 * i) == BitText(b.View(), 32 * i + m)
  {
    var rb := Format(b.words[i], 2);
    var s := Zeros(m - |rb|) + rb;
    var t := BitText(b.View(), 32 * i + m);
    forall j | 0 <= j < m
      ensures s[j] == t[j]
    {
      WordChar(b, i, m, j);
    }
    var low := BitText(b.View(), 32 * i);
    assert forall j :: m <= j < |t| ==> t[j] == low[j - m];
    assert s + low == t;
  }

  lemma WordChar(b: Bitmap, i: nat, m: nat, j: nat)
    requires i < |b.words| && m <= 32 && |Format(b.words[i], 2)| <= m && j < m
    ensures var rb := Format(b.words[i], 2);
      (Zeros(m - |rb|) + rb)[j] == BitChar(32 * i + (m - 1 - j) in b.View())
  {
    var rb := Format(b.words[i], 2);
    var p := m - 1 - j;
    BinaryDigit(b.words[i], p);
    assert (32 * i + p) / 32 == i && (32 * i + p) % 32 == p;
    assert HasBit(b.words, 32 * i + p) == BitAt(b.words[i], p);
  }

  lemma {:induction false} StripAppend(a: string, b: string)
    ensures Strip(a + b) == Strip(a) + Strip(b)
  {
    if a == "" {
      assert a + b == b;
    } else {
      StripAppend(a[1..], b);
      assert (a + b)[1..] == a[1..] + b && (a + b)[0] == a[0];
      assert [a[0]] + (Strip(a[1..]) + Strip(b)) == ([a[0]] + Strip(a[1..])) + Strip(b);
    }
  }

  lemma StripComma(a: string, b: string)
    ensures Strip(a + "," + b) == Strip(a) + Strip(b)
  {
    StripAppend(a, "," + b);
    assert ("," + b)[1..] == b;
    assert a + "," + b == a + ("," + b);
  }

  lemma {:induction false} StripClean(s: string)
    requires ',' !in s
    ensures Strip(s) == s
  {
    if s != "" {
      StripClean(s[1..]);
      assert [s[0]] + s[1..] == s;
    }
  }

  lemma StripDigits(n: nat, v: nat)
    ensures Strip(Zeros(n) + Format(v, 2)) == Zeros(n) + Format(v, 2)
  {
    FormatParses(v, 2);
    assert forall i :: 0 <= i < |Format(v, 2)| ==> IsDigit(Format(v, 2)[i], 2);
    StripClean(Zeros(n) + Format(v, 2));
  }

  // ----- runs -----

  /** The position where run `k` starts. */
  function Offset(ss: seq<string>, k: nat): nat
    requires k <= |ss|
  {
    if k == 0 then 0 else Offset(ss, k - 1) + |ss[k - 1]|
  }

  predicate Uniform(run: string) {
    run != "" && (run[0] == '0' || run[0] == '1') && forall j :: 0 <= j < |run| ==> run[j] == run[0]
  }

  ghost predicate RunMeans(ss: seq<string>, k: nat, s: set<nat>)
    requires k < |ss| && ss[k] != ""
  {
    forall i: nat :: Offset(ss, k) <= i < Offset(ss, k) + |ss[k]| ==> (i in s <==> ss[k][0] == '1')
  }

  /** The runs alternate and, laid end to end from position 0, spell the set `s`. */
  ghost predicate Spells(ss: seq<string>, s: set<nat>) {
    && (forall k :: 0 <= k < |ss| ==> Uniform(ss[k]))
    && (forall k :: 0 < k < |ss| ==> ss[k - 1][0] != ss[k][0])
    && forall k :: 0 <= k < |ss| ==> RunMeans(ss, k, s)
  }

  /** The decomposition of `n` positions into maximal runs, lowest first. */
  ghost predicate IsRuns(ss: seq<string>, s: set<nat>, n: nat) {
    Spells(ss, s) && Offset(ss, |ss|) == n && forall i :: i in s ==> i < n
  }

  method ToBinStrings(b: Bitmap) returns (ss: seq<string>)
    requires b.Valid()
    ensures IsRuns(ss, b.View(), b.len)
  {
    var ts := ToBinString(b);
    ss := CutRuns(Strip(ts), b.View());
  }

  /** Scans the text from its low end and cuts it where the digit changes. */
  method CutRuns(ts: string, ghost s: set<nat>) returns (ss: seq<string>)
    requires ts == BitText(s, |ts|)
    ensures Spells(ss, s) && Offset(ss, |ss|) == |ts|
  {
    ss := [];
    var l := |ts|;
    if l < 1 {
      return;
    }
    var orgV, orgIndex := ts[l - 1], l;
    var i := l - 1;
    while i >= 0
      invariant -1 <= i < l
      invariant i >= 0 ==> Scanned(ts, s, ss, i, orgV, orgIndex)
      invariant i == -1 ==> Spells(ss, s) && Offset(ss, |ss|) == l
    {
      if ts[i] != orgV {
        CutHere(ts, s, ss, i, orgV, orgIndex);
        ss := ss + [ts[i + 1..orgIndex]];
        orgIndex := i + 1;
        orgV := ts[i];
      }
      if i == 0 {
        AddRun(ss, s, ts, 0, orgIndex);
        ss := ss + [ts[0..orgIndex]];
      }
      i := i - 1;
    }
  }

  /** Everything above `orgIndex` is cut into runs, and from there down to `i` the digit is
      `orgV`. */
  ghost predicate Scanned(ts: string, s: set<nat>, ss: seq<string>, i: int, orgV: char, orgIndex: int) {
    && 0 <= i < orgIndex <= |ts| && Spells(ss, s) && Offset(ss, |ss|) == |ts| - orgIndex
    && (forall j :: i < j < orgIndex ==> ts[j] == orgV)
    && (ss == [] || ss[|ss| - 1][0] != orgV)
    && (i + 1 == orgIndex ==> ts[i] == orgV)
  }

  lemma CutHere(ts: string, s: set<nat>, ss: seq<string>, i: nat, orgV: char, orgIndex: nat)
    requires ts == BitText(s, |ts|) && Scanned(ts, s, ss, i, orgV, orgIndex) && ts[i] != orgV
    ensures Scanned(ts, s, ss + [ts[i + 1..orgIndex]], i, ts[i], i + 1)
  {
    AddRun(ss, s, ts, i + 1, orgIndex);
    var run := ts[i + 1..orgIndex];
    assert run[0] == ts[i + 1] == orgV && (ss + [run])[|ss|] == run;
  }

  lemma {:induction false} OffsetPrefix(ss: seq<string>, more: seq<string>, k: nat)
    requires k <= |ss|
    ensures Offset(ss + more, k) == Offset(ss, k)
  {
    if k > 0 {
      OffsetPrefix(ss, more, k - 1);
    }
  }

  lemma AddRun(ss: seq<string>, s: set<nat>, ts: string, lo: nat, hi: nat)
    requires ts == BitText(s, |ts|) && lo < hi <= |ts|
    requires Spells(ss, s) && Offset(ss, |ss|) == |ts| - hi
    requires forall j :: lo <= j < hi ==> ts[j] == ts[lo]
    requires ss == [] || ss[|ss| - 1][0] != ts[lo]
    ensures Spells(ss + [ts[lo..hi]], s)
    ensures Offset(ss + [ts[lo..hi]], |ss| + 1) == |ts| - lo
  {
    var run := ts[lo..hi];
    SliceMeans(s, ts, lo, hi);
    MoreRuns(ss, s, run);
  }

  lemma SliceMeans(s: set<nat>, ts: string, lo: nat, hi: nat)
    requires ts == BitText(s, |ts|) && lo < hi <= |ts| && forall j :: lo <= j < hi ==> ts[j] == ts[lo]
    ensures Uniform(ts[lo..hi])
    ensures forall i: nat :: |ts| - hi <= i < |ts| - lo ==> (i in s <==> ts[lo] == '1')
  {
    assert ts[lo] == BitChar(|ts| - 1 - lo in s);
    forall i: nat | |ts| - hi <= i < |ts| - lo ensures i in s <==> ts[lo] == '1' {
      assert ts[|ts| - 1 - i] == ts[lo];
    }
  }

  lemma MoreRuns(ss: seq<string>, s: set<nat>, run: string)
    requires Spells(ss, s) && Uniform(run) && (ss == [] || ss[|ss| - 1][0] != run[0])
    requires forall i: nat :: Offset(ss, |ss|) <= i < Offset(ss, |ss|) + |run| ==> (i in s <==> run[0] == '1')
    ensures Spells(ss + [run], s) && Offset(ss + [run], |ss| + 1) == Offset(ss, |ss|) + |run|
  {
    var all := ss + [run];
    LastRun(ss, run, s);
    forall k | 0 <= k < |all| ensures Uniform(all[k]) && RunMeans(all, k, s) {
      if k < |ss| {
        OldRun(ss, run, s, k);
      }
    }
    StillAlternate(ss, run);
  }

  lemma LastRun(ss: seq<string>, run: string, s: set<nat>)
    requires Uniform(run)
    requires forall i: nat :: Offset(ss, |ss|) <= i < Offset(ss, |ss|) + |run| ==> (i in s <==> run[0] == '1')
    ensures (ss + [run])[|ss|] == run && RunMeans(ss + [run], |ss|, s)
    ensures Offset(ss + [run], |ss| + 1) == Offset(ss, |ss|) + |run|
  {
    OffsetPrefix(ss, [run], |ss|);
  }

  lemma StillAlternate(ss: seq<string>, run: string)
    requires run != "" && (forall k :: 0 <= k < |ss| ==> ss[k] != "")
    requires forall k :: 0 < k < |ss| ==> ss[k - 1][0] != ss[k][0]
    requires ss == [] || ss[|ss| - 1][0] != run[0]
    ensures forall k :: 0 <= k < |ss + [run]| ==> (ss + [run])[k] != ""
    ensures forall k :: 0 < k < |ss + [run]| ==> (ss + [run])[k - 1][0] != (ss + [run])[k][0]
  {
    var all := ss + [run];
    forall k | 0 < k < |all| ensures all[k - 1][0] != all[k][0] {
      assert all[k - 1] == ss[k - 1];
      assert k < |ss| ==> all[k] == ss[k];
    }
  }

  lemma OldRun(ss: seq<string>, run: string, s: set<nat>, k: nat)
    requires k < |ss| && Uniform(ss[k]) && RunMeans(ss, k, s)
    ensures Uniform((ss + [run])[k]) && RunMeans(ss + [run], k, s)
  {
    OffsetPrefix(ss, [run], k);
  }

  // ----- what the runs say about blocks -----

  lemma {:induction false} RunOf(ss: seq<string>, i: nat, k: nat) returns (r: nat)
    requires k <= |ss| && i < Offset(ss, k)
    ensures r < k && Offset(ss, r) <= i < Offset(ss, r) + |ss[r]|
  {
    if i >= Offset(ss, k - 1) {
      r := k - 1;
    } else {
      r := RunOf(ss, i, k - 1);
    }
  }

  lemma {:induction false} OffsetMonotone(ss: seq<string>, a: nat, b: nat)
    requires a <= b <= |ss|
    ensures Offset(ss, a) <= Offset(ss, b)
  {
    if a < b {
      OffsetMonotone(ss, a, b - 1);
    }
  }

  lemma AfterOnes(ss: seq<string>, s: set<nat>, n: nat, r: nat)
    requires IsRuns(ss, s, n) && r < |ss| && ss[r][0] == '1'
    ensures Offset(ss, r) + |ss[r]| !in s
  {
    var next := Offset(ss, r + 1);
    if r + 1 < |ss| {
      assert Uniform(ss[r + 1]) && ss[r + 1 - 1][0] != ss[r + 1][0];
      assert RunMeans(ss, r + 1, s);
    }
  }

  /** A block of members lies inside a single run of ones. */
  lemma BlockInRun(ss: seq<string>, s: set<nat>, n: nat, p: nat, m: nat) returns (r: nat)
    requires IsRuns(ss, s, n) && Fits(s, p, m) && m >= 1
    ensures r < |ss| && ss[r][0] == '1'
    ensures Offset(ss, r) <= p && p + m <= Offset(ss, r) + |ss[r]|
  {
    assert p in Interval(p, p + m);
    r := RunOf(ss, p, |ss|);
    assert RunMeans(ss, r, s);
    AfterOnes(ss, s, n, r);
  }

  lemma RunFits(ss: seq<string>, s: set<nat>, n: nat, k: nat)
    requires IsRuns(ss, s, n) && k < |ss| && ss[k][0] == '1'
    ensures Fits(s, Offset(ss, k), |ss[k]|)
  {
    assert RunMeans(ss, k, s);
  }

  // ----- there is only one such decomposition -----

  lemma {:induction false} SamePrefix(a: seq<string>, b: seq<string>, k: nat)
    requires k <= |a| && k <= |b| && forall j :: 0 <= j < k ==> a[j] == b[j]
    ensures Offset(a, k) == Offset(b, k)
  {
    if k > 0 {
      SamePrefix(a, b, k - 1);
    }
  }

  lemma NextRunDiffers(ss: seq<string>, s: set<nat>, n: nat, k: nat)
    requires IsRuns(ss, s, n) && k < |ss|
    ensures var p := Offset(ss, k) + |ss[k]|; p < n ==> (p in s <==> ss[k][0] != '1')
  {
    if k + 1 < |ss| {
      var here, next := ss[k], ss[k + 1];
      assert Uniform(here) && Uniform(next) && here[0] != next[0] by {
        assert ss[k + 1 - 1][0] != ss[k + 1][0];
      }
      assert RunMeans(ss, k + 1, s);
      StartMeans(ss, s, k + 1);
    }
  }

  lemma StartMeans(ss: seq<string>, s: set<nat>, k: nat)
    requires 0 < k < |ss| && ss[k] != "" && RunMeans(ss, k, s)
    ensures Offset(ss, k - 1) + |ss[k - 1]| == Offset(ss, k)
    ensures Offset(ss, k) in s <==> ss[k][0] == '1'
  {
  }

  /** What goes on as a run begins does not go on beyond it. */
  lemma RunNotLonger(ss: seq<string>, s: set<nat>, n: nat, k: nat, at: nat, len: nat, ones: bool)
    requires IsRuns(ss, s, n) && k < |ss| && at == Offset(ss, k) && ones == (ss[k][0] == '1') && at + len <= n
    requires forall i: nat :: at <= i < at + len ==> (i in s <==> ones)
    ensures len <= |ss[k]|
  {
    var here := |ss[k]|;
    assert at + here < n ==> (at + here in s <==> !ones) by {
      NextRunDiffers(ss, s, n, k);
    }
    NotBeyond(s, n, at, here, len, ones);
  }

  lemma RunWithin(ss: seq<string>, s: set<nat>, n: nat, k: nat)
    requires IsRuns(ss, s, n) && k < |ss|
    ensures Offset(ss, k) + |ss[k]| <= n
    ensures forall i: nat :: Offset(ss, k) <= i < Offset(ss, k) + |ss[k]| ==> (i in s <==> ss[k][0] == '1')
  {
    OffsetMonotone(ss, k + 1, |ss|);
    assert RunMeans(ss, k, s);
  }

  lemma NotBeyond(s: set<nat>, n: nat, at: nat, a: nat, b: nat, ones: bool)
    requires at + b <= n
    requires at + a < n ==> (at + a in s <==> !ones)
    requires forall i: nat :: at <= i < at + b ==> (i in s <==> ones)
    ensures b <= a
  {
  }

  lemma SameRun(a: string, b: string)
    requires Uniform(a) && Uniform(b) && a[0] == b[0] && |a| == |b|
    ensures a == b
  {
  }

  lemma {:induction false} RunsAgree(a: seq<string>, b: seq<string>, s: set<nat>, n: nat, k: nat)
    requires IsRuns(a, s, n) && IsRuns(b, s, n) && k <= |a|
    ensures k <= |b| && forall j :: 0 <= j < k ==> a[j] == b[j]
  {
    if k > 0 {
      RunsAgree(a, b, s, n, k - 1);
      SamePrefix(a, b, k - 1);
      OffsetMonotone(a, k, |a|);
      assert Uniform(a[k - 1]) && RunMeans(a, k - 1, s);
      assert Offset(b, k - 1) < n;
      assert Uniform(b[k - 1]) && RunMeans(b, k - 1, s);
      assert Offset(a, k - 1) in s <==> a[k - 1][0] == '1';
      assert Offset(b, k - 1) in s <==> b[k - 1][0] == '1';
      RunWithin(a, s, n, k - 1);
      RunWithin(b, s, n, k - 1);
      RunNotLonger(a, s, n, k - 1, Offset(b, k - 1), |b[k - 1]|, b[k - 1][0] == '1');
      RunNotLonger(b, s, n, k - 1, Offset(a, k - 1), |a[k - 1]|, a[k - 1][0] == '1');
      SameRun(a[k - 1], b[k - 1]);
    }
  }

  /** A set of positions has exactly one decomposition into maximal runs. */
  lemma RunsUnique(a: seq<string>, b: seq<string>, s: set<nat>, n: nat)
    requires IsRuns(a, s, n) && IsRuns(b, s, n)
    ensures a == b
  {
    RunsAgree(a, b, s, n, |a|);
    RunsAgree(b, a, s, n, |b|);
  }
}
