/** The searches for consecutive bits (utils/bitmap/bitmap.go, GetConnectiveBits and
    MaxConnectiveBits) and the longest-run loop of the allocator. */
module Search {
  import opened WaySets
  import opened Bitmaps
  import opened Ranges
  import opened Runs

  const UINT32: nat := 0x1_0000_0000

  /** Counts consecutive ones upwards from `offset`; stops at index `cur` once it has `ways`. */
  method ScanLow(ts: string, ways: nat, offset: nat, ghost s: set<nat>) returns (total: nat, cur: nat)
    requires ts == BitText(s, |ts|) && ways >= 1 && forall i :: i in s ==> i < |ts|
    ensures total < ways ==> forall p: nat :: offset <= p ==> !Fits(s, p, ways)
    ensures total >= ways ==> cur + ways <= |ts| && LowestFit(s, ways, offset, |ts| - cur - ways)
  {
    total, cur := 0, 0;
    var i := |ts| - 1 - offset;
    while i >= 0
      invariant i < |ts| && total < ways
      invariant offset < |ts| ==>
        -1 <= i && OnesBelow(s, |ts| - 1 - i, total, offset) && NoneEndsBy(s, ways, offset, |ts| - 1 - i)
      invariant offset >= |ts| ==> i < 0
    {
      var q := |ts| - 1 - i;
      assert ts[i] == BitChar(q in s);
      if ts[i] == '1' {
        total := total + 1;
        if total >= ways {
          cur := i;
          break;
        }
        ShortRunNoFit(s, ways, offset, q + 1, total);
      } else {
        total := 0;
      }
      i := i - 1;
    }
    if total < ways {
      forall p: nat | offset <= p ensures !Fits(s, p, ways) {
        assert p + ways - 1 in Interval(p, p + ways);
      }
    }
  }

  /** The `total` positions just below `q` are members, and the one before them is not (or lies
      below the floor). */
  ghost predicate OnesBelow(s: set<nat>, q: int, total: nat, floor: nat) {
    && floor + total <= q
    && (forall i: nat :: q - total <= i < q ==> i in s)
    && (q - total == floor || q - total - 1 !in s)
  }

  ghost predicate NoneEndsBy(s: set<nat>, ways: nat, floor: nat, q: int) {
    forall p: nat :: floor <= p && p + ways <= q ==> !Fits(s, p, ways)
  }

  lemma ShortRunNoFit(s: set<nat>, ways: nat, floor: nat, q: nat, total: nat)
    requires OnesBelow(s, q, total, floor) && total < ways
    ensures forall p: nat :: floor <= p && p + ways == q ==> !Fits(s, p, ways)
  {
    forall p: nat | floor <= p && p + ways == q ensures !Fits(s, p, ways) {
      assert q - total - 1 in Interval(p, q);
    }
  }

  /** Counts consecutive ones downwards from `offset` below the top. */
  method ScanHigh(ts: string, ways: nat, offset: nat, ghost s: set<nat>) returns (total: nat, cur: nat)
    requires ts == BitText(s, |ts|) && ways >= 1
    ensures total < ways ==> forall p: nat :: p + ways <= |ts| - offset ==> !Fits(s, p, ways)
    ensures total >= ways ==> cur < |ts| && HighestFit(s, ways, |ts| - offset, |ts| - 1 - cur)
  {
    total, cur := 0, 0;
    var i := offset;
    while i < |ts|
      invariant total < ways && (offset < |ts| ==> i <= |ts|)
      invariant offset < |ts| ==>
        OnesAbove(s, |ts| - i, total, |ts| - offset) && NoneStartsAt(s, ways, |ts| - i, |ts| - offset)
    {
      var q := |ts| - 1 - i;
      assert ts[i] == BitChar(q in s);
      if ts[i] == '1' {
        total := total + 1;
        if total >= ways {
          cur := i;
          break;
        }
        ShortRunNoFitAbove(s, ways, q, total, |ts| - offset);
      } else {
        total := 0;
        assert q in Interval(q, q + ways);
      }
      i := i + 1;
    }
  }

  /** The `total` positions from `q` up are members, and the one after them is not (or lies at
      the ceiling). */
  ghost predicate OnesAbove(s: set<nat>, q: nat, total: nat, ceiling: int) {
    && q + total <= ceiling
    && (forall i: nat :: q <= i < q + total ==> i in s)
    && (q + total == ceiling || q + total !in s)
  }

  ghost predicate NoneStartsAt(s: set<nat>, ways: nat, q: nat, ceiling: int) {
    forall p: nat :: q <= p && p + ways <= ceiling ==> !Fits(s, p, ways)
  }

  lemma ShortRunNoFitAbove(s: set<nat>, ways: nat, q: nat, total: nat, ceiling: int)
    requires OnesAbove(s, q, total, ceiling) && total < ways
    ensures q + ways <= ceiling ==> !Fits(s, q, ways)
  {
    if q + ways <= ceiling {
      assert q + total in Interval(q, q + ways);
    }
  }

  /** The lowest (or highest) block of `ways` set bits beyond `offset`, empty exactly when there
      is none. Positions are `uint32`: the sum in the early exit wraps. */
  method GetConnectiveBits(b: Bitmap, ways: nat, offset: nat, fromLow: bool) returns (r: Bitmap)
    requires b.Valid() && 1 <= ways < UINT32 && offset < UINT32 && b.len < UINT32
    ensures r.Valid() && r.len == b.len
    ensures fromLow ==> TakesLowest(b.View(), ways, offset, r.View())
    ensures !fromLow ==> TakesHighest(b.View(), ways, b.len - offset, r.View())
  {
    var found, lo, hi := Seek(b, ways, offset, fromLow);
    r := BlockOrBlank(b.len, found, lo, hi);
    assert Finds(b.View(), b.len, ways, offset, fromLow, r.View());
  }

  /** The block the search is to find among `n` positions. */
  ghost predicate Finds(s: set<nat>, n: nat, ways: nat, offset: nat, fromLow: bool, r: set<nat>) {
    if fromLow then TakesLowest(s, ways, offset, r) else TakesHighest(s, ways, n - offset, r)
  }

  method Seek(b: Bitmap, ways: nat, offset: nat, fromLow: bool) returns (found: bool, lo: nat, hi: nat)
    requires b.Valid() && 1 <= ways < UINT32 && offset < UINT32 && b.len < UINT32
    ensures found ==> lo <= hi < b.len
    ensures Finds(b.View(), b.len, ways, offset, fromLow, if found then Interval(lo, hi + 1) else {})
  {
    var text := ToBinString(b);
    var ts := Strip(text);
    if (offset + ways) % UINT32 > |ts| {
      NothingBeyond(b.View(), b.len, ways, offset);
      return false, 0, 0;
    }
    found, lo, hi := Locate(ts, ways, offset, fromLow, b.View());
  }

  method BlockOrBlank(len: nat, found: bool, lo: nat, hi: nat) returns (r: Bitmap)
    requires found ==> lo <= hi < len
    ensures r.Valid() && r.len == len && r.View() == if found then Interval(lo, hi + 1) else {}
  {
    if found {
      r := FromBlock(len, lo, hi);
    } else {
      r := Blank(len);
    }
  }

  /** The two scans and the block that `cur` stands for. */
  method Locate(ts: string, ways: nat, offset: nat, fromLow: bool, ghost s: set<nat>)
      returns (found: bool, lo: nat, hi: nat)
    requires ts == BitText(s, |ts|) && ways >= 1 && forall i :: i in s ==> i < |ts|
    ensures found ==> lo <= hi < |ts| && hi == lo + ways - 1
    ensures Finds(s, |ts|, ways, offset, fromLow, if found then Interval(lo, hi + 1) else {})
  {
    var total, cur;
    if fromLow {
      total, cur := ScanLow(ts, ways, offset, s);
    } else {
      total, cur := ScanHigh(ts, ways, offset, s);
    }
    if total < ways {
      return false, 0, 0;
    }
    lo, hi := |ts| - 1 - cur, |ts| - 1 - cur;
    if ways > 1 {
      if fromLow {
        lo := |ts| - 1 - cur - (ways - 1);
      } else {
        hi := |ts| - 1 - cur + (ways - 1);
      }
    }
    found := true;
    assert lo in Interval(lo, hi + 1);
  }

  lemma NothingBeyond(s: set<nat>, n: nat, ways: nat, offset: nat)
    requires 1 <= ways && (offset + ways) % UINT32 > n && forall i :: i in s ==> i < n
    ensures TakesLowest(s, ways, offset, {}) && TakesHighest(s, ways, n - offset, {})
  {
    assert offset + ways > n;
    forall p: nat | offset <= p ensures !Fits(s, p, ways) {
      assert p + ways - 1 in Interval(p, p + ways);
    }
  }

  /** The lowest among the longest blocks of set bits. */
  method MaxConnectiveBits(b: Bitmap) returns (r: Bitmap)
    requires b.Valid()
    ensures r.Valid() && r.len == b.len
    ensures b.View() == {} ==> r.View() == {}
    ensures b.View() != {} ==>
      exists p: nat, n: nat ::
        LongestBlock(b.View(), n) && LowestFit(b.View(), n, 0, p) && r.View() == Interval(p, p + n)
  {
    var ss := ToBinStrings(b);
    var cur, maxLen := LongestRun(ss, b.View(), b.len);
    if maxLen == 0 {
      return Blank(b.len);
    }
    r := FromBlock(b.len, cur, cur + maxLen - 1);
  }

  /** The first among the longest runs of ones. */
  method LongestRun(ss: seq<string>, ghost s: set<nat>, ghost n: nat) returns (cur: nat, maxLen: nat)
    requires IsRuns(ss, s, n)
    ensures maxLen == 0 <==> s == {}
    ensures maxLen > 0 ==> cur + maxLen <= n && LongestBlock(s, maxLen) && LowestFit(s, maxLen, 0, cur)
  {
    var totalLen: nat := 0;
    maxLen, cur := 0, 0;
    for i := 0 to |ss|
      invariant totalLen == Offset(ss, i) && (maxLen == 0 ==> cur == 0)
      invariant maxLen > 0 ==> cur + maxLen <= totalLen && Fits(s, cur, maxLen)
      invariant FirstLongest(ss, i, cur, maxLen)
    {
      var l := |ss[i]|;
      OnesRun(ss, s, n, i);
      NextLongest(ss, i, cur, maxLen);
      if '1' in ss[i] {
        if maxLen < l {
          maxLen, cur := l, totalLen;
        }
      }
      totalLen := totalLen + l;
    }
    if maxLen == 0 {
      NoRunNoMember(ss, s, n);
    } else {
      LongestRunWins(ss, s, n, cur, maxLen);
    }
  }

  /** Among the first `i` runs none of ones is longer than `maxLen`, and those below `cur` are
      shorter. */
  ghost predicate FirstLongest(ss: seq<string>, i: nat, cur: nat, maxLen: nat)
    requires i <= |ss|
  {
    forall k :: 0 <= k < i ==> RunBelow(ss, k, cur, maxLen)
  }

  ghost predicate RunBelow(ss: seq<string>, k: nat, cur: nat, maxLen: nat)
    requires k < |ss|
  {
    ss[k] != "" && ss[k][0] == '1' ==> |ss[k]| <= maxLen && (Offset(ss, k) < cur ==> |ss[k]| < maxLen)
  }

  lemma OnesRun(ss: seq<string>, s: set<nat>, n: nat, i: nat)
    requires IsRuns(ss, s, n) && i < |ss|
    ensures ss[i] != "" && ('1' in ss[i] <==> ss[i][0] == '1')
    ensures ss[i][0] == '1' ==> Fits(s, Offset(ss, i), |ss[i]|)
  {
    assert Uniform(ss[i]);
    if ss[i][0] == '1' {
      RunFits(ss, s, n, i);
    }
  }

  lemma NextLongest(ss: seq<string>, i: nat, cur: nat, maxLen: nat)
    requires i < |ss| && ss[i] != "" && FirstLongest(ss, i, cur, maxLen)
    requires maxLen > 0 ==> cur + maxLen <= Offset(ss, i)
    ensures ss[i][0] != '1' || |ss[i]| <= maxLen ==> FirstLongest(ss, i + 1, cur, maxLen)
    ensures ss[i][0] == '1' && |ss[i]| > maxLen ==> FirstLongest(ss, i + 1, Offset(ss, i), |ss[i]|)
  {
    var at, l := Offset(ss, i), |ss[i]|;
    forall k | 0 <= k < i ensures l > maxLen ==> RunBelow(ss, k, at, l) {
      assert RunBelow(ss, k, cur, maxLen);
    }
  }

  lemma NoRunNoMember(ss: seq<string>, s: set<nat>, n: nat)
    requires IsRuns(ss, s, n) && FirstLongest(ss, |ss|, 0, 0)
    ensures s == {}
  {
    forall k | 0 <= k < |ss| ensures ss[k] == "" || ss[k][0] != '1' {
      assert RunBelow(ss, k, 0, 0);
    }
    forall i | i in s ensures false {
      var r := BlockInRun(ss, s, n, i, 1);
    }
  }

  lemma LongestRunWins(ss: seq<string>, s: set<nat>, n: nat, cur: nat, maxLen: nat)
    requires IsRuns(ss, s, n) && maxLen >= 1 && Fits(s, cur, maxLen) && cur + maxLen <= n
    requires FirstLongest(ss, |ss|, cur, maxLen)
    ensures LongestBlock(s, maxLen) && LowestFit(s, maxLen, 0, cur) && s != {}
  {
    assert cur in Interval(cur, cur + maxLen);
    forall p: nat, m: nat | Fits(s, p, m)
      ensures m <= maxLen && (m == maxLen ==> cur <= p)
    {
      if m >= 1 {
        var r := BlockInRun(ss, s, n, p, m);
        assert RunBelow(ss, r, cur, maxLen);
      }
    }
  }

  /** The loop shared by best-effort enforcement and by the hospitality score: the length of the
      longest run of ones, or 0 when even that is shorter than `min`. */
  method LongestFree(v: Bitmap, min: nat) returns (longest: nat)
    requires v.Valid() && min >= 1
    ensures longest == 0 <==> forall p: nat :: !Fits(v.View(), p, min)
    ensures longest > 0 ==> min <= longest <= v.len && LongestBlock(v.View(), longest)
  {
    var fbs := ToBinStrings(v);
    ghost var s := v.View();
    longest := 0;
    for k := 0 to |fbs|
      invariant longest > 0 ==> longest >= min && exists p: nat :: Fits(s, p, longest)
      invariant forall j :: 0 <= j < k && fbs[j][0] == '1' && |fbs[j]| >= min ==> |fbs[j]| <= longest
    {
      if fbs[k][0] == '1' {
        var valLen := |fbs[k]|;
        AtLeast(valLen, min);
        if valLen / min > 0 && longest < valLen {
          RunFits(fbs, s, v.len, k);
          longest := valLen;
        }
      }
    }
    LongestIsBound(fbs, s, v.len, min, longest);
  }

  lemma AtLeast(n: nat, min: nat)
    requires min >= 1
    ensures n / min > 0 <==> n >= min
  {
    assert n == (n / min) * min + n % min;
  }

  lemma LongestIsBound(ss: seq<string>, s: set<nat>, n: nat, min: nat, longest: nat)
    requires IsRuns(ss, s, n) && min >= 1
    requires forall j :: 0 <= j < |ss| && ss[j][0] == '1' && |ss[j]| >= min ==> |ss[j]| <= longest
    requires longest > 0 ==> longest >= min && exists p: nat :: Fits(s, p, longest)
    ensures longest == 0 <==> forall p: nat :: !Fits(s, p, min)
    ensures longest > 0 ==> longest <= n && LongestBlock(s, longest)
  {
    forall p: nat, m: nat | Fits(s, p, m) && m >= min
      ensures m <= longest && m <= n
    {
      var r := BlockInRun(ss, s, n, p, m);
      OffsetMonotone(ss, r + 1, |ss|);
    }
    if longest > 0 {
      var p: nat :| Fits(s, p, longest);
      assert Interval(p, p + min) <= Interval(p, p + longest);
      assert Fits(s, p, min);
    }
  }
}
