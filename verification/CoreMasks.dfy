/** Two decoders for core masks: CoreMaskToSlice (utils/pqos/pqos.go) and parseTasksetMask
    (internal/openstack/util.go). */
module CoreMasks {
  import opened Words
  import opened Bitmaps
  import opened Text
  import HexText

  // ----- listing bits -----

  /** The set bits among the n lowest of `v`, counted from `base`. */
  function BitList(v: nat, n: nat, base: nat): seq<nat> {
    if n == 0 then []
    else BitList(v, n - 1, base) + if BitAt(v, n - 1) then [base + n - 1] else []
  }

  /** The set bits of a sequence of n-bit values, lowest value first. */
  function PartsList(vs: seq<nat>, n: nat, base: nat): seq<nat>
    decreases |vs|
  {
    if vs == [] then [] else BitList(vs[0], n, base) + PartsList(vs[1..], n, base + n)
  }

  /** Position `c` is set in a sequence of n-bit values that starts at `base`. */
  predicate InParts(vs: seq<nat>, n: nat, base: nat, c: nat)
    decreases |vs|
  {
    if vs == [] || c < base then false
    else if c < base + n then BitAt(vs[0], c - base)
    else InParts(vs[1..], n, base + n, c)
  }

  ghost predicate Ascending(s: seq<nat>) {
    forall i, j :: 0 <= i < j < |s| ==> s[i] < s[j]
  }

  lemma {:induction false} BitListMeans(v: nat, n: nat, base: nat)
    ensures Ascending(BitList(v, n, base))
    ensures forall c: nat :: c in BitList(v, n, base) <==> base <= c < base + n && BitAt(v, c - base)
  {
    if n > 0 {
      BitListMeans(v, n - 1, base);
      var before := BitList(v, n - 1, base);
      assert forall i :: 0 <= i < |before| ==> before[i] in before;
    }
  }

  lemma {:induction false} PartsMembers(vs: seq<nat>, n: nat, base: nat, c: nat)
    ensures c in PartsList(vs, n, base) <==> InParts(vs, n, base, c)
    ensures c in PartsList(vs, n, base) ==> c >= base
    decreases |vs|
  {
    if vs != [] {
      BitListMeans(vs[0], n, base);
      PartsMembers(vs[1..], n, base + n, c);
    }
  }

  lemma AppendAscending(low: seq<nat>, high: seq<nat>, next: nat)
    requires Ascending(low) && Ascending(high)
    requires (forall c :: c in low ==> c < next) && forall c :: c in high ==> next <= c
    ensures Ascending(low + high)
  {
    assert forall i :: 0 <= i < |low| ==> low[i] in low;
    assert forall i :: 0 <= i < |high| ==> high[i] in high;
  }

  lemma {:induction false} PartsAscending(vs: seq<nat>, n: nat, base: nat)
    ensures Ascending(PartsList(vs, n, base))
    decreases |vs|
  {
    if vs != [] {
      var high := PartsList(vs[1..], n, base + n);
      BitListMeans(vs[0], n, base);
      PartsAscending(vs[1..], n, base + n);
      forall c | c in high ensures base + n <= c {
        PartsMembers(vs[1..], n, base + n, c);
      }
      AppendAscending(BitList(vs[0], n, base), high, base + n);
    }
  }

  lemma PartsListMeans(vs: seq<nat>, n: nat, base: nat)
    ensures Ascending(PartsList(vs, n, base))
    ensures forall c: nat :: c in PartsList(vs, n, base) <==> InParts(vs, n, base, c)
  {
    PartsAscending(vs, n, base);
    forall c: nat ensures c in PartsList(vs, n, base) <==> InParts(vs, n, base, c) {
      PartsMembers(vs, n, base, c);
    }
  }

  /** Ascending lists with the same members are the same list. */
  lemma {:induction false} AscendingUnique(a: seq<nat>, b: seq<nat>)
    requires Ascending(a) && Ascending(b) && forall c: nat :: c in a <==> c in b
    ensures a == b
    decreases |a|
  {
    HasMember(b);
    if a != [] {
      SameHead(a, b);
      forall c: nat ensures c in a[1..] <==> c in b[1..] {
        TailMembers(a, c);
        TailMembers(b, c);
      }
      AscendingUnique(a[1..], b[1..]);
      assert a == [a[0]] + a[1..] && b == [b[0]] + b[1..];
    }
  }

  lemma SameHead(a: seq<nat>, b: seq<nat>)
    requires Ascending(a) && Ascending(b) && a != [] && forall c: nat :: c in a <==> c in b
    ensures b != [] && a[0] == b[0]
  {
    assert a[0] in b && b[0] in a;
    var i :| 0 <= i < |b| && b[i] == a[0];
    var j :| 0 <= j < |a| && a[j] == b[0];
  }

  lemma HasMember(s: seq<nat>)
    ensures s != [] ==> exists c: nat :: c in s
  {
    if s != [] {
      assert s[0] in s;
    }
  }

  lemma TailMembers(s: seq<nat>, c: nat)
    requires Ascending(s) && s != []
    ensures c in s[1..] <==> c in s && c != s[0]
  {
    if c in s && c != s[0] {
      var i :| 0 <= i < |s| && s[i] == c;
      assert s[1..][i - 1] == c;
    }
  }

  // ----- CoreMaskToSlice -----

  /** `strconv.ParseUint(part, 16, bits)`. */
  function ParsePart(part: string, bits: nat): Option<nat> {
    match ParseNat(part, 16)
    case Some(v) => if v < Shl(1, bits) then Some(v) else None
    case None => None
  }

  /** The parts' values, last part first, or nothing when one cannot be read. */
  function ParseParts(parts: seq<string>, bits: nat): Option<seq<nat>> {
    if parts == [] then Some([])
    else
      match (ParsePart(parts[|parts| - 1], bits), ParseParts(parts[..|parts| - 1], bits))
      case (Some(v), Some(high)) => Some([v] + high)
      case _ => None
  }

  function PartBits(parts: seq<string>): nat
    requires parts != []
  {
    if |parts[|parts| - 1]| > 8 then 64 else 32
  }

  /** The list of cores of a mask. */
  function Cores(mask: string): Option<seq<nat>> {
    var parts := Split(mask, ',');
    if mask == "" then None
    else
      match ParseParts(parts, PartBits(parts))
      case Some(vs) => Some(PartsList(vs, PartBits(parts), 0))
      case None => None
  }

  method CoreMaskToSlice(mask: string) returns (cores: Option<seq<nat>>)
    ensures cores == Cores(mask)
  {
    if |mask| == 0 {
      return None;
    }
    var maskParts := Split(mask, ',');
    var uintLen := 32;
    if |maskParts[|maskParts| - 1]| > 8 {
      uintLen := 64;
    }
    cores := ListParts(maskParts, uintLen);
    NothingBefore(ParseParts(maskParts, uintLen), uintLen);
  }

  function Prefixed(done: seq<nat>, rest: Option<seq<nat>>, n: nat, base: nat): Option<seq<nat>> {
    match rest { case Some(vs) => Some(done + PartsList(vs, n, base)) case None => None }
  }

  lemma NothingBefore(rest: Option<seq<nat>>, n: nat)
    ensures Prefixed([], rest, n, 0) == match rest { case Some(vs) => Some(PartsList(vs, n, 0)) case None => None }
  {
    if rest.Some? {
      assert [] + PartsList(rest.value, n, 0) == PartsList(rest.value, n, 0);
    }
  }

  method ListParts(parts: seq<string>, uintLen: nat) returns (cores: Option<seq<nat>>)
    ensures cores == Prefixed([], ParseParts(parts, uintLen), uintLen, 0)
  {
    ghost var goal := Prefixed([], ParseParts(parts, uintLen), uintLen, 0);
    var coreList: seq<nat> := [];
    var base: nat := 0;
    var index := |parts| - 1;
    assert parts[..|parts|] == parts;
    while index >= 0
      invariant -1 <= index < |parts|
      invariant Prefixed(coreList, ParseParts(parts[..index + 1], uintLen), uintLen, base) == goal
    {
      PartStep(parts, index, uintLen, coreList, base);
      match ParsePart(parts[index], uintLen) {
        case None => return None;
        case Some(v) =>
          var bits := ListBits(v, uintLen, base);
          coreList := coreList + bits;
      }
      base := base + uintLen;
      index := index - 1;
    }
    assert coreList + [] == coreList;
    cores := Some(coreList);
  }

  lemma PartStep(parts: seq<string>, index: nat, n: nat, done: seq<nat>, base: nat)
    requires index < |parts|
    ensures Prefixed(done, ParseParts(parts[..index + 1], n), n, base) ==
      match ParsePart(parts[index], n) {
        case None => None
        case Some(v) => Prefixed(done + BitList(v, n, base), ParseParts(parts[..index], n), n, base + n)
      }
  {
    var p := parts[..index + 1];
    assert p[|p| - 1] == parts[index] && p[..|p| - 1] == parts[..index];
    if ParsePart(parts[index], n).Some? && ParseParts(parts[..index], n).Some? {
      var v, high := ParsePart(parts[index], n).value, ParseParts(parts[..index], n).value;
      assert ([v] + high)[1..] == high;
      assert done + (BitList(v, n, base) + PartsList(high, n, base + n)) ==
        (done + BitList(v, n, base)) + PartsList(high, n, base + n);
    }
  }

  /** The inner loop: test the lowest bit, shift, repeat. */
  method ListBits(v: nat, n: nat, base: nat) returns (bits: seq<nat>)
    ensures bits == BitList(v, n, base)
  {
    bits := [];
    var rest := v;
    for shift := 0 to n
      invariant bits == BitList(v, shift, base)
      invariant forall i: nat :: BitAt(rest, i) == BitAt(v, shift + i)
    {
      assert BitAt(rest, 0) == BitAt(v, shift);
      if rest % 2 == 1 {
        bits := bits + [shift + base];
      }
      ghost var before := rest;
      rest := rest / 2;
      forall i: nat ensures BitAt(rest, i) == BitAt(v, shift + 1 + i) {
        assert BitAt(before, i + 1) == BitAt(v, shift + (i + 1));
      }
    }
  }

  // ----- what any core mask means -----

  /** The width the code takes all parts to have: 64 bits when the last part has more than eight
      digits, else 32. */
  ghost predicate WidthOf(parts: seq<string>, n: nat)
    requires parts != []
  {
    n == if |parts[|parts| - 1]| > 8 then 64 else 32
  }

  ghost predicate ReadablePart(part: string, n: nat) {
    part != "" && AllDigits(part, 16) && ValueOf(part, 16) < Shl(1, n)
  }

  /** Core `c` is bit `c % n` of the part `c / n` places from the right. */
  ghost predicate CoreBit(parts: seq<string>, n: nat, c: nat)
    requires n >= 1
  {
    c / n < |parts| && var part := parts[|parts| - 1 - c / n]; AllDigits(part, 16) && HexText.DigitBit(part, c % n)
  }

  ghost predicate AllReadable(parts: seq<string>, n: nat) {
    forall i :: 0 <= i < |parts| ==> ReadablePart(parts[i], n)
  }

  ghost predicate ListsCores(parts: seq<string>, n: nat, cores: seq<nat>)
    requires n >= 1
  {
    Ascending(cores) && forall c: nat :: c in cores <==> CoreBit(parts, n, c)
  }

  /** For every mask: it is read exactly when it is not empty and every part is a number of the
      width taken, and then the list holds exactly the cores whose bits are set, in order. */
  lemma CoresMean(mask: string, n: nat)
    requires WidthOf(Split(mask, ','), n)
    ensures Cores(mask).Some? <==> mask != "" && AllReadable(Split(mask, ','), n)
    ensures Cores(mask).Some? ==> ListsCores(Split(mask, ','), n, Cores(mask).value)
  {
    var parts := Split(mask, ',');
    assert PartBits(parts) == n;
    PartsReadable(parts, n);
    var read := ParseParts(parts, n);
    if mask != "" && read.Some? {
      assert Cores(mask) == Some(PartsList(read.value, n, 0));
      PartsAreListed(parts, n, read.value);
    } else {
      assert Cores(mask) == None;
    }
  }

  lemma PartsAreListed(parts: seq<string>, n: nat, vs: seq<nat>)
    requires n >= 1 && ParseParts(parts, n) == Some(vs)
    ensures ListsCores(parts, n, PartsList(vs, n, 0))
  {
    PartsListMeans(vs, n, 0);
    forall c: nat ensures InParts(vs, n, 0, c) <==> CoreBit(parts, n, c) {
      PartsBits(parts, n, vs, 0, c);
    }
  }

  lemma {:induction false} PartsReadable(parts: seq<string>, n: nat)
    ensures ParseParts(parts, n).Some? <==> AllReadable(parts, n)
  {
    if parts != [] {
      var last, front := |parts| - 1, parts[..|parts| - 1];
      PartsReadable(front, n);
      assert ParsePart(parts[last], n).Some? <==> ReadablePart(parts[last], n);
      assert forall i :: 0 <= i < last ==> parts[i] == front[i];
    }
  }

  lemma HigherPart(parts: seq<string>, n: nat, c: nat)
    requires parts != [] && n >= 1 && c >= n
    ensures CoreBit(parts, n, c) <==> CoreBit(parts[..|parts| - 1], n, c - n)
  {
    OnePartLess(c, n);
    var front := parts[..|parts| - 1];
    if c / n < |parts| {
      assert parts[|parts| - 1 - c / n] == front[|front| - 1 - (c - n) / n];
    }
  }

  lemma LowestPart(parts: seq<string>, n: nat, c: nat)
    requires parts != [] && c < n
    ensures CoreBit(parts, n, c) <==> AllDigits(parts[|parts| - 1], 16) && HexText.DigitBit(parts[|parts| - 1], c)
  {
    FirstPart(c, n);
  }

  /** The bits of the values are those of the parts, last part first. */
  lemma {:induction false} PartsBits(parts: seq<string>, n: nat, vs: seq<nat>, base: nat, c: nat)
    requires n >= 1 && ParseParts(parts, n) == Some(vs) && c >= base
    ensures InParts(vs, n, base, c) <==> CoreBit(parts, n, c - base)
    decreases |parts|
  {
    if parts != [] {
      var last := parts[|parts| - 1];
      if c - base < n {
        LowestPart(parts, n, c - base);
        HexText.ValueBits(last, c - base);
      } else {
        HigherPart(parts, n, c - base);
        PartsBits(parts[..|parts| - 1], n, vs[1..], base + n, c);
      }
    } else {
      NoPart(n, c - base);
    }
  }

  lemma NoPart(n: nat, c: nat)
    requires n >= 1
    ensures c / n >= 0
  {
  }

  lemma OnePartLess(c: nat, n: nat)
    requires 1 <= n <= c
    ensures (c - n) / n == c / n - 1 && (c - n) % n == c % n
  {
    var q, r := c / n, c % n;
    assert c - n == n * (q - 1) + r;
    DivUnique(c - n, n, q - 1, r);
  }

  lemma FirstPart(c: nat, n: nat)
    requires c < n
    ensures c / n == 0 && c % n == c
  {
  }

  // ----- reading what ToString writes -----

  lemma {:induction false} WordsInParts(ws: seq<nat>, base: nat, c: nat)
    ensures InParts(ws, 32, base, c) <==> c >= base && HasBit(ws, c - base)
    decreases |ws|
  {
    if ws != [] && c >= base + 32 {
      WordsInParts(ws[1..], base + 32, c);
      var d := c - base;
      assert (d - 32) / 32 == d / 32 - 1 && (d - 32) % 32 == d % 32;
    }
  }

  lemma {:induction false} PrintedPartsParse(ws: seq<nat>)
    requires ws != [] && WordsInRange(ws)
    ensures ParseParts(HexText.PrintParts(ws), 32) == Some(ws)
    ensures var parts := HexText.PrintParts(ws); parts != [] && |parts[|parts| - 1]| <= 8
  {
    var parts := HexText.PrintParts(ws);
    if |ws| == 1 {
      HexText.WordParses(ws[0]);
      assert parts[..0] == [];
      assert [ws[0]] + [] == ws;
    } else {
      HexText.PaddedWordParses(ws[0]);
      PrintedPartsParse(ws[1..]);
      assert parts[..|parts| - 1] == HexText.PrintParts(ws[1..]);
      assert [ws[0]] + ws[1..] == ws;
    }
  }

  lemma PrintedList(ws: seq<nat>)
    requires ws != [] && WordsInRange(ws)
    ensures Cores(HexText.Print(ws)) == Some(PartsList(ws, 32, 0))
  {
    HexText.PrintedParts(ws);
    HexText.PrintedChars(ws);
    SplitJoin(HexText.PrintParts(ws), ',');
    PrintedPartsParse(ws);
    PrintNotEmpty(ws);
  }

  lemma WordMembers(ws: seq<nat>)
    ensures Ascending(PartsList(ws, 32, 0))
    ensures forall c: nat :: c in PartsList(ws, 32, 0) <==> HasBit(ws, c)
  {
    PartsAscending(ws, 32, 0);
    forall c: nat ensures c in PartsList(ws, 32, 0) <==> HasBit(ws, c) {
      PartsMembers(ws, 32, 0, c);
      WordsInParts(ws, 0, c);
    }
  }

  /** CoreMaskToSlice of a printed bitmap is the ascending list of its members. */
  lemma PrintedCores(b: Bitmap)
    requires b.Valid() && b.len > 0
    ensures Cores(HexText.Print(b.words)).Some?
    ensures var cores := Cores(HexText.Print(b.words)).value;
      Ascending(cores) && forall c: nat :: c in cores <==> c in b.View()
  {
    PrintedList(b.words);
    WordMembers(b.words);
  }

  lemma PrintNotEmpty(ws: seq<nat>)
    requires ws != []
    ensures HexText.Print(ws) != ""
  {
  }

  // ----- parseTasksetMask -----

  /** The digits of a mask, last one first. */
  function Nibbles(mask: string): seq<nat>
    requires AllDigits(mask, 16)
  {
    if mask == "" then []
    else [DigitValue(mask[|mask| - 1]).value] + Nibbles(mask[..|mask| - 1])
  }

  lemma TestBit(v: nat, j: nat)
    ensures Bitwise(And, Shl(1, j), v) != 0 <==> BitAt(v, j)
  {
    var w := Bitwise(And, Shl(1, j), v);
    forall i: nat ensures BitAt(w, i) == (i == j && BitAt(v, i)) {
      BitwiseBit(And, Shl(1, j), v, i);
      ShlBit(1, j, i);
      if i > j {
        assert BitAt(1, i - j) == BitAt(0, i - j - 1);
        ZeroBit(i - j - 1);
      }
    }
    if BitAt(v, j) {
      ZeroBit(j);
    } else {
      forall i: nat ensures BitAt(w, i) == BitAt(0, i) {
        ZeroBit(i);
      }
      SameBits(w, 0);
    }
  }

  /** The decimal names of the set bits; nothing at all when a character is not a digit. */
  method ParseTasksetMask(mask: string) returns (ret: seq<string>)
    requires mask != ""
    ensures AllDigits(mask, 16) ==> ret == Itoas(PartsList(Nibbles(mask), 4, 0)) && Names(mask, ret)
    ensures !AllDigits(mask, 16) ==> ret == []
  {
    ret := [];
    ghost var cores: seq<nat> := [];
    var l := |mask| - 1;
    assert mask[..|mask|] == mask;
    for i := 0 to l + 1
      invariant ret == Itoas(cores) && Listed(mask, i, cores)
    {
      var c := mask[l - i];
      if DigitValue(c).None? {
        return [];
      }
      var val := DigitValue(c).value;
      ListedNext(mask, i, cores);
      ret, cores := NibbleNames(ret, cores, val, 4 * i);
    }
    AllListed(mask, cores);
    BitsAreListed(mask);
    NamesOfBits(mask, cores);
  }

  ghost predicate ListsBits(mask: string, cores: seq<nat>)
    requires AllDigits(mask, 16)
  {
    Ascending(cores) && forall c: nat :: c in cores <==> HexText.DigitBit(mask, c)
  }

  /** `ret` names the set bits of the mask in decimal, in ascending order, each once. */
  ghost predicate Names(mask: string, ret: seq<string>)
    requires AllDigits(mask, 16)
  {
    exists cores: seq<nat> ::
      ListsBits(mask, cores) && |ret| == |cores| && forall i :: 0 <= i < |cores| ==> ret[i] == Itoa(cores[i])
  }

  lemma BitsAreListed(mask: string)
    requires AllDigits(mask, 16)
    ensures ListsBits(mask, PartsList(Nibbles(mask), 4, 0))
  {
    var cores := PartsList(Nibbles(mask), 4, 0);
    PartsListMeans(Nibbles(mask), 4, 0);
    forall c: nat ensures c in cores <==> HexText.DigitBit(mask, c) {
      NibblesInParts(mask, 0, c);
    }
  }

  lemma NamesOfBits(mask: string, cores: seq<nat>)
    requires AllDigits(mask, 16) && ListsBits(mask, cores)
    ensures Names(mask, Itoas(cores))
  {
  }

  /** The lowest `i` digits are digits, and, if all are, `cores` lists their bits. */
  ghost predicate Listed(mask: string, i: nat, cores: seq<nat>) {
    && i <= |mask| && AllDigits(mask[|mask| - i..], 16)
    && (AllDigits(mask, 16) ==>
          cores + PartsList(Nibbles(mask[..|mask| - i]), 4, 4 * i) == PartsList(Nibbles(mask), 4, 0))
  }

  lemma ListedNext(mask: string, i: nat, cores: seq<nat>)
    requires i < |mask| && Listed(mask, i, cores) && DigitValue(mask[|mask| - 1 - i]).Some?
    ensures Listed(mask, i + 1, cores + BitList(DigitValue(mask[|mask| - 1 - i]).value, 4, 4 * i))
  {
    MoreDigits(mask, i);
    if AllDigits(mask, 16) {
      NibbleStep(cores, mask, i);
    }
  }

  lemma AllListed(mask: string, cores: seq<nat>)
    requires Listed(mask, |mask|, cores)
    ensures AllDigits(mask, 16) && cores == PartsList(Nibbles(mask), 4, 0)
  {
    assert mask[0..] == mask && Nibbles(mask[..0]) == [];
    assert cores + [] == cores;
  }

  lemma MoreDigits(mask: string, i: nat)
    requires i < |mask| && AllDigits(mask[|mask| - i..], 16) && DigitValue(mask[|mask| - 1 - i]).Some?
    ensures AllDigits(mask[|mask| - (i + 1)..], 16)
  {
    assert mask[|mask| - (i + 1)..] == [mask[|mask| - 1 - i]] + mask[|mask| - i..];
  }

  lemma NibbleStep(before: seq<nat>, mask: string, i: nat)
    requires i < |mask| && AllDigits(mask, 16)
    ensures var val := DigitValue(mask[|mask| - 1 - i]).value;
      before + PartsList(Nibbles(mask[..|mask| - i]), 4, 4 * i) ==
      (before + BitList(val, 4, 4 * i)) + PartsList(Nibbles(mask[..|mask| - (i + 1)]), 4, 4 * (i + 1))
  {
    var rest := mask[..|mask| - i];
    assert rest[..|rest| - 1] == mask[..|mask| - (i + 1)];
    var val, high := DigitValue(rest[|rest| - 1]).value, Nibbles(rest[..|rest| - 1]);
    assert ([val] + high)[1..] == high;
  }

  method NibbleNames(ret: seq<string>, ghost cores: seq<nat>, val: nat, base: nat)
      returns (ret': seq<string>, ghost cores': seq<nat>)
    requires ret == Itoas(cores)
    ensures cores' == cores + BitList(val, 4, base) && ret' == Itoas(cores')
  {
    ret', cores' := ret, cores;
    assert cores + BitList(val, 0, base) == cores;
    for j := 0 to 4
      invariant cores' == cores + BitList(val, j, base) && ret' == Itoas(cores')
    {
      TestBit(val, j);
      OneMoreBit(cores, val, j, base);
      if Bitwise(And, Shl(1, j), val) != 0 {
        ret', cores' := AddName(ret', cores', base + j);
      }
    }
  }

  method AddName(ret: seq<string>, ghost cores: seq<nat>, c: nat) returns (ret': seq<string>, ghost cores': seq<nat>)
    requires ret == Itoas(cores)
    ensures ret' == Itoas(cores') && cores' == cores + [c]
  {
    ItoasAppend(cores, c);
    ret', cores' := ret + [Itoa(c)], cores + [c];
  }

  lemma OneMoreBit(cores: seq<nat>, val: nat, j: nat, base: nat)
    ensures cores + BitList(val, j + 1, base) ==
      if BitAt(val, j) then (cores + BitList(val, j, base)) + [base + j] else cores + BitList(val, j, base)
  {
  }

  // ----- the two decoders agree -----

  lemma DigitBitStep(mask: string, e: nat)
    requires mask != "" && AllDigits(mask, 16)
    ensures HexText.DigitBit(mask, e) ==
      if e < 4 then BitAt(DigitValue(mask[|mask| - 1]).value, e) else HexText.DigitBit(mask[..|mask| - 1], e - 4)
  {
    if e >= 4 {
      assert (e - 4) / 4 == e / 4 - 1 && (e - 4) % 4 == e % 4;
    }
  }

  lemma {:induction false} NibblesInParts(mask: string, base: nat, c: nat)
    requires AllDigits(mask, 16)
    ensures InParts(Nibbles(mask), 4, base, c) <==> c >= base && HexText.DigitBit(mask, c - base)
    decreases |mask|
  {
    if mask != "" && c >= base {
      var d, rest := DigitValue(mask[|mask| - 1]).value, mask[..|mask| - 1];
      var all := Nibbles(mask);
      assert all[0] == d && all[1..] == Nibbles(rest);
      DigitBitStep(mask, c - base);
      NibblesInParts(rest, base + 4, c);
    }
  }

  lemma NoComma(mask: string)
    requires AllDigits(mask, 16)
    ensures Split(mask, ',') == [mask]
  {
    HexText.DigitsAvoid(mask, 16, ',');
    SplitHead(mask, ',', "");
  }

  /** On one run of 1 to 16 digits both decoders list the same cores. */
  lemma DecodersAgree(mask: string)
    requires 1 <= |mask| <= 16 && AllDigits(mask, 16)
    ensures Cores(mask) == Some(PartsList(Nibbles(mask), 4, 0))
  {
    NoComma(mask);
    var n := PartBits([mask]);
    var v := ValueOf(mask, 16);
    HexText.ValueBits(mask, 0);
    ShlMonotone(4 * |mask|, n);
    OnePart(mask, n);
    PartsListMeans([v], n, 0);
    PartsListMeans(Nibbles(mask), 4, 0);
    forall c: nat ensures InParts([v], n, 0, c) <==> InParts(Nibbles(mask), 4, 0, c) {
      HexText.ValueBits(mask, c);
      NibblesInParts(mask, 0, c);
      assert InParts([v], n, 0, c) <==> c < n && BitAt(v, c);
    }
    AscendingUnique(PartsList([v], n, 0), PartsList(Nibbles(mask), 4, 0));
  }

  lemma OnePart(mask: string, n: nat)
    requires mask != "" && AllDigits(mask, 16) && ValueOf(mask, 16) < Shl(1, n)
    ensures ParseParts([mask], n) == Some([ValueOf(mask, 16)])
  {
    assert [mask][..0] == [];
    assert [ValueOf(mask, 16)] + [] == [ValueOf(mask, 16)];
  }

  /** And so does the bitmap that NewBitmap decodes from the same digits, of any number. */
  lemma BitmapAgrees(mask: string)
    requires AllDigits(mask, 16) && mask != ""
    ensures HexText.ChunkWords(mask).Some?
    ensures forall c: nat :: c in PartsList(Nibbles(mask), 4, 0) <==> HasBit(HexText.ChunkWords(mask).value, c)
  {
    HexText.ChunkBits(mask);
    PartsListMeans(Nibbles(mask), 4, 0);
    SameMembers(mask, PartsList(Nibbles(mask), 4, 0), HexText.ChunkWords(mask).value);
  }

  lemma SameMembers(mask: string, list: seq<nat>, words: seq<nat>)
    requires AllDigits(mask, 16)
    requires forall c: nat :: c in list <==> InParts(Nibbles(mask), 4, 0, c)
    requires forall c: nat :: HasBit(words, c) == HexText.DigitBit(mask, c)
    ensures forall c: nat :: c in list <==> HasBit(words, c)
  {
    forall c: nat ensures c in list <==> HasBit(words, c) {
      NibblesInParts(mask, 0, c);
    }
  }
}
