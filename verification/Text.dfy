/** The pieces of Go's `strconv` and `strings` packages that the codecs are built from. */
module Text {

  datatype Option<+T> = None | Some(value: T)

  // ----- numbers -----

  function DigitChar(d: nat): (c: char)
    requires d < 16
    ensures DigitValue(c) == Some(d)
  {
    if d < 10 then '0' + d as char else 'a' + (d - 10) as char
  }

  function DigitValue(c: char): (d: Option<nat>)
    ensures d.Some? ==> d.value < 16
  {
    if '0' <= c <= '9' then Some((c - '0') as nat)
    else if 'a' <= c <= 'f' then Some((c - 'a') as nat + 10)
    else if 'A' <= c <= 'F' then Some((c - 'A') as nat + 10)
    else None
  }

  predicate IsDigit(c: char, base: nat) {
    DigitValue(c).Some? && DigitValue(c).value < base
  }

  predicate AllDigits(s: string, base: nat) {
    forall i :: 0 <= i < |s| ==> IsDigit(s[i], base)
  }

  /** The number a string of digits denotes; the empty string denotes 0. */
  function ValueOf(s: string, base: nat): nat
    requires AllDigits(s, base)
  {
    if s == "" then 0
    else ValueOf(s[..|s| - 1], base) * base + DigitValue(s[|s| - 1]).value
  }

  /** `strconv.ParseUint(s, base, 64)` and, in base 10, `strconv.Atoi` on unsigned input. */
  function ParseNat(s: string, base: nat): Option<nat> {
    if s == "" || !AllDigits(s, base) then None else Some(ValueOf(s, base))
  }

  /** `strconv.FormatUint(n, base)`, `strconv.Itoa`, `%d` and `%x`. */
  function Format(n: nat, base: nat): (s: string)
    requires 2 <= base <= 16
    ensures s != ""
  {
    if n < base then [DigitChar(n)] else Format(n / base, base) + [DigitChar(n % base)]
  }

  function Itoa(n: nat): string {
    Format(n, 10)
  }

  function Itoas(ns: seq<nat>): (r: seq<string>)
    ensures |r| == |ns| && forall i :: 0 <= i < |ns| ==> r[i] == Itoa(ns[i])
  {
    if ns == [] then [] else Itoas(ns[..|ns| - 1]) + [Itoa(ns[|ns| - 1])]
  }

  lemma {:induction false} ItoasAppend(a: seq<nat>, n: nat)
    ensures Itoas(a + [n]) == Itoas(a) + [Itoa(n)]
  {
    assert (a + [n])[..|a|] == a;
  }

  function Zeros(n: nat): (s: string)
    ensures |s| == n && forall i :: 0 <= i < n ==> s[i] == '0'
  {
    seq(n, _ => '0')
  }

  lemma AppendDigit(s: string, d: nat, base: nat)
    requires d < base <= 16 && AllDigits(s, base)
    ensures AllDigits(s + [DigitChar(d)], base)
    ensures ValueOf(s + [DigitChar(d)], base) == ValueOf(s, base) * base + d
  {
    var t := s + [DigitChar(d)];
    assert t[..|t| - 1] == s;
  }

  lemma QuotientRemainder(n: nat, base: nat)
    requires base > 0
    ensures n / base * base + n % base == n
  {
  }

  /** Parsing undoes formatting, in every base. */
  lemma {:induction false} FormatParses(n: nat, base: nat)
    requires 2 <= base <= 16
    ensures AllDigits(Format(n, base), base) && ValueOf(Format(n, base), base) == n
    ensures ParseNat(Format(n, base), base) == Some(n)
  {
    if n < base {
      AppendDigit("", n, base);
      assert "" + [DigitChar(n)] == [DigitChar(n)];
    } else {
      FormatParses(n / base, base);
      LastDigit(Format(n / base, base), n, base);
    }
  }

  lemma LastDigit(s: string, n: nat, base: nat)
    requires 2 <= base <= 16 && AllDigits(s, base) && ValueOf(s, base) == n / base
    ensures AllDigits(s + [DigitChar(n % base)], base) && ValueOf(s + [DigitChar(n % base)], base) == n
  {
    AppendDigit(s, n % base, base);
    QuotientRemainder(n, base);
  }

  /** The digits, in either case; only lower case is written. */
  lemma DigitTable(c: char, d: nat)
    requires d < 16
    ensures DigitValue(c) == Some(d) <==> c == "0123456789abcdef"[d] || c == "0123456789ABCDEF"[d]
    ensures DigitChar(d) == "0123456789abcdef"[d]
  {
  }

  predicate Plain(s: string) {
    forall i :: 0 <= i < |s| ==> '0' <= s[i] <= '9' || 'a' <= s[i] <= 'f'
  }

  lemma PlainAppend(s: string, d: nat)
    requires d < 16 && Plain(s)
    ensures Plain(s + [DigitChar(d)])
  {
  }

  /** A number is written without leading zeros, in lower case. */
  lemma {:induction false} FormatIsPlain(n: nat, base: nat)
    requires 2 <= base <= 16
    ensures Plain(Format(n, base)) && (n > 0 ==> Format(n, base)[0] != '0')
  {
    if n < base {
      assert Format(n, base) == [DigitChar(n)];
    } else {
      FormatIsPlain(n / base, base);
      PlainAppend(Format(n / base, base), n % base);
      Nonzero(n, base);
    }
  }

  lemma Nonzero(n: nat, base: nat)
    requires n >= base >= 1
    ensures n / base > 0
  {
  }

  lemma ItoaInjective(m: nat, n: nat)
    requires Itoa(m) == Itoa(n)
    ensures m == n
  {
    FormatParses(m, 10);
    FormatParses(n, 10);
  }

  /** Leading zeros do not change a number. */
  lemma {:induction false} PaddedValue(n: nat, s: string, base: nat)
    requires base > 0 && AllDigits(s, base)
    ensures AllDigits(Zeros(n) + s, base) && ValueOf(Zeros(n) + s, base) == ValueOf(s, base)
    decreases |s|, n
  {
    var t := Zeros(n) + s;
    if s != "" {
      PaddedValue(n, s[..|s| - 1], base);
      assert t[..|t| - 1] == Zeros(n) + s[..|s| - 1];
    } else if n > 0 {
      PaddedValue(n - 1, "", base);
      assert t == Zeros(n) && t[..|t| - 1] == Zeros(n - 1) == Zeros(n - 1) + "";
    } else {
      assert t == "";
    }
  }

  // ----- splitting and joining -----

  /** `strings.Split(s, sep)`. */
  function Split(s: string, sep: char): (parts: seq<string>)
    ensures |parts| >= 1
  {
    if s == "" then [""]
    else if s[0] == sep then [""] + Split(s[1..], sep)
    else var rest := Split(s[1..], sep); [[s[0]] + rest[0]] + rest[1..]
  }

  /** `strings.Join(parts, sep)`. */
  function Join(parts: seq<string>, sep: char): string {
    if |parts| == 0 then ""
    else if |parts| == 1 then parts[0]
    else parts[0] + [sep] + Join(parts[1..], sep)
  }

  /** `strings.SplitN(s, sep, 2)`: the text before and after the first separator, if any. */
  function Cut(s: string, sep: char): (r: Option<(string, string)>)
    ensures r.None? <==> sep !in s
    ensures r.Some? ==> s == r.value.0 + [sep] + r.value.1 && sep !in r.value.0
  {
    if s == "" then None
    else if s[0] == sep then Some(("", s[1..]))
    else
      match Cut(s[1..], sep)
      case None => None
      case Some(p) => Some(([s[0]] + p.0, p.1))
  }

  lemma {:induction false} SplitHead(a: string, sep: char, rest: string)
    requires sep !in a
    ensures Split(a, sep) == [a]
    ensures Split(a + [sep] + rest, sep) == [a] + Split(rest, sep)
  {
    var s := a + [sep] + rest;
    if a == "" {
      assert s[1..] == rest;
    } else {
      SplitHead(a[1..], sep, rest);
      assert s[1..] == a[1..] + [sep] + rest;
      assert [a[0]] + a[1..] == a;
      assert Split(a[1..], sep)[1..] == [];
    }
  }

  lemma {:induction false} CutHead(a: string, sep: char, rest: string)
    requires sep !in a
    ensures Cut(a + [sep] + rest, sep) == Some((a, rest))
  {
    var s := a + [sep] + rest;
    if a == "" {
      assert s[1..] == rest;
    } else {
      CutHead(a[1..], sep, rest);
      assert s[1..] == a[1..] + [sep] + rest;
      assert [a[0]] + a[1..] == a;
    }
  }

  /** Splitting undoes joining when no part holds the separator. */
  lemma {:induction false} SplitJoin(parts: seq<string>, sep: char)
    requires |parts| >= 1 && forall i :: 0 <= i < |parts| ==> sep !in parts[i]
    ensures Split(Join(parts, sep), sep) == parts
  {
    if |parts| == 1 {
      SplitHead(parts[0], sep, "");
    } else {
      SplitJoin(parts[1..], sep);
      SplitHead(parts[0], sep, Join(parts[1..], sep));
    }
  }

  lemma {:induction false} JoinAppend(parts: seq<string>, sep: char, last: string)
    requires |parts| >= 1
    ensures Join(parts + [last], sep) == Join(parts, sep) + [sep] + last
  {
    var all := parts + [last];
    if |parts| == 1 {
      assert all[1..] == [last];
    } else {
      JoinAppend(parts[1..], sep, last);
      assert all[1..] == parts[1..] + [last];
    }
  }
}
