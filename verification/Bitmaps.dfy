/** Bitmaps (utils/bitmap/bitmap.go): a length and its 32-bit words, lowest word first.

    The Go methods never change their receiver: each fills the words of a fresh bitmap in a
    loop. A bitmap is therefore a value here, and the loops fill a local array.
  */
module Bitmaps {
  import opened Words

  /** The number of words `genBitmap` allocates for `len` bits. */
  function WordCount(len: nat): nat {
    (len + 31) / 32
  }

  /** Bit `i` of a word sequence. */
  predicate HasBit(ws: seq<nat>, i: nat) {
    i / 32 < |ws| && BitAt(ws[i / 32], i % 32)
  }

  ghost predicate WordsInRange(ws: seq<nat>) {
    forall k :: 0 <= k < |ws| ==> ws[k] < Shl(1, 32)
  }

  datatype Bitmap = Bitmap(len: nat, words: seq<nat>) {

    /** The library's invariant: as many words as the length needs, and no bit beyond it. */
    ghost predicate Valid() {
      && |words| == WordCount(len)
      && WordsInRange(words)
      && forall i: nat :: HasBit(words, i) ==> i < len
    }

    /** The positions the bitmap holds. */
    ghost function View(): (s: set<nat>)
      ensures forall i: nat :: i in s <==> HasBit(words, i)
    {
      set i: nat | i < 32 * |words| && HasBit(words, i)
    }

    /** Union; the result is as long as the longer operand. */
    method Or(m: Bitmap) returns (r: Bitmap)
      requires Valid() && m.Valid()
      ensures r.Valid() && r.len == (if len < m.len then m.len else len)
      ensures r.View() == View() + m.View()
    {
      var maxb, minb := this, m;
      if len < m.len {
        maxb, minb := m, this;
      }
      var bits := CopyOf(maxb.words);
      for i := 0 to |minb.words|
        invariant Mixed(BitOp.Or, bits[..], maxb.words, minb.words, i)
      {
        bits[i] := Bitwise(BitOp.Or, maxb.words[i], minb.words[i]);
      }
      r := Bitmap(maxb.len, bits[..]);
      MixedBits(BitOp.Or, r.words, maxb.words, minb.words);
    }

    /** Intersection; the result is as long as the shorter operand. */
    method And(m: Bitmap) returns (r: Bitmap)
      requires Valid() && m.Valid()
      ensures r.Valid() && r.len == (if len < m.len then len else m.len)
      ensures r.View() == View() * m.View()
    {
      var maxb, minb := this, m;
      if len < m.len {
        maxb, minb := m, this;
      }
      var bits := new nat[WordCount(minb.len)](_ => 0);
      for i := 0 to |minb.words|
        invariant forall k :: 0 <= k < i ==> bits[k] == Bitwise(BitOp.And, maxb.words[k], minb.words[k])
      {
        bits[i] := Bitwise(BitOp.And, maxb.words[i], minb.words[i]);
      }
      r := Bitmap(minb.len, bits[..]);
      MixedBits(BitOp.And, r.words, maxb.words[..|minb.words|], minb.words);
    }

    /** Symmetric difference. */
    method Xor(m: Bitmap) returns (r: Bitmap)
      requires Valid() && m.Valid()
      ensures r.Valid() && r.len == (if len < m.len then m.len else len)
      ensures r.View() == (View() - m.View()) + (m.View() - View())
    {
      var maxb, minb := this, m;
      if len < m.len {
        maxb, minb := m, this;
      }
      var bits := CopyOf(maxb.words);
      for i := 0 to |minb.words|
        invariant Mixed(BitOp.Xor, bits[..], maxb.words, minb.words, i)
      {
        bits[i] := Bitwise(BitOp.Xor, maxb.words[i], minb.words[i]);
      }
      r := Bitmap(maxb.len, bits[..]);
      MixedBits(BitOp.Xor, r.words, maxb.words, minb.words);
    }

    /** Set difference, for operands of either relative length; keeps the receiver's length. */
    method Axor(m: Bitmap) returns (r: Bitmap)
      requires Valid() && m.Valid()
      ensures r.Valid() && r.len == len
      ensures r.View() == View() - m.View()
    {
      var maxb, minb := this, m;
      if len < m.len {
        maxb, minb := m, this;
      }
      var bits: array<nat>;
      if len == maxb.len {
        bits := CopyOf(maxb.words);
      } else {
        bits := new nat[WordCount(minb.len)](_ => 0);
      }
      MaskWords(bits, maxb.words, minb.words, words);
      r := Bitmap(len, bits[..]);
      AxorBits(r.words, this, m);
    }

    /** Whether no bit is set. */
    method IsEmpty() returns (empty: bool)
      requires Valid()
      ensures empty <==> View() == {}
    {
      if |words| == 0 {
        return true;
      }
      var r := words[0];
      for i := 0 to |words|
        invariant i == 0 ==> r == words[0]
        invariant r == 0 ==> forall k :: 0 <= k < i ==> words[k] == 0
        invariant (forall k :: 0 <= k < |words| ==> words[k] == 0) ==> r == 0
      {
        if i > 0 {
          OrZero(r, words[i]);
          r := Bitwise(BitOp.Or, r, words[i]);
        }
      }
      NoWordNoBit(words);
      empty := r == 0;
    }
  }

  /** `NewBitmap(len)`: no bit set. */
  function Blank(len: nat): (r: Bitmap)
    ensures r.Valid() && r.len == len && r.View() == {}
  {
    var r := Bitmap(len, seq(WordCount(len), _ => 0));
    assert forall i: nat :: !HasBit(r.words, i) by {
      forall i: nat ensures !HasBit(r.words, i) {
        ZeroBit(i % 32);
      }
    }
    r
  }

  method CopyOf(ws: seq<nat>) returns (a: array<nat>)
    ensures fresh(a) && a[..] == ws
  {
    a := new nat[|ws|](i requires 0 <= i < |ws| => ws[i]);
  }

  /** The words below `n` are combined, the others still those of the longer operand. */
  ghost predicate Mixed(op: BitOp, r: seq<nat>, maxb: seq<nat>, minb: seq<nat>, n: nat) {
    && |r| == |maxb| && |minb| <= |maxb| && n <= |minb|
    && (forall k :: 0 <= k < n ==> r[k] == Bitwise(op, maxb[k], minb[k]))
    && forall k :: n <= k < |maxb| ==> r[k] == maxb[k]
  }

  /** Reading the shorter operand's missing words as empty, the result is the operator applied
      at every position: a length mismatch is harmless. */
  lemma MixedBits(op: BitOp, r: seq<nat>, maxb: seq<nat>, minb: seq<nat>)
    requires Mixed(op, r, maxb, minb, |minb|)
    requires WordsInRange(maxb) && WordsInRange(minb)
    requires op.Or? || op.Xor? || |maxb| == |minb|
    ensures WordsInRange(r)
    ensures forall i: nat :: HasBit(r, i) == Apply(op, HasBit(maxb, i), HasBit(minb, i))
  {
    forall k | 0 <= k < |r| ensures r[k] < Shl(1, 32) {
      if k < |minb| {
        BitwiseBound(op, maxb[k], minb[k], 32);
      }
    }
    forall i: nat ensures HasBit(r, i) == Apply(op, HasBit(maxb, i), HasBit(minb, i)) {
      if i / 32 < |minb| {
        BitwiseBit(op, maxb[i / 32], minb[i / 32], i % 32);
      }
    }
  }

  /** `(x ^ y) & b`. */
  function Masked(x: nat, y: nat, b: nat): nat {
    Bitwise(BitOp.And, Bitwise(BitOp.Xor, x, y), b)
  }

  /** The loop of Axor: the words that both operands have. */
  method MaskWords(bits: array<nat>, maxw: seq<nat>, minw: seq<nat>, own: seq<nat>)
    requires bits.Length == |own| && |minw| <= |maxw| && |minw| <= |own|
    modifies bits
    ensures forall k :: 0 <= k < |minw| ==> bits[k] == Masked(maxw[k], minw[k], own[k])
    ensures forall k :: |minw| <= k < |own| ==> bits[k] == old(bits[k])
  {
    for i := 0 to |minw|
      invariant forall k :: 0 <= k < i ==> bits[k] == Masked(maxw[k], minw[k], own[k])
      invariant forall k :: i <= k < |own| ==> bits[k] == old(bits[k])
    {
      bits[i] := Masked(maxw[i], minw[i], own[i]);
    }
  }

  lemma MaskedBit(x: nat, y: nat, b: nat, i: nat)
    ensures BitAt(Masked(x, y, b), i) == (BitAt(x, i) != BitAt(y, i) && BitAt(b, i))
  {
    BitwiseBit(BitOp.Xor, x, y, i);
    BitwiseBit(BitOp.And, Bitwise(BitOp.Xor, x, y), b, i);
  }

  lemma MaskedBound(x: nat, y: nat, b: nat, n: nat)
    requires x < Shl(1, n) && y < Shl(1, n) && b < Shl(1, n)
    ensures Masked(x, y, b) < Shl(1, n)
  {
    BitwiseBound(BitOp.Xor, x, y, n);
    BitwiseBound(BitOp.And, Bitwise(BitOp.Xor, x, y), b, n);
  }

  lemma AxorBits(r: seq<nat>, b: Bitmap, m: Bitmap)
    requires b.Valid() && m.Valid() && |r| == |b.words|
    requires forall k :: 0 <= k < |r| && k < |m.words| ==>
      r[k] == Masked(b.words[k], m.words[k], b.words[k]) || r[k] == Masked(m.words[k], b.words[k], b.words[k])
    requires forall k :: |m.words| <= k < |r| ==> r[k] == b.words[k]
    ensures WordsInRange(r)
    ensures forall i: nat :: HasBit(r, i) == (HasBit(b.words, i) && !HasBit(m.words, i))
  {
    forall k | 0 <= k < |r| ensures r[k] < Shl(1, 32) {
      if k < |m.words| {
        MaskedBound(b.words[k], m.words[k], b.words[k], 32);
        MaskedBound(m.words[k], b.words[k], b.words[k], 32);
      }
    }
    forall i: nat ensures HasBit(r, i) == (HasBit(b.words, i) && !HasBit(m.words, i)) {
      var k := i / 32;
      if k < |r| && k < |m.words| {
        MaskedBit(b.words[k], m.words[k], b.words[k], i % 32);
        MaskedBit(m.words[k], b.words[k], b.words[k], i % 32);
      }
    }
  }

  lemma OrZero(a: nat, b: nat)
    ensures Bitwise(BitOp.Or, a, b) == 0 <==> a == 0 && b == 0
  {
    if a > 0 || b > 0 {
      OrZero(a / 2, b / 2);
    }
  }

  lemma NoWordNoBit(ws: seq<nat>)
    requires WordsInRange(ws)
    ensures (forall k :: 0 <= k < |ws| ==> ws[k] == 0) <==> forall i: nat :: !HasBit(ws, i)
  {
    if forall i: nat :: !HasBit(ws, i) {
      forall k | 0 <= k < |ws| ensures ws[k] == 0 {
        WordFromPositions(ws, k);
        forall j: nat ensures BitAt(ws[k], j) == BitAt(0, j) {
          ZeroBit(j);
          if j < 32 {
            assert !HasBit(ws, 32 * k + j);
          }
        }
        SameBits(ws[k], 0);
      }
    } else {
      var i: nat :| HasBit(ws, i);
      ZeroBit(i % 32);
    }
  }

  lemma WordFromPositions(ws: seq<nat>, k: nat)
    requires WordsInRange(ws) && k < |ws|
    ensures forall j: nat :: j < 32 ==> BitAt(ws[k], j) == HasBit(ws, 32 * k + j)
    ensures forall j: nat :: 32 <= j ==> !BitAt(ws[k], j)
  {
    forall j: nat | 32 <= j ensures !BitAt(ws[k], j) {
      HighBitsClear(ws[k], 32, j);
    }
    forall j: nat | j < 32 ensures BitAt(ws[k], j) == HasBit(ws, 32 * k + j) {
      assert (32 * k + j) / 32 == k && (32 * k + j) % 32 == j;
    }
  }

  /** A bitmap is determined by its length and its positions. */
  lemma SameView(a: Bitmap, b: Bitmap)
    requires a.Valid() && b.Valid() && a.len == b.len
    requires a.View() == b.View()
    ensures a == b
  {
    forall k | 0 <= k < |a.words| ensures a.words[k] == b.words[k] {
      WordFromPositions(a.words, k);
      WordFromPositions(b.words, k);
      forall j: nat ensures BitAt(a.words[k], j) == BitAt(b.words[k], j) {
        if j < 32 {
          assert 32 * k + j in a.View() <==> 32 * k + j in b.View();
        }
      }
      SameBits(a.words[k], b.words[k]);
    }
  }
}
