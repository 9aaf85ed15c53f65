/** Machine words as natural numbers.

    The bitmap library stores 32 bits per Go `int`. A word is modelled here as a natural
    number and its bits by repeated halving, so shifts and bitwise operators are ordinary
    arithmetic and their laws are short inductions.
  */
module Words {

  /** The bit of weight 2^i of `w`. */
  predicate BitAt(w: nat, i: nat) {
    if i == 0 then w % 2 == 1 else BitAt(w / 2, i - 1)
  }

  /** `w << n`. */
  function Shl(w: nat, n: nat): (r: nat)
    ensures w > 0 ==> r > 0
  {
    if n == 0 then w else 2 * Shl(w, n - 1)
  }

  /** `1<<n - 1`: the n lowest bits. */
  function Ones(n: nat): nat {
    Shl(1, n) - 1
  }

  /** Go's `|`, `&`, `^` and `&^`. */
  datatype BitOp = Or | And | Xor | AndNot

  predicate Apply(op: BitOp, x: bool, y: bool) {
    match op
    case Or => x || y
    case And => x && y
    case Xor => x != y
    case AndNot => x && !y
  }

  function Bitwise(op: BitOp, a: nat, b: nat): nat
    decreases a + b
  {
    if a == 0 && b == 0 then 0
    else 2 * Bitwise(op, a / 2, b / 2) + if Apply(op, a % 2 == 1, b % 2 == 1) then 1 else 0
  }

  lemma {:induction false} ZeroBit(i: nat)
    ensures !BitAt(0, i)
  {
    if i > 0 {
      ZeroBit(i - 1);
    }
  }

  /** Every operator works bit by bit. */
  lemma {:induction false} BitwiseBit(op: BitOp, a: nat, b: nat, i: nat)
    ensures BitAt(Bitwise(op, a, b), i) == Apply(op, BitAt(a, i), BitAt(b, i))
    decreases i
  {
    if a == 0 && b == 0 {
      ZeroBit(i);
    } else {
      var rest, low := Bitwise(op, a / 2, b / 2), Apply(op, a % 2 == 1, b % 2 == 1);
      Halves(rest, low);
      if i > 0 {
        BitwiseBit(op, a / 2, b / 2, i - 1);
      }
    }
  }

  lemma Halves(rest: nat, low: bool)
    ensures var w := 2 * rest + if low then 1 else 0;
      w / 2 == rest && (w % 2 == 1) == low
  {
  }

  lemma {:induction false} BitwiseBound(op: BitOp, a: nat, b: nat, n: nat)
    requires a < Shl(1, n) && b < Shl(1, n)
    ensures Bitwise(op, a, b) < Shl(1, n)
  {
    if n > 0 {
      BitwiseBound(op, a / 2, b / 2, n - 1);
    }
  }

  lemma {:induction false} ShlBit(w: nat, n: nat, i: nat)
    ensures BitAt(Shl(w, n), i) == (i >= n && BitAt(w, i - n))
  {
    if n > 0 && i > 0 {
      ShlBit(w, n - 1, i - 1);
    }
  }

  lemma {:induction false} OnesBit(n: nat, i: nat)
    ensures BitAt(Ones(n), i) == (i < n)
  {
    if n == 0 {
      ZeroBit(i);
    } else {
      assert Ones(n) == 2 * Ones(n - 1) + 1;
      if i > 0 {
        OnesBit(n - 1, i - 1);
      }
    }
  }

  /** A shifted block of ones, `(1<<n - 1) << at`, holds exactly the bits at..at+n. */
  lemma BlockBit(n: nat, at: nat, i: nat)
    ensures BitAt(Shl(Ones(n), at), i) == (at <= i < at + n)
  {
    ShlBit(Ones(n), at, i);
    if i >= at {
      OnesBit(n, i - at);
    }
  }

  lemma {:induction false} HighBitsClear(w: nat, n: nat, i: nat)
    requires w < Shl(1, n) && n <= i
    ensures !BitAt(w, i)
  {
    if n == 0 {
      ZeroBit(i);
    } else {
      HighBitsClear(w / 2, n - 1, i - 1);
    }
  }

  lemma {:induction false} BoundFromBits(w: nat, n: nat)
    requires forall i: nat :: n <= i ==> !BitAt(w, i)
    ensures w < Shl(1, n)
    decreases n, w
  {
    if w > 0 {
      forall i: nat | (if n == 0 then 0 else n - 1) <= i
        ensures !BitAt(w / 2, i)
      {
        assert BitAt(w / 2, i) == BitAt(w, i + 1);
      }
      if n > 0 {
        BoundFromBits(w / 2, n - 1);
      } else {
        assert !BitAt(w, 0);
        BoundFromBits(w / 2, 0);
      }
    }
  }

  lemma {:induction false} ShlAdd(w: nat, m: nat, n: nat)
    ensures Shl(w, m + n) == Shl(Shl(w, m), n)
  {
    if n > 0 {
      ShlAdd(w, m, n - 1);
    }
  }

  lemma {:induction false} ShlMonotone(m: nat, n: nat)
    requires m <= n
    ensures Shl(1, m) <= Shl(1, n)
  {
    if m < n {
      ShlMonotone(m, n - 1);
    }
  }

  /** Words with the same bits are the same word. */
  lemma {:induction false} SameBits(a: nat, b: nat)
    requires forall i: nat :: BitAt(a, i) == BitAt(b, i)
    ensures a == b
    decreases a + b
  {
    if a + b > 0 {
      assert BitAt(a, 0) == BitAt(b, 0);
      forall i: nat
        ensures BitAt(a / 2, i) == BitAt(b / 2, i)
      {
        assert BitAt(a, i + 1) == BitAt(b, i + 1);
      }
      SameBits(a / 2, b / 2);
    }
  }

  // ----- quotients -----

  lemma DivUnique(n: nat, w: nat, q: nat, r: nat)
    requires w >= 1 && n == q * w + r && r < w
    ensures n / w == q && n % w == r
  {
    var a, b := n / w, n % w;
    assert n == a * w + b;
    assert (a - q) * w == a * w - q * w == r - b;
    ScaleBy(a - q, w);
  }

  lemma ScaleBy(k: int, w: nat)
    ensures k >= 1 ==> k * w >= w
    ensures k <= -1 ==> k * w + w <= 0
  {
  }
}
