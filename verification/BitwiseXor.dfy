/** Exclusive or of bytes kept as integers, and its algebra. */
module BitwiseXor {
  import opened IntBytes

  /** Bit by bit, from the lowest. */
  function Xor(a: nat, b: nat): nat
    decreases a + b
  {
    if a == 0 && b == 0 then 0 else 2 * Xor(a / 2, b / 2) + (a + b) % 2
  }

  function XorByte(a: byte, b: byte): byte {
    XorBelow(a, b, 8);
    Xor(a, b)
  }

  function Pow2(n: nat): nat { if n == 0 then 1 else 2 * Pow2(n - 1) }

  lemma {:induction false} XorBelow(a: nat, b: nat, n: nat)
    requires a < Pow2(n) && b < Pow2(n)
    ensures Xor(a, b) < Pow2(n)
    decreases n
  {
    if n > 0 { XorBelow(a / 2, b / 2, n - 1); }
  }

  lemma XorBits(a: nat, b: nat, x: nat)
    requires x == Xor(a, b)
    ensures x / 2 == Xor(a / 2, b / 2) && x % 2 == (a + b) % 2
  {
  }

  lemma {:induction false} XorCommutes(a: nat, b: nat)
    ensures Xor(a, b) == Xor(b, a)
    decreases a + b
  {
    if a + b > 0 { XorCommutes(a / 2, b / 2); }
  }

  lemma {:induction false} XorZero(a: nat)
    ensures Xor(a, 0) == a
  {
    if a > 0 { XorZero(a / 2); }
  }

  lemma SumParity(a: nat, b: nat, c: nat, x: nat, y: nat)
    requires x % 2 == (a + b) % 2 && y % 2 == (b + c) % 2
    ensures (x + c) % 2 == (a + y) % 2
  {
  }

  lemma {:induction false} XorAssociatesNamed(a: nat, b: nat, c: nat, x: nat, y: nat, l: nat, r: nat)
    requires x == Xor(a, b) && y == Xor(b, c) && l == Xor(x, c) && r == Xor(a, y)
    ensures l == r
    decreases a + b + c
  {
    if a + b + c > 0 {
      XorBits(a, b, x);
      XorBits(b, c, y);
      XorBits(x, c, l);
      XorBits(a, y, r);
      XorAssociatesNamed(a / 2, b / 2, c / 2, x / 2, y / 2, l / 2, r / 2);
      SumParity(a, b, c, x, y);
    }
  }

  lemma XorAssociates(a: byte, b: byte, c: byte)
    ensures XorByte(XorByte(a, b), c) == XorByte(a, XorByte(b, c))
  {
    XorAssociatesNamed(a, b, c, Xor(a, b), Xor(b, c), Xor(Xor(a, b), c), Xor(a, Xor(b, c)));
  }

  function Shl(v: nat, k: nat): nat
    decreases k
  {
    if k == 0 then v else 2 * Shl(v, k - 1)
  }

  /** Exclusive or works on the low and the high part of a number separately. */
  lemma {:induction false} XorParts(a: nat, m: nat, b: nat, n: nat, k: nat)
    requires a < Pow2(k) && b < Pow2(k)
    ensures Xor(a + Shl(m, k), b + Shl(n, k)) == Xor(a, b) + Shl(Xor(m, n), k)
    decreases k
  {
    hide Xor;
    if k > 0 {
      var x, y := Shl(m, k - 1), Shl(n, k - 1);
      XorParts(a / 2, m, b / 2, n, k - 1);
      XorBits(a, b, Xor(a, b));
      XorHalves(a, b, x, y);
    } else {
      XorZero(0);
    }
  }

  lemma XorHalves(a: nat, b: nat, x: nat, y: nat)
    ensures Xor(a + 2 * x, b + 2 * y) == 2 * Xor(a / 2 + x, b / 2 + y) + (a + b) % 2
  {
    var p, q := a + 2 * x, b + 2 * y;
    XorBits(p, q, Xor(p, q));
    hide Xor;
    assert p / 2 == a / 2 + x && q / 2 == b / 2 + y && (p + q) % 2 == (a + b) % 2;
  }

  lemma FlipLowest(m: nat)
    ensures Xor(m, 1) == if m % 2 == 1 then m - 1 else m + 1
  {
    XorBits(m, 1, Xor(m, 1));
    XorZero(m / 2);
  }

  /** Exclusive or with one bit turns that bit over. */
  lemma FlipBit(lo: nat, m: nat, k: nat)
    requires lo < Pow2(k)
    ensures Xor(lo + Shl(m, k), Shl(1, k)) == lo + Shl(if m % 2 == 1 then m - 1 else m + 1, k)
  {
    hide Xor, Shl;
    assert Pow2(k) > 0;
    XorParts(lo, m, 0, 1, k);
    XorZero(lo);
    FlipLowest(m);
  }

  /** The same, said with quotient and remainder. */
  function Flipped(x: nat, p: nat): nat
    requires p > 0
  {
    if x / p % 2 == 1 then x - p else x + p
  }

  lemma {:induction false} ShlIsProduct(v: nat, k: nat)
    ensures Shl(v, k) == Pow2(k) * v && Pow2(k) > 0
    decreases k
  {
    if k > 0 { ShlIsProduct(v, k - 1); }
  }

  lemma XorFlips(x: nat, k: nat)
    ensures Pow2(k) > 0 && Xor(x, Pow2(k)) == Flipped(x, Pow2(k))
  {
    hide Xor, Shl, Pow2;
    ShlIsProduct(1, k);
    var p := Pow2(k);
    var lo, m := x % p, x / p;
    var n := if m % 2 == 1 then m - 1 else m + 1;
    ShlIsProduct(m, k);
    ShlIsProduct(n, k);
    FlipBit(lo, m, k);
    OneMore(p, m, x);
  }

  lemma OneMore(p: nat, m: nat, x: nat)
    requires p > 0 && m == x / p
    ensures x == p * m + x % p && p * (m + 1) == p * m + p && p * (m - 1) == p * m - p
    ensures m % 2 == 1 ==> x >= p
  {
  }
}
