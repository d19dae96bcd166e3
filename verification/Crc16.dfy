/** The Modbus CRC-16 of util/crc16.h, and the errors it cannot miss.  Registers and messages are kept as
  integers, lowest bit first sent, so that a whole message is one number. */
module Crc16 {
  import opened BitwiseXor
  import opened IntBytes

  // ---------------------------------------------------------------- the register

  const Poly := 0xA001
  const Initial := 0xFFFF

  type word = x: int | 0 <= x < 65536

  /** One turn of the loop: shift right, and fold the bit that fell out back in. */
  function BitStep(c: nat): nat { if c % 2 == 1 then Xor(c / 2, Poly) else c / 2 }

  function Steps(c: nat, n: nat): nat
    decreases n
  {
    if n == 0 then c else Steps(BitStep(c), n - 1)
  }

  lemma BitStepBelow(c: nat)
    requires c < 65536
    ensures BitStep(c) < 65536
  {
    SixteenBits();
    XorBelow(c / 2, Poly, 16);
  }

  lemma SixteenBits()
    ensures Pow2(8) == 256 && Pow2(16) == 65536
  {
    assert Pow2(4) == 16;
    assert Pow2(8) == 2 * Pow2(7) == 4 * Pow2(6) == 8 * Pow2(5) == 16 * Pow2(4);
    assert Pow2(12) == 2 * Pow2(11) == 4 * Pow2(10) == 8 * Pow2(9) == 16 * Pow2(8);
    assert Pow2(16) == 2 * Pow2(15) == 4 * Pow2(14) == 8 * Pow2(13) == 16 * Pow2(12);
  }

  lemma {:induction false} StepsBelow(c: nat, n: nat)
    requires c < 65536
    ensures Steps(c, n) < 65536
    decreases n
  {
    if n > 0 {
      BitStepBelow(c);
      StepsBelow(BitStep(c), n - 1);
    }
  }

  lemma XorWordBelow(a: word, b: word)
    ensures Xor(a, b) < 65536
  {
    SixteenBits();
    XorBelow(a, b, 16);
  }

  function Update(crc: word, a: byte): word {
    XorWordBelow(crc, a);
    StepsBelow(Xor(crc, a), 8);
    Steps(Xor(crc, a), 8)
  }

  /** crc16_update */
  method Crc16Update(crc0: word, a: byte) returns (crc: word)
    ensures crc == Update(crc0, a)
  {
    hide Xor;
    XorWordBelow(crc0, a);
    crc := Xor(crc0, a);
    for i := 0 to 8
      invariant Steps(crc, 8 - i) == Update(crc0, a)
    {
      BitStepBelow(crc);
      if crc % 2 == 1 {
        crc := Xor(crc / 2, Poly);
      } else {
        crc := crc / 2;
      }
    }
  }

  /** The running CRC over a message. */
  function Crc(c: word, msg: seq<byte>): word
    decreases |msg|
  {
    if msg == [] then c else Crc(Update(c, msg[0]), msg[1..])
  }

  function LowByte(c: word): byte { c % 256 }

  function HighByte(c: word): byte { c / 256 }

  // ---------------------------------------------------------------- algebra of exclusive or

  lemma Assoc(a: nat, b: nat, c: nat)
    ensures Xor(Xor(a, b), c) == Xor(a, Xor(b, c))
  {
    XorAssociatesNamed(a, b, c, Xor(a, b), Xor(b, c), Xor(Xor(a, b), c), Xor(a, Xor(b, c)));
  }

  lemma {:induction false} SelfInverse(a: nat)
    ensures Xor(a, a) == 0
  {
    if a > 0 { SelfInverse(a / 2); }
  }

  lemma {:induction false} ZeroOnlyIfEqual(a: nat, b: nat)
    requires Xor(a, b) == 0
    ensures a == b
    decreases a + b
  {
    if a + b > 0 {
      XorBits(a, b, 0);
      ZeroOnlyIfEqual(a / 2, b / 2);
    }
  }

  /** The middle two of four operands change places. */
  lemma Exchange(a: nat, b: nat, c: nat, d: nat)
    ensures Xor(Xor(a, b), Xor(c, d)) == Xor(Xor(a, c), Xor(b, d))
  {
    hide Xor;
    Assoc(a, b, Xor(c, d));
    Assoc(b, c, d);
    XorCommutes(b, c);
    Assoc(c, b, d);
    Assoc(a, c, Xor(b, d));
  }

  /** The same operand on both sides cancels. */
  lemma Cancel(c: nat, a: nat, b: nat)
    ensures Xor(Xor(c, a), Xor(c, b)) == Xor(a, b)
  {
    hide Xor;
    Exchange(c, a, c, b);
    SelfInverse(c);
    XorCommutes(0, Xor(a, b));
    XorZero(Xor(a, b));
  }

  // ---------------------------------------------------------------- linearity

  lemma BitStepLinear(a: nat, b: nat)
    ensures BitStep(Xor(a, b)) == Xor(BitStep(a), BitStep(b))
  {
    hide Xor;
    var p, q := a / 2, b / 2;
    XorBits(a, b, Xor(a, b));
    Parities(a, b);
    XorZero(Poly);
    SelfInverse(Poly);
    if a % 2 == 1 && b % 2 == 1 {
      XorCommutes(p, Poly);
      XorCommutes(q, Poly);
      Cancel(Poly, p, q);
    } else if a % 2 == 1 {
      Assoc(p, Poly, q);
      XorCommutes(Poly, q);
      Assoc(p, q, Poly);
    } else if b % 2 == 1 {
      Assoc(p, q, Poly);
    }
  }

  lemma Parities(a: nat, b: nat)
    ensures (a + b) % 2 == if a % 2 == b % 2 then 0 else 1
  {
  }

  lemma {:induction false} StepsLinear(a: nat, b: nat, n: nat)
    ensures Steps(Xor(a, b), n) == Xor(Steps(a, n), Steps(b, n))
    decreases n
  {
    hide Xor, BitStep;
    if n > 0 {
      BitStepLinear(a, b);
      StepsLinear(BitStep(a), BitStep(b), n - 1);
    }
  }

  lemma BitStepNonzero(c: nat)
    requires 0 < c < 65536
    ensures 0 < BitStep(c) < 65536
  {
    hide Xor;
    BitStepBelow(c);
    if BitStep(c) == 0 && c % 2 == 1 { ZeroOnlyIfEqual(c / 2, Poly); }
  }

  /** The steps lose nothing: a register that is not zero never becomes zero. */
  lemma {:induction false} StepsNonzero(c: nat, n: nat)
    requires 0 < c < 65536
    ensures 0 < Steps(c, n) < 65536
    decreases n
  {
    hide BitStep;
    if n > 0 {
      BitStepNonzero(c);
      StepsNonzero(BitStep(c), n - 1);
    }
  }

  // ---------------------------------------------------------------- messages as numbers

  /** The message as one number, first byte lowest: the order in which its bits are sent. */
  function Num(msg: seq<byte>): nat { if msg == [] then 0 else msg[0] + Shl(Num(msg[1..]), 8) }

  /** Steps over zeros only shift. */
  lemma {:induction false} StepsShift(v: nat, k: nat, n: nat)
    requires k <= n
    ensures Steps(Shl(v, k), n) == Steps(v, n - k)
    decreases k
  {
    hide Xor;
    if k > 0 { StepsShift(v, k - 1, n - 1); }
  }

  lemma {:induction false} StepsAdd(c: nat, m: nat, n: nat)
    ensures Steps(c, m + n) == Steps(Steps(c, m), n)
    decreases m
  {
    hide BitStep;
    if m > 0 { StepsAdd(BitStep(c), m - 1, n); }
  }

  /** Eight steps take in the lowest byte of what is still to come. */
  lemma ByteAhead(c: word, a: byte, rest: nat)
    ensures Steps(Xor(c, a + Shl(rest, 8)), 8) == Xor(Update(c, a), rest)
  {
    hide Xor, Steps, Shl;
    SixteenBits();
    var high := Shl(rest, 8);
    XorParts(a, 0, 0, rest, 8);
    ShlZero(8);
    XorZero(a);
    XorCommutes(0, rest);
    XorZero(rest);
    Assoc(c, a, high);
    StepsLinear(Xor(c, a), high, 8);
    StepsShift(rest, 8, 8);
    NoSteps(rest);
  }

  lemma NoSteps(c: nat)
    ensures Steps(c, 0) == c
  {
  }

  lemma {:induction false} ShlZero(k: nat)
    ensures Shl(0, k) == 0
  {
    if k > 0 { ShlZero(k - 1); }
  }

  /** The running CRC is the register and the whole message, stepped once for every bit. */
  lemma {:induction false} CrcOfNumber(c: word, msg: seq<byte>)
    ensures Crc(c, msg) == Steps(Xor(c, Num(msg)), 8 * |msg|)
    decreases |msg|
  {
    hide Xor, Update, Shl;
    if msg == [] {
      XorZero(c);
      NoSteps(c);
    } else {
      var a, rest := msg[0], msg[1..];
      hide Steps;
      CrcOfNumber(Update(c, a), rest);
      ByteAhead(c, a, Num(rest));
      StepsAdd(Xor(c, Num(msg)), 8, 8 * |rest|);
    }
  }

  lemma {:induction false} CrcSplit(c: word, p: seq<byte>, q: seq<byte>)
    ensures Crc(c, p + q) == Crc(Crc(c, p), q)
    decreases |p|
  {
    hide Update;
    if p == [] {
      assert p + q == q;
    } else {
      assert (p + q)[1..] == p[1..] + q;
      CrcSplit(Update(c, p[0]), p[1..], q);
    }
  }

  // ---------------------------------------------------------------- detected errors

  /** The bits in which two messages differ, as one number. */
  function Difference(m: seq<byte>, m': seq<byte>): nat { Xor(Num(m), Num(m')) }

  lemma {:induction false} NumBelow(msg: seq<byte>)
    ensures Num(msg) < Pow2(8 * |msg|)
  {
    if msg != [] {
      NumBelow(msg[1..]);
      ShlBelow(msg[0], Num(msg[1..]), 8, 8 * |msg[1..]|);
    }
  }

  lemma {:induction false} ShlBelow(a: nat, v: nat, k: nat, n: nat)
    requires a < Pow2(k) && v < Pow2(n)
    ensures a + Shl(v, k) < Pow2(k + n)
    decreases k
  {
    if k > 0 { ShlBelow(a / 2, v, k - 1, n); }
  }

  lemma {:induction false} ShlAtLeast(b: nat, k: nat, n: nat)
    requires 0 < b && Shl(b, k) < Pow2(n)
    ensures k <= n
    decreases k
  {
    if k > 0 {
      assert Shl(b, k) == 2 * Shl(b, k - 1);
      ShlPositive(b, k - 1);
      if n > 0 { ShlAtLeast(b, k - 1, n - 1); }
    }
  }

  lemma {:induction false} ShlPositive(b: nat, k: nat)
    requires b > 0
    ensures Shl(b, k) > 0
  {
    if k > 0 { ShlPositive(b, k - 1); }
  }

  /** The two CRCs differ by the steps over the difference of the messages. */
  lemma CrcDifference(c: word, m: seq<byte>, m': seq<byte>)
    requires |m| == |m'|
    ensures Xor(Crc(c, m), Crc(c, m')) == Steps(Difference(m, m'), 8 * |m|)
  {
    hide Xor, Steps, Crc, Num;
    CrcOfNumber(c, m);
    CrcOfNumber(c, m');
    StepsLinear(Xor(c, Num(m)), Xor(c, Num(m')), 8 * |m|);
    Cancel(c, Num(m), Num(m'));
  }

  /** Any burst of errors within sixteen bits, wherever it falls, changes the CRC. */
  lemma BurstDetected(c: word, m: seq<byte>, m': seq<byte>, burst: nat, k: nat)
    requires |m| == |m'| && 0 < burst < 65536 && Difference(m, m') == Shl(burst, k)
    ensures Crc(c, m) != Crc(c, m')
  {
    hide Xor, Steps, Crc, Num, Shl;
    NumBelow(m);
    NumBelow(m');
    XorBelow(Num(m), Num(m'), 8 * |m|);
    ShlAtLeast(burst, k, 8 * |m|);
    CrcDifference(c, m, m');
    StepsShift(burst, k, 8 * |m|);
    StepsNonzero(burst, 8 * |m| - k);
    SelfInverse(Crc(c, m));
  }

  /** Different registers stay different over the same bytes. */
  lemma SameSuffix(a: word, b: word, msg: seq<byte>)
    requires a != b
    ensures Crc(a, msg) != Crc(b, msg)
  {
    hide Xor, Steps, Crc, Num;
    var n := 8 * |msg|;
    CrcOfNumber(a, msg);
    CrcOfNumber(b, msg);
    StepsLinear(Xor(a, Num(msg)), Xor(b, Num(msg)), n);
    XorCommutes(a, Num(msg));
    XorCommutes(b, Num(msg));
    Cancel(Num(msg), a, b);
    if Xor(a, b) == 0 { ZeroOnlyIfEqual(a, b); }
    XorWordBelow(a, b);
    StepsNonzero(Xor(a, b), n);
    SelfInverse(Crc(a, msg));
  }

  lemma {:induction false} NumInjective(m: seq<byte>, m': seq<byte>)
    requires |m| == |m'| && Num(m) == Num(m')
    ensures m == m'
    decreases |m|
  {
    if m != [] {
      ShlEight(Num(m[1..]));
      ShlEight(Num(m'[1..]));
      NumInjective(m[1..], m'[1..]);
      assert m == [m[0]] + m[1..] && m' == [m'[0]] + m'[1..];
    }
  }

  lemma ShlEight(v: nat)
    ensures Shl(v, 8) == 256 * v
  {
    assert Shl(v, 4) == 16 * v;
    assert Shl(v, 8) == 2 * Shl(v, 7) == 4 * Shl(v, 6) == 8 * Shl(v, 5) == 16 * Shl(v, 4);
  }

  /** Two messages of the same length that differ only within two adjacent bytes have different CRCs. */
  lemma AdjacentBytesDetected(c: word, p: seq<byte>, x: seq<byte>, x': seq<byte>, s: seq<byte>)
    requires |x| == |x'| <= 2 && x != x'
    ensures Crc(c, p + x + s) != Crc(c, p + x' + s)
  {
    hide Xor, Crc, Num;
    CrcSplit(c, p + x, s);
    CrcSplit(c, p + x', s);
    CrcSplit(c, p, x);
    CrcSplit(c, p, x');
    var d := Difference(x, x');
    if d == 0 {
      ZeroOnlyIfEqual(Num(x), Num(x'));
      NumInjective(x, x');
    }
    TwoBytesBelow(x);
    TwoBytesBelow(x');
    XorWordBelow(Num(x), Num(x'));
    assert Shl(d, 0) == d;
    BurstDetected(Crc(c, p), x, x', d, 0);
    SameSuffix(Crc(c, p + x), Crc(c, p + x'), s);
  }

  lemma TwoBytesBelow(x: seq<byte>)
    requires |x| <= 2
    ensures Num(x) < 65536
  {
    if |x| > 0 { ShlEight(Num(x[1..])); }
    if |x| > 1 { ShlEight(Num(x[1..][1..])); }
  }

  // ---------------------------------------------------------------- parity

  /** The number of one bits. */
  function Ones(v: nat): nat { if v == 0 then 0 else v % 2 + Ones(v / 2) }

  lemma {:induction false} OnesOfXor(a: nat, b: nat)
    ensures Ones(Xor(a, b)) % 2 == (Ones(a) + Ones(b)) % 2
    decreases a + b
  {
    hide Xor, Ones;
    if a + b > 0 {
      var x := Xor(a, b);
      XorBits(a, b, x);
      OnesOfXor(a / 2, b / 2);
      OnesHalf(x);
      OnesHalf(a);
      OnesHalf(b);
      SameParity(a, b, x, Ones(a / 2), Ones(b / 2), Ones(x / 2));
    } else {
      XorZero(0);
      OnesOfZero();
    }
  }

  lemma SameParity(a: nat, b: nat, x: nat, p: nat, q: nat, y: nat)
    requires x % 2 == (a + b) % 2 && y % 2 == (p + q) % 2
    ensures (x % 2 + y) % 2 == (a % 2 + p + (b % 2 + q)) % 2
  {
  }

  lemma OnesHalf(v: nat)
    ensures Ones(v) == v % 2 + Ones(v / 2)
  {
  }

  lemma OnesOfPoly()
    ensures Ones(Poly) == 3
  {
    hide Ones, Shl;
    OnesHalf(0xA001);
    SixteenBits();
    ShlEight(80);
    OnesOfParts(0, 80, 8);
    OnesHalf(80); OnesHalf(40); OnesHalf(20); OnesHalf(10); OnesHalf(5); OnesHalf(2); OnesHalf(1);
    OnesOfZero();
  }

  lemma {:induction false} StepsKeepParity(c: nat, n: nat)
    ensures Ones(Steps(c, n)) % 2 == Ones(c) % 2
    decreases n
  {
    hide Xor, Ones;
    if n > 0 {
      OnesHalf(c);
      OnesOfPoly();
      OnesOfXor(c / 2, Poly);
      StepsKeepParity(BitStep(c), n - 1);
    }
  }

  /** The number of bits in which two messages differ. */
  function BitErrors(m: seq<byte>, m': seq<byte>): nat
    requires |m| == |m'|
  {
    if m == [] then 0 else Ones(XorByte(m[0], m'[0])) + BitErrors(m[1..], m'[1..])
  }

  lemma {:induction false} OnesOfParts(a: nat, v: nat, k: nat)
    requires a < Pow2(k)
    ensures Ones(a + Shl(v, k)) == Ones(a) + Ones(v)
    decreases k
  {
    hide Ones;
    if k > 0 {
      var x := Shl(v, k - 1);
      OnesOfParts(a / 2, v, k - 1);
      assert (a + 2 * x) / 2 == a / 2 + x && (a + 2 * x) % 2 == a % 2;
      OnesHalf(a + 2 * x);
      OnesHalf(a);
    } else {
      OnesOfZero();
    }
  }

  lemma {:induction false} OnesOfDifference(m: seq<byte>, m': seq<byte>)
    requires |m| == |m'|
    ensures Ones(Difference(m, m')) == BitErrors(m, m')
    decreases |m|
  {
    hide Ones, Shl;
    if m == [] {
      SelfInverse(0);
      assert Ones(0) == 0 by { OnesOfZero(); }
    } else {
      hide Xor;
      SixteenBits();
      XorParts(m[0], Num(m[1..]), m'[0], Num(m'[1..]), 8);
      XorBelow(m[0], m'[0], 8);
      OnesOfParts(Xor(m[0], m'[0]), Xor(Num(m[1..]), Num(m'[1..])), 8);
      OnesOfDifference(m[1..], m'[1..]);
    }
  }

  lemma OnesOfZero()
    ensures Ones(0) == 0
  {
  }

  /** Any odd number of bit errors changes the CRC. */
  lemma OddErrorsDetected(c: word, m: seq<byte>, m': seq<byte>)
    requires |m| == |m'| && BitErrors(m, m') % 2 == 1
    ensures Crc(c, m) != Crc(c, m')
  {
    hide Xor, Steps, Crc, Num, Ones, BitErrors, Difference;
    CrcDifference(c, m, m');
    OnesOfDifference(m, m');
    StepsKeepParity(Difference(m, m'), 8 * |m|);
    SelfInverse(Crc(c, m));
    OnesOfZero();
  }

  // ---------------------------------------------------------------- the check at the receiver

  /** A message followed by two bytes has CRC zero exactly when they are its CRC, low byte first. */
  lemma AppendedCrc(c: word, m: seq<byte>, low: byte, high: byte)
    ensures Crc(c, m + [low, high]) == 0 <==> low == LowByte(Crc(c, m)) && high == HighByte(Crc(c, m))
  {
    hide Xor, Steps, Crc;
    var r, v := Crc(c, m), Num([low, high]);
    CrcSplit(c, m, [low, high]);
    CrcOfNumber(r, [low, high]);
    NumOfTwo(low, high);
    XorWordBelow(r, v);
    if r == v {
      SelfInverse(r);
      ZeroStaysZero(16);
    } else {
      if Xor(r, v) == 0 { ZeroOnlyIfEqual(r, v); }
      StepsNonzero(Xor(r, v), 16);
    }
  }

  lemma NumOfTwo(low: byte, high: byte)
    ensures Num([low, high]) == low + 256 * high
  {
    assert [low, high][1..] == [high] && [high][1..] == [];
    ShlEight(high);
    ShlZero(8);
    assert Num([]) == 0;
    assert Num([high]) == high + Shl(Num([]), 8);
    assert Num([low, high]) == low + Shl(Num([high]), 8);
  }

  lemma {:induction false} ZeroStaysZero(n: nat)
    ensures Steps(0, n) == 0
  {
    if n > 0 { ZeroStaysZero(n - 1); }
  }

  // ---------------------------------------------------------------- an example

  /** The bit step with the generator's three bits turned over one by one. */
  function ShiftedStep(c: nat): nat {
    if c % 2 == 1 then Flipped(Flipped(Flipped(c / 2, 1), 0x2000), 0x8000) else c / 2
  }

  lemma PowersOfPoly()
    ensures Pow2(0) == 1 && Pow2(13) == 0x2000 && Pow2(15) == 0x8000
  {
    SixteenBits();
    assert Pow2(12) == 2 * Pow2(11) == 4 * Pow2(10) == 8 * Pow2(9) == 16 * Pow2(8);
    assert Pow2(16) == 2 * Pow2(15) && Pow2(13) == 2 * Pow2(12);
  }

  lemma ShiftedStepIs(c: nat)
    ensures BitStep(c) == ShiftedStep(c)
  {
    hide Xor;
    PowersOfPoly();
    var x := c / 2;
    XorFlips(x, 0);
    XorFlips(Flipped(x, 1), 13);
    XorFlips(Flipped(Flipped(x, 1), 0x2000), 15);
    XorFlips(1, 13);
    XorFlips(0x2001, 15);
    Assoc(Xor(x, 1), 0x2000, 0x8000);
    Assoc(x, 1, Xor(0x2000, 0x8000));
    Assoc(1, 0x2000, 0x8000);
  }

  /** One byte: `r` is the register with its bits turned over, and the rest are the eight steps. */
  lemma ByteSteps(c: word, a: byte, r: nat, r1: nat, r2: nat, r3: nat, r4: nat, r5: nat, r6: nat, r7: nat, r8: nat)
    requires r == Xor(c, a) && r1 == ShiftedStep(r) && r2 == ShiftedStep(r1) && r3 == ShiftedStep(r2)
    requires r4 == ShiftedStep(r3) && r5 == ShiftedStep(r4) && r6 == ShiftedStep(r5) && r7 == ShiftedStep(r6)
    requires r8 == ShiftedStep(r7)
    ensures Update(c, a) == r8
  {
    hide Xor, ShiftedStep, BitStep;
    ShiftedStepIs(r);
    ShiftedStepIs(r1);
    ShiftedStepIs(r2);
    ShiftedStepIs(r3);
    ShiftedStepIs(r4);
    ShiftedStepIs(r5);
    ShiftedStepIs(r6);
    ShiftedStepIs(r7);
    assert Steps(r4, 4) == Steps(r5, 3) == Steps(r6, 2) == Steps(r7, 1) == Steps(r8, 0) == r8;
    assert Steps(r, 8) == Steps(r1, 7) == Steps(r2, 6) == Steps(r3, 5) == Steps(r4, 4);
  }

  /** Exclusive or with bytes of up to three bits. */
  lemma XorSmall(c: word)
    ensures Xor(c, 0) == c && Xor(c, 1) == Flipped(c, 1) && Xor(c, 3) == Flipped(Flipped(c, 1), 2)
    ensures Xor(c, 6) == Flipped(Flipped(c, 2), 4) && Xor(c, 14) == Flipped(Flipped(Flipped(c, 2), 4), 8)
  {
    hide Xor;
    assert Pow2(0) == 1 && Pow2(1) == 2 && Pow2(2) == 4 && Pow2(3) == 8;
    XorZero(c);
    XorFlips(c, 0);
    XorFlips(c, 1);
    XorFlips(1, 1);
    XorFlips(2, 2);
    XorFlips(6, 3);
    XorFlips(Flipped(c, 1), 1);
    XorFlips(Flipped(c, 2), 2);
    XorFlips(Flipped(Flipped(c, 2), 4), 3);
    Assoc(c, 1, 2);
    Assoc(c, 2, 4);
    Assoc(c, 6, 8);
  }

  // the register after each byte of 01 03 00 0E 00 06

  lemma FirstByte()
    ensures Update(0xFFFF, 0x01) == 0x807E
  {
    hide Xor, Update;
    XorSmall(0xFFFF);
    ByteSteps(0xFFFF, 0x01, 0xFFFE, 0x7FFF, 0x9FFE, 0x4FFF, 0x87FE, 0x43FF, 0x81FE, 0x40FF, 0x807E);
  }

  lemma SecondByte()
    ensures Update(0x807E, 0x03) == 0x2140
  {
    hide Xor, Update;
    XorSmall(0x807E);
    ByteSteps(0x807E, 0x03, 0x807D, 0xE03F, 0xD01E, 0x680F, 0x9406, 0x4A03, 0x8500, 0x4280, 0x2140);
  }

  lemma ThirdByte()
    ensures Update(0x2140, 0x00) == 0xF020
  {
    hide Xor, Update;
    XorSmall(0x2140);
    ByteSteps(0x2140, 0x00, 0x2140, 0x10A0, 0x0850, 0x0428, 0x0214, 0x010A, 0x0085, 0xA043, 0xF020);
  }

  lemma FourthByte()
    ensures Update(0xF020, 0x0E) == 0x1C70
  {
    hide Xor, Update;
    XorSmall(0xF020);
    ByteSteps(0xF020, 0x0E, 0xF02E, 0x7817, 0x9C0A, 0x4E05, 0x8703, 0xE380, 0x71C0, 0x38E0, 0x1C70);
  }

  lemma FifthByte()
    ensures Update(0x1C70, 0x00) == 0xE41D
  {
    hide Xor, Update;
    XorSmall(0x1C70);
    ByteSteps(0x1C70, 0x00, 0x1C70, 0x0E38, 0x071C, 0x038E, 0x01C7, 0xA0E2, 0x5071, 0x8839, 0xE41D);
  }

  lemma SixthByte()
    ensures Update(0xE41D, 0x06) == 0x0BA4
  {
    hide Xor, Update;
    XorSmall(0xE41D);
    ByteSteps(0xE41D, 0x06, 0xE41B, 0xD20C, 0x6906, 0x3483, 0xBA40, 0x5D20, 0x2E90, 0x1748, 0x0BA4);
  }

  /** The CRC of 01 03 00 0E 00 06: the bytes A4 0B follow on the wire. */
  lemma CrcExample()
    ensures Crc(0xFFFF, [0x01, 0x03, 0x00, 0x0E, 0x00, 0x06]) == 0x0BA4
  {
    hide Xor, Update, Crc;
    FirstByte();
    CrcMore(0xFFFF, 0x01, [0x03, 0x00, 0x0E, 0x00, 0x06]);
    SecondByte();
    CrcMore(0x807E, 0x03, [0x00, 0x0E, 0x00, 0x06]);
    ThirdByte();
    CrcMore(0x2140, 0x00, [0x0E, 0x00, 0x06]);
    FourthByte();
    CrcMore(0xF020, 0x0E, [0x00, 0x06]);
    FifthByte();
    CrcMore(0x1C70, 0x00, [0x06]);
    SixthByte();
    CrcMore(0xE41D, 0x06, []);
    CrcNothing(0x0BA4);
    assert [0x01] + [0x03, 0x00, 0x0E, 0x00, 0x06] == [0x01, 0x03, 0x00, 0x0E, 0x00, 0x06];
    assert [0x03] + [0x00, 0x0E, 0x00, 0x06] == [0x03, 0x00, 0x0E, 0x00, 0x06];
    assert [0x00] + [0x0E, 0x00, 0x06] == [0x00, 0x0E, 0x00, 0x06];
    assert [0x0E] + [0x00, 0x06] == [0x0E, 0x00, 0x06];
    assert [0x00] + [0x06] == [0x00, 0x06];
    assert [0x06] + [] == [0x06];
  }

  lemma CrcMore(c: word, a: byte, rest: seq<byte>)
    ensures Crc(c, [a] + rest) == Crc(Update(c, a), rest)
  {
    assert ([a] + rest)[1..] == rest;
  }

  lemma CrcNothing(c: word)
    ensures Crc(c, []) == c
  {
  }
}
