/** The SPI clock calculators of esp32-hal-spi.c: choosing the divider register for a frequency. */
module SpiClock {
  import opened Arithmetic

  const MaxN := 63       // regN has six bits
  const MaxPre := 8191   // regPre has thirteen bits

  /** The clock register, field by field. */
  datatype SpiClk = SpiClk(regL: nat, regH: nat, regN: nat, regPre: nat, regEQU: nat) {
    predicate Fits() { regL < 64 && regH < 64 && regN < 64 && regPre < 8192 && regEQU < 2 }

    /** Bits 0-5, 6-11, 12-17, 18-30 and 31 of the register word. */
    function RegValue(): nat {
      regL + 0x40 * regH + 0x1000 * regN + 0x4_0000 * regPre + 0x8000_0000 * regEQU
    }
  }

  function Decode(v: nat): SpiClk {
    SpiClk(v % 0x40, v / 0x40 % 0x40, v / 0x1000 % 0x40, v / 0x4_0000 % 0x2000, v / 0x8000_0000 % 2)
  }

  /** Writing a register word and reading its fields back. */
  lemma DecodeRegValue(r: SpiClk)
    requires r.Fits()
    ensures Decode(r.RegValue()) == r && r.RegValue() < 0x1_0000_0000
  {
    var v := r.RegValue();
    var v1 := r.regH + 0x40 * r.regN + 0x1000 * r.regPre + 0x200_0000 * r.regEQU;
    var v2 := r.regN + 0x40 * r.regPre + 0x8_0000 * r.regEQU;
    var v3 := r.regPre + 0x2000 * r.regEQU;
    DivModUnique(v, 0x40, v1, r.regL);
    DivModUnique(v1, 0x40, v2, r.regH);
    DivModUnique(v2, 0x40, v3, r.regN);
    DivModUnique(v3, 0x2000, r.regEQU, r.regPre);
    DivModUnique(v, 0x1000, v2, r.regL + 0x40 * r.regH);
    DivModUnique(v, 0x4_0000, v3, r.regL + 0x40 * r.regH + 0x1000 * r.regN);
    DivModUnique(v, 0x8000_0000, r.regEQU, r.regL + 0x40 * r.regH + 0x1000 * r.regN + 0x4_0000 * r.regPre);
  }

  const MinFreqReg := 0x7FFFF000
  const ClkEquSysclk := 0x8000_0000

  /** The range of CPU_CLK_FREQ for which the search below is exact: the lowest divided frequency is
      at least 1, and frequencies fit a signed 32-bit integer. */
  predicate ClockOk(C: nat) { 0x8_0000 <= C < 0x8000_0000 }

  /** ClkRegToFreq. */
  function Freq(C: nat, n: nat, pre: nat): nat { C / ((pre + 1) * (n + 1)) }

  /** spiClockDivToFrequency. */
  function ClockDivToFrequency(C: nat, clockDiv: nat): nat {
    Freq(C, Decode(clockDiv).regN, Decode(clockDiv).regPre)
  }

  // ---------------------------------------------------------------- one divider N

  /** Dividing by a product is dividing twice. */
  lemma DivDiv(C: nat, a: nat, b: nat)
    requires a > 0 && b > 0
    ensures a * b > 0 && C / (a * b) == C / a / b
  {
    var d, r := C / a, C % a;
    var q, s := d / b, d % b;
    assert C == a * d + r && d == b * q + s;
    assert a * b > 0;
    assert C == a * (b * q + s) + r == (a * b) * q + (a * s + r) by {
      assert a * (b * q) == (a * b) * q;
    }
    assert a * s + r < a * b by {
      assert a * s <= a * (b - 1) by { MulMono(a, s, b - 1); }
      assert a * (b - 1) == a * b - a;
    }
    assert 0 <= a * s;
    DivModUnique(C, a * b, q, a * s + r);
  }

  /** `d / p <= f` exactly when `p` is large enough. */
  lemma DivAtMost(d: nat, p: nat, f: nat)
    requires p > 0
    ensures d / p <= f <==> d < (f + 1) * p
  {
    var q, r := d / p, d % p;
    assert d == p * q + r;
    if q <= f {
      MulMono(p, q + 1, f + 1);
      assert p * (q + 1) == p * q + p;
    } else {
      MulMono(p, f + 1, q);
    }
  }

  lemma DivAntitone(d: nat, p: nat, p': nat)
    requires 0 < p <= p'
    ensures d / p' <= d / p
  {
    DivAtMost(d, p, d / p);
    MulMono(d / p + 1, p, p');
    DivAtMost(d, p', d / p);
  }

  function Clamp(pre: int): (p: nat)
    ensures p <= MaxPre
  {
    if pre > MaxPre then MaxPre else if pre <= 0 then 0 else pre
  }

  /** The prescaler the search tries for divider `n` with variation `vari`. */
  function Candidate(C: nat, freq: nat, n: nat, vari: int): (p: nat)
    requires freq > 0
    ensures p <= MaxPre
  {
    Clamp(C / (n + 1) / freq - 1 + vari)
  }

  lemma FreqIsDivDiv(C: nat, n: nat, pre: nat)
    ensures Freq(C, n, pre) == C / (n + 1) / (pre + 1)
  {
    DivDiv(C, n + 1, pre + 1);
    assert (n + 1) * (pre + 1) == (pre + 1) * (n + 1);
  }

  /** A prescaler at or above the quotient is matched by variation 1. */
  lemma HighPrescaler(d: nat, freq: nat, p: nat)
    requires freq > 0 && p > d / freq
    ensures d / p <= d / (d / freq + 1) <= freq
  {
    var q := d / freq;
    DivAtMost(d, freq, q);
    DivAtMost(d, q + 1, freq);
    MulMono(q + 1, freq, freq + 1);
    DivAntitone(d, q + 1, p);
  }

  /** A prescaler below the quotient gives a frequency that is too high, or the wanted one itself. */
  lemma LowPrescaler(d: nat, freq: nat, p: nat, c: nat)
    requires freq > 0 && 0 < p <= c <= d / freq
    ensures d / p >= d / c >= freq
  {
    DivAntitone(d, p, c);
    DivAntitone(d, c, d / freq);
    QuotientBack(d, freq);
  }

  /** For one divider, the variations 0 and 1 are enough: whatever prescaler stays at or below the
      wanted frequency, one of these two does as well or better. */
  lemma TwoCandidatesSuffice(C: nat, freq: nat, n: nat, pre: nat)
    requires freq > 0 && pre <= MaxPre && Freq(C, n, pre) <= freq
    ensures exists v :: 0 <= v <= 1 && Freq(C, n, pre) <= Freq(C, n, Candidate(C, freq, n, v)) <= freq
  {
    var d := C / (n + 1);
    var c0, c1 := Candidate(C, freq, n, 0), Candidate(C, freq, n, 1);
    FreqIsDivDiv(C, n, pre);
    FreqIsDivDiv(C, n, c0);
    FreqIsDivDiv(C, n, c1);
    if pre + 1 > d / freq {
      HighPrescaler(d, freq, pre + 1);
      assert c1 == d / freq;
      assert Freq(C, n, pre) <= Freq(C, n, Candidate(C, freq, n, 1)) <= freq;
    } else {
      LowPrescaler(d, freq, pre + 1, c0 + 1);
      assert Freq(C, n, pre) <= Freq(C, n, Candidate(C, freq, n, 0)) <= freq;
    }
  }

  lemma QuotientBack(d: nat, f: nat)
    requires f > 0 && d / f > 0
    ensures d / (d / f) >= f
  {
    var q := d / f;
    assert d == f * q + d % f;
    if d / q <= f - 1 { DivAtMost(d, q, f - 1); }
  }

  /** The register 0x7FFFF000 divides as much as any. */
  lemma MinFreqIsLeast(C: nat, n: nat, pre: nat)
    requires n <= MaxN && pre <= MaxPre
    ensures Freq(C, MaxN, MaxPre) <= Freq(C, n, pre)
  {
    MulMono(pre + 1, n + 1, MaxN + 1);
    MulMono(MaxN + 1, pre + 1, MaxPre + 1);
    assert (pre + 1) * (MaxN + 1) == (MaxN + 1) * (pre + 1);
    assert 0 < (pre + 1) * (n + 1) by { MulMono(pre + 1, 1, n + 1); }
    DivAntitone(C, (pre + 1) * (n + 1), (MaxPre + 1) * (MaxN + 1));
  }

  /** From the lowest frequency up there is always a setting at or below the wanted one and above zero. */
  lemma SomeSetting(C: nat, freq: nat)
    requires ClockOk(C) && Freq(C, MaxN, MaxPre) <= freq
    ensures 0 < Freq(C, MaxN, MaxPre)
  {
  }

  /** Some divider below `n`, or of divider `n` some of the first variations, gives a frequency at most
      `freq`; `best` is the largest of these. */
  ghost predicate BestBelow(C: nat, freq: nat, n: nat, best: nat) {
    forall m, pre :: 1 <= m < n && 0 <= pre <= MaxPre && Freq(C, m, pre) <= freq ==> Freq(C, m, pre) <= best
  }

  lemma BestMonotone(C: nat, freq: nat, n: nat, best: nat, better: nat)
    requires BestBelow(C, freq, n, best) && best <= better
    ensures BestBelow(C, freq, n, better)
  {
  }

  lemma ClockIsLargest(C: nat)
    ensures Freq(C, 0, 0) == C
  {
  }

  lemma BestOfDivider(C: nat, freq: nat, n: nat, best: nat)
    requires freq > 0 && n >= 1 && BestBelow(C, freq, n, best)
    requires forall v :: 0 <= v <= 1 && Freq(C, n, Candidate(C, freq, n, v)) <= freq ==>
             Freq(C, n, Candidate(C, freq, n, v)) <= best
    ensures BestBelow(C, freq, n + 1, best)
  {
    forall m, pre | 1 <= m < n + 1 && 0 <= pre <= MaxPre && Freq(C, m, pre) <= freq ensures Freq(C, m, pre) <= best {
      if m == n { TwoCandidatesSuffice(C, freq, n, pre); }
    }
  }

  /** Half the divider high, the rest low, and the divided clock. */
  predicate Shaped(reg: SpiClk) { reg.regL == (reg.regN + 1) / 2 && reg.regH == 0 && reg.regEQU == 0 }

  /** The best setting so far: none yet, or one that decodes to `freq` exactly below the wanted frequency. */
  predicate Recorded(C: nat, wanted: nat, reg: SpiClk, freq: nat) {
    reg.Fits() && Shaped(reg) && freq <= wanted && (freq > 0 ==> reg.regN >= 1 && Freq(C, reg.regN, reg.regPre) == freq)
  }

  /** The inner loop: the variations -1, 0, 1, 2 of divider `calN`, stopping at an exact hit. */
  method TryVariations(C: nat, freq: nat, calN: nat, reg0: SpiClk, freq0: nat)
    returns (bestReg: SpiClk, bestFreq: nat, exact: bool)
    requires freq > 0 && 1 <= calN <= MaxN && Recorded(C, freq, reg0, freq0) && freq0 < freq
    ensures bestReg.Fits() && Shaped(bestReg) && (!exact ==> Recorded(C, freq, bestReg, bestFreq))
    ensures exact ==> bestReg.regN == calN && Freq(C, calN, bestReg.regPre) == freq
    ensures !exact ==> (bestReg, bestFreq) == (reg0, freq0) || (bestReg.regN == calN && freq0 < bestFreq)
    ensures !exact ==> freq0 <= bestFreq < freq
    ensures !exact ==> forall k :: 0 <= k <= 1 && Freq(C, calN, Candidate(C, freq, calN, k)) <= freq ==>
                         Freq(C, calN, Candidate(C, freq, calN, k)) <= bestFreq
  {
    bestReg, bestFreq := reg0, freq0;
    var calPreVari := -2;
    while calPreVari <= 1
      invariant -2 <= calPreVari <= 2
      invariant Recorded(C, freq, bestReg, bestFreq) && freq0 <= bestFreq < freq
      invariant (bestReg, bestFreq) == (reg0, freq0) || (bestReg.regN == calN && freq0 < bestFreq)
      invariant forall k :: -1 <= k <= calPreVari && Freq(C, calN, Candidate(C, freq, calN, k)) <= freq ==>
                  Freq(C, calN, Candidate(C, freq, calN, k)) <= bestFreq
    {
      calPreVari := calPreVari + 1;
      var reg := SpiClk((calN + 1) / 2, 0, calN, Candidate(C, freq, calN, calPreVari), 0);
      var calFreq := Freq(C, reg.regN, reg.regPre);
      if calFreq == freq {
        return reg, bestFreq, true;
      } else if calFreq < freq {
        if freq - calFreq < freq - bestFreq {
          bestFreq := calFreq;
          bestReg := reg;
        }
      }
    }
    exact := false;
  }

  /** The value is a setting's with a divider N from 1 up, at most `freq`, and no other of them comes closer from
      below. */
  ghost predicate Optimal(C: nat, freq: nat, got: nat) {
    && 0 < got <= freq && (exists n, pre :: 1 <= n <= MaxN && 0 <= pre <= MaxPre && Freq(C, n, pre) == got)
    && forall n, pre :: 1 <= n <= MaxN && 0 <= pre <= MaxPre && Freq(C, n, pre) <= freq ==> Freq(C, n, pre) <= got
  }

  /** A search over all dividers that found no exact hit has found something, namely the optimum. */
  lemma SearchIsOptimal(C: nat, freq: nat, reg: SpiClk, best: nat)
    requires ClockOk(C) && Freq(C, MaxN, MaxPre) <= freq && BestBelow(C, freq, MaxN + 1, best)
    requires Recorded(C, freq, reg, best)
    ensures Optimal(C, freq, best)
  {
    SomeSetting(C, freq);
    assert Freq(C, reg.regN, reg.regPre) == best;
  }

  /** No smaller divider, with any prescaler, gives `got`. */
  ghost predicate LeastN(C: nat, n: nat, got: nat) {
    forall m, pre :: 1 <= m < n && 0 <= pre <= MaxPre ==> Freq(C, m, pre) != got
  }

  lemma BestIsFirst(C: nat, freq: nat, n: nat, best: nat, got: nat)
    requires BestBelow(C, freq, n, best) && best < got <= freq
    ensures LeastN(C, n, got)
  {
  }

  /** The word that the search returns, field by field: bits 12 to 17 hold the least N, and bits 18 to 30 a prescaler,
      of a setting with the optimal frequency; bits 0 to 5 hold half of N + 1, bits 6 to 11 are clear, and so is
      bit 31, which would leave the clock undivided. */
  ghost predicate Chosen(C: nat, freq: nat, v: nat) {
    var n, pre := v / 0x1000 % 0x40, v / 0x4_0000;
    && v < 0x8000_0000 && v % 0x40 == (n + 1) / 2 && v / 0x40 % 0x40 == 0
    && n >= 1 && pre <= 8191 && Optimal(C, freq, Freq(C, n, pre)) && LeastN(C, n, Freq(C, n, pre))
  }

  lemma ShapedWord(C: nat, freq: nat, r: SpiClk)
    requires r.Fits() && Shaped(r) && r.regN >= 1
    requires Optimal(C, freq, Freq(C, r.regN, r.regPre)) && LeastN(C, r.regN, Freq(C, r.regN, r.regPre))
    ensures Chosen(C, freq, r.RegValue()) && ClockDivToFrequency(C, r.RegValue()) == Freq(C, r.regN, r.regPre)
  {
    hide Optimal, LeastN;
    DecodeRegValue(r);
    var v := r.RegValue();
    assert v < 0x8000_0000 && v / 0x4_0000 == r.regPre;
  }

  /** From 80 MHz, 1 MHz is N = 1 and prescaler 39: the word 0x009C1001. */
  lemma OneMegahertz(v: nat)
    requires Chosen(80_000_000, 1_000_000, v)
    ensures v == 0x009C_1001
  {
    hide LeastN, Optimal;
    var n, pre := v / 0x1000 % 0x40, v / 0x4_0000;
    var got := Freq(80_000_000, n, pre);
    assert Freq(80_000_000, 1, 39) == 1_000_000;
    assert got == 1_000_000 by { BestIsWanted(80_000_000, 1_000_000, got, 1, 39); }
    assert n == 1 by { if n > 1 { NotLeast(80_000_000, n, got, 1, 39); } }
    DivAtMost(80_000_000, (pre + 1) * 2, 1_000_000);
    DivAtMost(80_000_000, (pre + 1) * 2, 999_999);
    assert pre == 39;
    WordOfFields(v);
  }

  lemma BestIsWanted(C: nat, freq: nat, got: nat, n: nat, pre: nat)
    requires Optimal(C, freq, got) && 1 <= n <= MaxN && pre <= MaxPre && Freq(C, n, pre) == freq
    ensures got == freq
  {
  }

  lemma NotLeast(C: nat, n: nat, got: nat, m: nat, pre: nat)
    requires LeastN(C, n, got) && 1 <= m && pre <= MaxPre && Freq(C, m, pre) == got
    ensures n <= m
  {
  }

  lemma WordOfFields(v: nat)
    ensures v == v % 0x40 + 0x40 * (v / 0x40 % 0x40) + 0x1000 * (v / 0x1000 % 0x40) + 0x4_0000 * (v / 0x4_0000)
  {
    var a := v / 0x40;
    var b := a / 0x40;
    DivDiv(v, 0x40, 0x40);
    DivDiv(v, 0x1000, 0x40);
    assert v == 0x40 * a + v % 0x40 && a == 0x40 * b + a % 0x40 && b == 0x40 * (b / 0x40) + b % 0x40;
  }

  /** spiFrequencyToClockDiv: the register that decodes to the largest frequency at or below `freq` that
      any divider N in 1..63 and prescaler in 0..8191 can give. */
  method FrequencyToClockDiv(C: nat, freq: nat) returns (v: nat)
    requires ClockOk(C)
    ensures v < 0x1_0000_0000
    ensures freq >= C ==> v == 0x8000_0000 && ClockDivToFrequency(C, v) == C
    ensures freq < Freq(C, MaxN, MaxPre) ==> v == 0x7FFF_F000 && ClockDivToFrequency(C, v) == Freq(C, MaxN, MaxPre)
    ensures Freq(C, MaxN, MaxPre) <= freq < C ==> Chosen(C, freq, v) && Optimal(C, freq, ClockDivToFrequency(C, v))
  {
    if freq >= C {
      DecodeRegValue(SpiClk(0, 0, 0, 0, 1));
      ClockIsLargest(C);
      return ClkEquSysclk;
    }
    DecodeRegValue(SpiClk(0, 0, MaxN, MaxPre, 0));
    var minFreq := ClockDivToFrequency(C, MinFreqReg);
    if freq < minFreq { return MinFreqReg; }
    SomeSetting(C, freq);

    var calN: nat := 1;
    var bestReg := SpiClk(0, 0, 0, 0, 0);
    var bestFreq: nat, exact := 0, false;
    while calN <= MaxN
      invariant 1 <= calN <= MaxN + 1 && !exact
      invariant Recorded(C, freq, bestReg, bestFreq) && bestFreq < freq
      invariant BestBelow(C, freq, calN, bestFreq) && LeastN(C, bestReg.regN, bestFreq)
    {
      ghost var previous := bestFreq;
      bestReg, bestFreq, exact := TryVariations(C, freq, calN, bestReg, bestFreq);
      if exact {
        BestIsFirst(C, freq, calN, previous, freq);
        break;
      }
      if previous < bestFreq { BestIsFirst(C, freq, calN, previous, bestFreq); }
      BestMonotone(C, freq, calN, previous, bestFreq);
      BestOfDivider(C, freq, calN, bestFreq);
      calN := calN + 1;
    }
    v := bestReg.RegValue();
    if exact {
      assert Freq(C, bestReg.regN, bestReg.regPre) == freq;
      assert Optimal(C, freq, freq);
    } else {
      SearchIsOptimal(C, freq, bestReg, bestFreq);
    }
    ShapedWord(C, freq, bestReg);
  }

  // ---------------------------------------------------------------- the divider the search leaves out

  /** The smallest number that divides the clock to `freq` or below. */
  function LeastDivider(C: nat, freq: nat): (d: nat)
    ensures d > 0
  {
    C / (freq + 1) + 1
  }

  lemma LeastDividerIsLeast(C: nat, freq: nat, d: nat)
    requires d > 0
    ensures C / d <= freq <==> d >= LeastDivider(C, freq)
  {
    DivAtMost(C, d, freq);
    var q, r := C / (freq + 1), C % (freq + 1);
    assert C == (freq + 1) * q + r;
    if d > q {
      MulMono(freq + 1, q + 1, d);
      assert (freq + 1) * (q + 1) == (freq + 1) * q + (freq + 1);
    } else {
      MulMono(freq + 1, d, q);
    }
  }

  /** `d` is a divider of the search: it has a factor N + 1 from 2 to 64. */
  predicate Factors(d: nat, a: nat, b: nat) { 2 <= a <= MaxN + 1 && 1 <= b <= MaxPre + 1 && d == a * b }

  ghost predicate Reachable(d: nat) { exists a: nat, b: nat :: Factors(d, a, b) }

  /** No number from 2 to `a` divides `d`. */
  predicate NoFactor(d: nat, a: nat) { a < 2 || (d % a != 0 && NoFactor(d, a - 1)) }

  lemma {:induction false} NoFactorExactly(d: nat, a: nat)
    ensures NoFactor(d, a) <==> forall k :: 2 <= k <= a ==> d % k != 0
    decreases a
  {
    if a >= 2 { NoFactorExactly(d, a - 1); }
  }

  lemma ReachableBelow(C: nat, freq: nat, got: nat, d: nat)
    requires Optimal(C, freq, got) && d > 0 && Reachable(d) && C / d <= freq
    ensures C / d <= got
  {
    var a: nat, b: nat :| Factors(d, a, b);
    FactorsFreq(C, d, a, b);
  }

  lemma FactorsFreq(C: nat, d: nat, a: nat, b: nat)
    requires d > 0 && Factors(d, a, b)
    ensures Freq(C, a - 1, b - 1) == C / d
  {
    assert b * a == a * b;
  }

  /** Up to the largest prescaler, a divider is reachable exactly if some number from 2 to 64 divides it. */
  lemma ReachableExactly(d: nat)
    requires 0 < d <= MaxPre + 1
    ensures Reachable(d) <==> !NoFactor(d, MaxN + 1)
  {
    hide NoFactor;
    NoFactorExactly(d, MaxN + 1);
    if Reachable(d) {
      var a: nat, b: nat :| Factors(d, a, b);
      DivModUnique(d, a, b, 0);
    }
    forall a: nat | 2 <= a <= MaxN + 1 && d % a == 0 ensures Reachable(d) { FactorReachable(d, a); }
  }

  lemma FactorReachable(d: nat, a: nat)
    requires 0 < d <= MaxPre + 1 && 2 <= a <= MaxN + 1 && d % a == 0
    ensures Reachable(d)
  {
    var b := d / a;
    assert d == a * b;
    assert b > 0;
    MulMono(b, 1, a);
    assert b * a == a * b;
    assert Factors(d, a, b);
  }

  /** Only a setting with N = 0 divides the clock by `d`, and no other divider gives the same frequency. */
  predicate OnlyUndivided(C: nat, d: nat)
    requires d > 0
  {
    d <= MaxPre + 1 && NoFactor(d, MaxN + 1) && C / (d + 1) < C / d
  }

  /** A setting with N = 0, which the search does not try, comes closer than what it finds exactly if the least
      divider for the frequency is a prescaler, has no factor from 2 to 64, and gives another frequency than the
      divider after it. */
  lemma UndividedCloserExactly(C: nat, freq: nat, got: nat)
    requires ClockOk(C) && Freq(C, MaxN, MaxPre) <= freq < C && Optimal(C, freq, got)
    ensures (exists pre :: 0 <= pre <= MaxPre && got < Freq(C, 0, pre) <= freq)
       <==> OnlyUndivided(C, LeastDivider(C, freq))
  {
    hide NoFactor;
    var d := LeastDivider(C, freq);
    LeastDividerIsLeast(C, freq, d);
    if d <= MaxPre + 1 { ReachableExactly(d); }
    if OnlyUndivided(C, d) {
      var n, pre :| 1 <= n <= MaxN && 0 <= pre <= MaxPre && Freq(C, n, pre) == got;
      OtherDivider(C, freq, d, n, pre);
      assert got < Freq(C, 0, d - 1) <= freq;
    }
    forall pre | 0 <= pre <= MaxPre && got < Freq(C, 0, pre) <= freq ensures OnlyUndivided(C, d) {
      LeastDividerIsLeast(C, freq, pre + 1);
      DivAntitone(C, d, pre + 1);
      if Reachable(d) { ReachableBelow(C, freq, got, d); }
      if C / (d + 1) >= C / d { NeighbourReachable(C, freq, got, d); }
    }
  }

  lemma ProductReachable(n: nat, pre: nat)
    requires 1 <= n <= MaxN && pre <= MaxPre
    ensures (pre + 1) * (n + 1) > 0 && Reachable((pre + 1) * (n + 1))
  {
    assert (pre + 1) * (n + 1) == (n + 1) * (pre + 1);
    MulMono(pre + 1, 1, n + 1);
    assert Factors((pre + 1) * (n + 1), n + 1, pre + 1);
  }

  lemma OtherDivider(C: nat, freq: nat, d: nat, n: nat, pre: nat)
    requires d == LeastDivider(C, freq) && !Reachable(d) && 1 <= n <= MaxN && pre <= MaxPre && Freq(C, n, pre) <= freq
    ensures Freq(C, n, pre) <= C / (d + 1)
  {
    hide Reachable;
    var p := (pre + 1) * (n + 1);
    ProductReachable(n, pre);
    LeastDividerIsLeast(C, freq, p);
    DivAntitone(C, d + 1, p);
  }

  /** Of two neighbouring dividers one is even. */
  lemma NeighbourReachable(C: nat, freq: nat, got: nat, d: nat)
    requires Optimal(C, freq, got) && 2 <= d <= MaxPre + 1 && C / d <= freq && C / (d + 1) >= C / d
    ensures C / d <= got
  {
    DivAntitone(C, d, d + 1);
    if d % 2 == 0 {
      assert Factors(d, 2, d / 2);
      ReachableBelow(C, freq, got, d);
    } else {
      assert Factors(d + 1, 2, (d + 1) / 2);
      ReachableBelow(C, freq, got, d + 1);
    }
  }

  lemma NotSixtySeven(a: nat, b: nat)
    requires a >= 2 && b >= 2
    ensures a * b != 67
  {
    if a > 8 && b > 8 { MulMono(a, 9, b); }
  }

  lemma SixtySevenIsPrime()
    ensures NoFactor(67, MaxN + 1)
  {
    hide NoFactor;
    NoFactorExactly(67, MaxN + 1);
    forall k | 2 <= k <= MaxN + 1 ensures 67 % k != 0 {
      assert 67 == k * (67 / k) + 67 % k;
      if 67 / k >= 2 { NotSixtySeven(k, 67 / k); }
    }
  }

  /** From an 80 MHz clock, 1194029 Hz needs the divider 67. */
  lemma PrimeDividerMissed(got: nat)
    requires Optimal(80_000_000, 1_194_029, got)
    ensures got < 1_194_029 == Freq(80_000_000, 0, 66)
  {
    hide Optimal;
    assert LeastDivider(80_000_000, 1_194_029) == 67;
    assert NoFactor(67, MaxN + 1) by { SixtySevenIsPrime(); }
    assert OnlyUndivided(80_000_000, 67);
    UndividedCloserExactly(80_000_000, 1_194_029, got);
  }
}
