/** Replacing a pattern in a text: from left to right without overlaps, and the right-to-left way that
  String::replace takes when the text grows. */
module ReplaceSpec {

  predicate Occurs(s: string, f: string, i: nat) { i + |f| <= |s| && s[i..i + |f|] == f }

  /** The first occurrence at or after `from`, or -1: what strstr finds. */
  function FirstFrom(s: string, f: string, from: nat): (i: int)
    decreases |s| - from
  {
    if from + |f| > |s| || from >= |s| then -1 else if Occurs(s, f, from) then from else FirstFrom(s, f, from + 1)
  }

  lemma {:induction false} FirstIsFirst(s: string, f: string, from: nat)
    requires f != []
    ensures var i := FirstFrom(s, f, from);
            if i < 0 then i == -1 && forall j :: j >= from ==> !Occurs(s, f, j)
            else i >= from && Occurs(s, f, i) && forall j :: from <= j < i ==> !Occurs(s, f, j)
    decreases |s| - from
  {
    hide Occurs;
    if from + |f| > |s| || from >= |s| {
      forall j | j >= from ensures !Occurs(s, f, j) { TooFar(s, f, j); }
    } else if !Occurs(s, f, from) {
      FirstIsFirst(s, f, from + 1);
    }
  }

  lemma TooFar(s: string, f: string, j: nat)
    requires j + |f| > |s|
    ensures !Occurs(s, f, j)
  {
  }

  /** The last occurrence at or before `from`, or -1. */
  function LastUpTo(s: string, f: string, from: int): (i: int)
    decreases from
  {
    if from < 0 then -1 else if Occurs(s, f, from) then from else LastUpTo(s, f, from - 1)
  }

  lemma {:induction false} LastIsLast(s: string, f: string, from: int)
    ensures var i := LastUpTo(s, f, from);
            && (i < 0 ==> i == -1 && forall j: nat :: j <= from ==> !Occurs(s, f, j))
            && (i >= 0 ==> i <= from && Occurs(s, f, i) && forall j: nat :: i < j <= from ==> !Occurs(s, f, j))
    decreases from
  {
    hide Occurs;
    if from >= 0 && !Occurs(s, f, from) { LastIsLast(s, f, from - 1); }
  }

  // ---------------------------------------------------------------- left to right

  /** Every occurrence replaced, scanning from the left and going on after each. */
  function ReplaceAll(s: string, f: string, r: string): string
    requires f != []
    decreases |s|
  {
    if |s| < |f| then s
    else if s[..|f|] == f then r + ReplaceAll(s[|f|..], f, r)
    else [s[0]] + ReplaceAll(s[1..], f, r)
  }

  lemma OccursInRest(s: string, f: string, a: nat, j: nat)
    requires a <= |s|
    ensures Occurs(s[a..], f, j) <==> Occurs(s, f, a + j)
  {
    if a + j + |f| <= |s| { assert s[a..][j..j + |f|] == s[a + j..a + j + |f|]; }
  }

  lemma SkipOne(s: string, f: string, r: string)
    requires f != [] && s != [] && !Occurs(s, f, 0)
    ensures ReplaceAll(s, f, r) == [s[0]] + ReplaceAll(s[1..], f, r)
  {
    if |s| < |f| {
      assert s == [s[0]] + s[1..];
    } else {
      assert s[0..|f|] == s[..|f|];
    }
  }

  lemma MatchOne(s: string, f: string, r: string)
    requires f != [] && Occurs(s, f, 0)
    ensures ReplaceAll(s, f, r) == r + ReplaceAll(s[|f|..], f, r)
  {
    assert s[0..|f|] == s[..|f|];
  }

  /** Text without an occurrence starting in it is kept. */
  lemma {:induction false} SkipTo(s: string, f: string, r: string, n: nat)
    requires f != [] && n <= |s| && forall j :: 0 <= j < n ==> !Occurs(s, f, j)
    ensures ReplaceAll(s, f, r) == s[..n] + ReplaceAll(s[n..], f, r)
    decreases n
  {
    hide ReplaceAll, Occurs;
    if n == 0 {
      assert s[0..] == s && s[..0] + ReplaceAll(s, f, r) == ReplaceAll(s, f, r);
    } else {
      SkipOne(s, f, r);
      forall j | 0 <= j < n - 1 ensures !Occurs(s[1..], f, j) {
        OccursInRest(s, f, 1, j);
      }
      SkipTo(s[1..], f, r, n - 1);
      assert s[1..][n - 1..] == s[n..] && [s[0]] + s[1..][..n - 1] == s[..n];
    }
  }

  lemma NothingToReplace(s: string, f: string, r: string)
    requires f != [] && forall j :: 0 <= j < |s| ==> !Occurs(s, f, j)
    ensures ReplaceAll(s, f, r) == s
  {
    SkipTo(s, f, r, |s|);
    assert s[..|s|] == s && s[|s|..] == [];
    assert ReplaceAll([], f, r) == [];
  }

  /** The next occurrence splits the result. */
  lemma ReplaceNext(s: string, f: string, r: string, n: nat)
    requires f != [] && Occurs(s, f, n) && forall j :: 0 <= j < n ==> !Occurs(s, f, j)
    ensures ReplaceAll(s, f, r) == s[..n] + r + ReplaceAll(s[n + |f|..], f, r)
  {
    SkipTo(s, f, r, n);
    assert s[n..][..|f|] == f && s[n..][|f|..] == s[n + |f|..];
    assert s[..n] + (r + ReplaceAll(s[n + |f|..], f, r)) == s[..n] + r + ReplaceAll(s[n + |f|..], f, r);
  }

  /** What one search from `from` tells about the rest of the text. */
  lemma SearchStep(s: string, f: string, r: string, from: nat)
    requires f != [] && from <= |s|
    ensures var i := FirstFrom(s, f, from);
            if i < 0 then ReplaceAll(s[from..], f, r) == s[from..]
            else from <= i && i + |f| <= |s| && s[i..i + |f|] == f
                 && ReplaceAll(s[from..], f, r) == s[from..i] + r + ReplaceAll(s[i + |f|..], f, r)
  {
    hide ReplaceAll, FirstFrom;
    var i, t := FirstFrom(s, f, from), s[from..];
    FirstIsFirst(s, f, from);
    forall j | 0 <= j < |t| && (i < 0 || j < i - from) ensures !Occurs(t, f, j) {
      OccursInRest(s, f, from, j);
    }
    if i < 0 {
      NothingToReplace(t, f, r);
    } else {
      assert t[i - from..i - from + |f|] == s[i..i + |f|];
      ReplaceNext(t, f, r, i - from);
      assert t[..i - from] == s[from..i] && t[i - from + |f|..] == s[i + |f|..];
    }
  }

  // ---------------------------------------------------------------- right to left

  function Replaced(s: string, f: string, r: string, i: nat): string
    requires i + |f| <= |s|
  {
    s[..i] + r + s[i + |f|..]
  }

  /** Replaces the last occurrence at or before `index`, then goes on strictly to the
      left of it, in the changed text. */
  function GrowFrom(s: string, f: string, r: string, index: int): string
    decreases index
  {
    var i := LastUpTo(s, f, index);
    LastIsLast(s, f, index);
    if i < 0 then s else GrowFrom(Replaced(s, f, r, i), f, r, i - 1)
  }

  function Grown(s: string, f: string, r: string): string { GrowFrom(s, f, r, |s| - 1) }

  lemma {:induction false} GrowLonger(s: string, f: string, r: string, index: int)
    requires |r| >= |f|
    ensures |GrowFrom(s, f, r, index)| >= |s|
    ensures |r| > |f| && LastUpTo(s, f, index) >= 0 ==> |GrowFrom(s, f, r, index)| > |s|
    decreases index
  {
    var i := LastUpTo(s, f, index);
    LastIsLast(s, f, index);
    if i >= 0 { GrowLonger(Replaced(s, f, r, i), f, r, i - 1); }
  }

  /** The last `k` characters of `f` are the first `k` of `g`. */
  predicate Overlap(f: string, g: string, k: nat) { k <= |f| && k <= |g| && f[|f| - k..] == g[..k] }

  /** No proper end of the pattern is a beginning of the pattern or of its replacement. */
  ghost predicate NoOverlap(f: string, r: string) {
    forall k :: 0 < k < |f| ==> !Overlap(f, f, k) && !Overlap(f, r, k)
  }

  /** Two occurrences less than a pattern apart overlap in the pattern itself. */
  lemma CloseOccurrences(s: string, f: string, i: nat, j: nat)
    requires Occurs(s, f, i) && Occurs(s, f, j) && i < j < i + |f|
    ensures Overlap(f, f, i + |f| - j)
  {
    var k := i + |f| - j;
    assert f[|f| - k..] == s[i..i + |f|][j - i..] == s[j..i + |f|];
    assert f[..k] == s[j..j + |f|][..k] == s[j..i + |f|];
  }

  /** `e` is where an occurrence starts, or the end of the text. */
  ghost predicate Edge(t: string, f: string, e: nat) { e == |t| || Occurs(t, f, e) }

  /** Before an edge every occurrence is complete. */
  lemma OccurrencesEnd(t: string, f: string, r: string, e: nat, j: nat)
    requires f != [] && NoOverlap(f, r) && Edge(t, f, e) && j < e && Occurs(t, f, j)
    ensures j + |f| <= e
  {
    hide NoOverlap;
    if j + |f| > e {
      NotOverlapping(f, r, j + |f| - e);
      CloseOccurrences(t, f, j, e);
    }
  }

  lemma NotOverlapping(f: string, r: string, k: nat)
    requires NoOverlap(f, r) && 0 < k < |f|
    ensures !Overlap(f, f, k) && !Overlap(f, r, k)
  {
  }

  /** The state of the right-to-left loop: the text up to an edge, and everything after it replaced. */
  function Halfway(t: string, f: string, r: string, e: nat): string
    requires f != [] && e <= |t|
  {
    t[..e] + ReplaceAll(t[e..], f, r)
  }

  /** Before the edge, the half-replaced text has exactly the occurrences of the original. */
  lemma SameOccurrences(t: string, f: string, r: string, e: nat, j: nat)
    requires f != [] && |f| < |r| && NoOverlap(f, r) && e <= |t| && Edge(t, f, e) && j < e
    ensures Occurs(Halfway(t, f, r, e), f, j) <==> Occurs(t, f, j)
  {
    hide NoOverlap, ReplaceAll;
    var s := Halfway(t, f, r, e);
    assert s[..e] == t[..e];
    if Occurs(t, f, j) {
      OccurrencesEnd(t, f, r, e, j);
      assert s[j..j + |f|] == s[..e][j..j + |f|] == t[j..j + |f|];
    }
    if Occurs(s, f, j) {
      if j + |f| <= e {
        assert t[j..j + |f|] == t[..e][j..j + |f|] == s[j..j + |f|];
      } else {
        Straddles(t, f, r, e, j);
        assert false;
      }
    }
  }

  lemma OccurrenceAcross(s: string, f: string, r: string, e: nat, j: nat)
    requires Occurs(s, f, j) && j < e < j + |f| && j + |f| - e <= |r| && s[e..j + |f|] == r[..j + |f| - e]
    ensures Overlap(f, r, j + |f| - e)
  {
    assert f[e - j..] == s[j..j + |f|][e - j..] == s[e..j + |f|];
  }

  /** An occurrence across the edge would be an overlap of the pattern with its replacement. */
  lemma Straddles(t: string, f: string, r: string, e: nat, j: nat)
    requires f != [] && |f| < |r| && NoOverlap(f, r) && e <= |t| && Edge(t, f, e) && j < e < j + |f|
    ensures !Occurs(Halfway(t, f, r, e), f, j)
  {
    hide NoOverlap;
    var s, k := Halfway(t, f, r, e), j + |f| - e;
    if e == |t| {
      assert t[e..] == [] && ReplaceAll([], f, r) == [];
      TooFar(s, f, j);
    } else {
      assert t[e..][..|f|] == f;
      assert ReplaceAll(t[e..], f, r) == r + ReplaceAll(t[e..][|f|..], f, r);
      assert s[e..e + k] == r[..k];
      NotOverlapping(f, r, k);
      if Occurs(s, f, j) { OccurrenceAcross(s, f, r, e, j); }
    }
  }

  /** One more replacement on the left: the next edge. */
  lemma NextEdge(t: string, f: string, r: string, e: nat, i: nat)
    requires f != [] && NoOverlap(f, r) && e <= |t| && Edge(t, f, e)
    requires Occurs(t, f, i) && i < e && forall j :: i < j < e ==> !Occurs(t, f, j)
    ensures i + |f| <= e && i + |f| <= |Halfway(t, f, r, e)|
    ensures Replaced(Halfway(t, f, r, e), f, r, i) == Halfway(t, f, r, i)
  {
    hide NoOverlap, ReplaceAll, Occurs;
    OccurrencesEnd(t, f, r, e, i);
    var u, n, rest := t[i + |f|..], e - i - |f|, ReplaceAll(t[e..], f, r);
    KeepBetween(t, f, i + |f|, e);
    SkipTo(u, f, r, n);
    assert u[n..] == t[e..] && t[i..][|f|..] == u;
    OccursInRest(t, f, i, 0);
    MatchOne(t[i..], f, r);
    CutAt(t, rest, i, |f|, e);
    assert t[..i] + r + (u[..n] + rest) == t[..i] + (r + (u[..n] + rest));
  }

  lemma CutAt(t: string, rest: string, i: nat, m: nat, e: nat)
    requires i + m <= e <= |t|
    ensures var s := t[..e] + rest; s[..i] == t[..i] && s[i + m..] == t[i + m..][..e - i - m] + rest
  {
  }

  /** No occurrence in the text means none in a part of it. */
  lemma KeepBetween(t: string, f: string, a: nat, e: nat)
    requires a <= e <= |t| && forall j :: a <= j < e ==> !Occurs(t, f, j)
    ensures forall j :: 0 <= j < e - a ==> !Occurs(t[a..], f, j)
  {
    forall j | 0 <= j < e - a ensures !Occurs(t[a..], f, j) {
      OccursInRest(t, f, a, j);
    }
  }

  /** From any halfway point, going on to the left ends with the left-to-right result. */
  lemma {:induction false} GrowFromEdge(t: string, f: string, r: string, e: nat)
    requires f != [] && |f| < |r| && NoOverlap(f, r) && e <= |t| && Edge(t, f, e)
    ensures GrowFrom(Halfway(t, f, r, e), f, r, e - 1) == ReplaceAll(t, f, r)
    decreases e
  {
    hide NoOverlap, ReplaceAll, Halfway, Replaced, Occurs;
    var s := Halfway(t, f, r, e);
    var i := LastUpTo(s, f, e - 1);
    LastIsLast(s, f, e - 1);
    forall j: nat | j < e ensures Occurs(s, f, j) <==> Occurs(t, f, j) { SameOccurrences(t, f, r, e, j); }
    if i < 0 {
      FinalEdge(t, f, r, e);
    } else {
      NextEdge(t, f, r, e, i);
      GrowFromEdge(t, f, r, i);
    }
  }

  lemma FinalEdge(t: string, f: string, r: string, e: nat)
    requires f != [] && e <= |t| && forall j :: 0 <= j < e ==> !Occurs(t, f, j)
    ensures Halfway(t, f, r, e) == ReplaceAll(t, f, r)
  {
    SkipTo(t, f, r, e);
  }

  /** Where nothing overlaps, right to left gives the left-to-right result. */
  lemma GrownIsReplaceAll(t: string, f: string, r: string)
    requires f != [] && |f| < |r| && NoOverlap(f, r)
    ensures Grown(t, f, r) == ReplaceAll(t, f, r)
  {
    assert t[|t|..] == [] && ReplaceAll([], f, r) == [];
    assert Halfway(t, f, r, |t|) == t;
    GrowFromEdge(t, f, r, |t|);
  }

  // ---------------------------------------------------------------- and only there

  /** The text that goes wrong when the last `k` characters of the pattern can start something else. */
  function Witness(f: string, k: nat): string
    requires k <= |f|
  {
    f[..|f| - k] + f
  }

  lemma WitnessParts(f: string, r: string, k: nat)
    requires 0 < k < |f|
    ensures var t, p := Witness(f, k), |f| - k;
            Occurs(t, f, p) && |t| == p + |f| && t[..p] == f[..p] && Replaced(t, f, r, p) == f[..p] + r
  {
    var t, p := Witness(f, k), |f| - k;
    assert t[p..p + |f|] == f && t[p + |f|..] == [] && t[..p] == f[..p];
    assert f[..p] + r + [] == f[..p] + r;
  }

  /** The first replacement from the right in the witness. */
  lemma WitnessFirst(f: string, r: string, k: nat)
    requires 0 < k < |f|
    ensures var t, p := Witness(f, k), |f| - k; Grown(t, f, r) == GrowFrom(f[..p] + r, f, r, p - 1)
  {
    hide Occurs, Witness, Replaced;
    var t, p := Witness(f, k), |f| - k;
    WitnessParts(f, r, k);
    LastIsLast(t, f, |t| - 1);
    var i := LastUpTo(t, f, |t| - 1);
    if i > p { TooFar(t, f, i); }
  }

  /** If the half-replaced witness starts with the pattern, it is replaced once more. */
  lemma TwiceReplaced(s: string, f: string, r: string, index: int)
    requires |r| > |f| && index >= 0 && Occurs(s, f, 0)
    ensures |GrowFrom(s, f, r, index)| > |s|
  {
    LastIsLast(s, f, index);
    GrowLonger(s, f, r, index);
  }

  /** The pattern's end starts its replacement, and the pattern does not overlap itself. */
  lemma OverlapWithReplacement(f: string, r: string, k: nat)
    requires |r| > |f| && 0 < k < |f| && Overlap(f, r, k)
    requires forall j :: 0 < j < |f| ==> !Overlap(f, f, j)
    ensures |Grown(Witness(f, k), f, r)| > |ReplaceAll(Witness(f, k), f, r)|
  {
    var t, p := Witness(f, k), |f| - k;
    WitnessFirst(f, r, k);
    WitnessParts(f, r, k);
    forall j | 0 <= j < p ensures !Occurs(t, f, j) {
      if Occurs(t, f, j) { CloseOccurrences(t, f, j, p); }
    }
    ReplaceNext(t, f, r, p);
    assert t[p + |f|..] == [] && t[..p] == f[..p];
    var s := f[..p] + r;
    assert s[0..|f|] == f[..p] + r[..k] == f[..p] + f[p..] == f;
    TwiceReplaced(s, f, r, p - 1);
  }

  /** `s` begins with one period of the pattern and repeats with that period. */
  lemma {:induction false} PeriodicStart(f: string, s: string, p: nat, i: nat)
    requires 0 < p < |f| <= |s| && s[..p] == f[..p] && i < |f|
    requires forall x :: p <= x < |f| ==> f[x] == f[x - p] && s[x] == s[x - p]
    ensures s[i] == f[i]
    decreases i
  {
    if i < p {
      assert s[..p][i] == f[..p][i];
    } else {
      PeriodicStart(f, s, p, i - p);
    }
  }

  /** An overlap of the pattern with itself is a period; a text that can start with one period or with the
      replacement has the same period. */
  lemma SamePeriod(f: string, r: string, k: nat, rest: string)
    requires |r| > |f| && 0 < k < |f| && Overlap(f, f, k) && f[..|f| - k] + r == r + rest
    ensures var s := f[..|f| - k] + r; Occurs(s, f, 0)
  {
    var p := |f| - k;
    var s := f[..p] + r;
    forall x | p <= x < |f| ensures f[x] == f[x - p] && s[x] == s[x - p] {
      assert f[p..][x - p] == f[..k][x - p];
      assert s[x] == r[x - p] == (r + rest)[x - p];
    }
    forall i | 0 <= i < |f| ensures s[i] == f[i] { PeriodicStart(f, s, p, i); }
    assert s[0..|f|] == f;
  }

  lemma WitnessReplaced(f: string, r: string, k: nat)
    requires 0 < k < |f| && Overlap(f, f, k)
    ensures var t := Witness(f, k); ReplaceAll(t, f, r) == r + t[|f|..] && |t| == |f| + (|f| - k)
  {
    var t, p := Witness(f, k), |f| - k;
    assert t[..|f|] == f[..p] + f[..k] == f[..p] + f[p..] == f;
    assert |t[|f|..]| < |f|;
  }

  /** The pattern overlaps itself. */
  lemma OverlapWithItself(f: string, r: string, k: nat)
    requires |r| > |f| && 0 < k < |f| && Overlap(f, f, k)
    ensures Grown(Witness(f, k), f, r) != ReplaceAll(Witness(f, k), f, r)
  {
    hide Grown, ReplaceAll, Overlap, Occurs, Witness;
    var t, p, s := Witness(f, k), |f| - k, f[..|f| - k] + r;
    WitnessFirst(f, r, k);
    WitnessReplaced(f, r, k);
    if s == r + t[|f|..] {
      SamePeriod(f, r, k, t[|f|..]);
      TwiceReplaced(s, f, r, p - 1);
    } else if LastUpTo(s, f, p - 1) >= 0 {
      GrowLonger(s, f, r, p - 1);
    }
  }

  // ---------------------------------------------------------------- a text that outgrows its counted size

  /** `n` times the character a. */
  function Run(n: nat): (s: string)
    ensures |s| == n
  {
    seq(n, _ => 'a')
  }

  lemma RunParts(n: nat, k: nat)
    requires k <= n
    ensures Run(n)[..k] == Run(k) && Run(n)[k..] == Run(n - k)
  {
  }

  lemma RunAppend(m: nat, n: nat)
    ensures Run(m) + Run(n) == Run(m + n)
  {
  }

  /** From the left, each pair grows once. */
  lemma {:induction false} RunReplaced(n: nat)
    ensures ReplaceAll(Run(n), Run(2), Run(3)) == Run(n + n / 2)
  {
    if n >= 2 {
      RunParts(n, 2);
      RunReplaced(n - 2);
      RunAppend(3, n - 2 + (n - 2) / 2);
    }
  }

  /** From the right, every place but the last grows. */
  lemma {:induction false} RunGrown(n: nat, index: int)
    requires -1 <= index <= n - 2
    ensures GrowFrom(Run(n), Run(2), Run(3), index) == Run(n + index + 1)
    decreases index
  {
    if index >= 0 {
      assert Run(n)[index..index + 2] == Run(2);
      RunParts(n, index);
      RunParts(n, index + 2);
      RunAppend(index, 3);
      RunAppend(index + 3, n - index - 2);
      assert Replaced(Run(n), Run(2), Run(3), index) == Run(n + 1);
      RunGrown(n + 1, index - 1);
    }
  }

  lemma RunGrownWhole(n: nat)
    requires n >= 2
    ensures Grown(Run(n), Run(2), Run(3)) == Run(2 * n - 1)
  {
    RunGrown(n, n - 2);
    assert !Occurs(Run(n), Run(2), n - 1);
    assert LastUpTo(Run(n), Run(2), n - 1) == LastUpTo(Run(n), Run(2), n - 2);
  }

  // ---------------------------------------------------------------- when right to left is right

  /** Right to left is right for every text exactly when no proper end of the pattern begins the pattern
      or its replacement. */
  lemma GrownExactly(f: string, r: string)
    requires f != [] && |f| < |r|
    ensures (forall t :: Grown(t, f, r) == ReplaceAll(t, f, r)) <==> NoOverlap(f, r)
  {
    hide Grown, ReplaceAll, Overlap, Witness;
    if NoOverlap(f, r) {
      forall t ensures Grown(t, f, r) == ReplaceAll(t, f, r) { GrownIsReplaceAll(t, f, r); }
    } else if exists k :: 0 < k < |f| && Overlap(f, f, k) {
      var k :| 0 < k < |f| && Overlap(f, f, k);
      OverlapWithItself(f, r, k);
    } else {
      var k :| 0 < k < |f| && Overlap(f, r, k);
      OverlapWithReplacement(f, r, k);
    }
  }
}
