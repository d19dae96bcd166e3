/** AnalogSensor::getAvgAdc: the mean of the readings without the three smallest and the three largest. */
module TrimmedMean {
  import opened Arithmetic

  const MaxReading := 4095

  function Insert(x: nat, s: seq<nat>): (t: seq<nat>)
    ensures |t| == |s| + 1
  {
    if s == [] || x <= s[0] then [x] + s else [s[0]] + Insert(x, s[1..])
  }

  /** The readings in ascending order. */
  function Sorted(r: seq<nat>): (s: seq<nat>)
    ensures |s| == |r|
  {
    if r == [] then [] else Insert(r[|r| - 1], Sorted(r[..|r| - 1]))
  }

  predicate Ordered(s: seq<nat>) { forall i, j :: 0 <= i < j < |s| ==> s[i] <= s[j] }

  function Sum(s: seq<nat>): nat { if s == [] then 0 else s[0] + Sum(s[1..]) }

  /** The floored mean of what is left between the three smallest and the three largest. */
  function Mean(r: seq<nat>): nat
    requires |r| > 6
  {
    Sum(Sorted(r)[3..|r| - 3]) / (|r| - 6)
  }

  // ---------------------------------------------------------------- insertion

  /** What stands at place `k` after an insertion. */
  lemma {:induction false} InsertAt(x: nat, s: seq<nat>, k: nat)
    requires Ordered(s) && k <= |s|
    ensures Insert(x, s)[k] == if k < |s| && s[k] < x then s[k] else if k > 0 && x < s[k - 1] then s[k - 1] else x
    decreases |s|
  {
    if s != [] && x > s[0] {
      if k > 0 { InsertAt(x, s[1..], k - 1); }
    }
  }

  lemma InsertOrdered(x: nat, s: seq<nat>)
    requires Ordered(s)
    ensures Ordered(Insert(x, s))
  {
    hide Insert;
    var t := Insert(x, s);
    forall i, j | 0 <= i < j < |t| ensures t[i] <= t[j] {
      InsertAt(x, s, i);
      InsertAt(x, s, j);
    }
  }

  lemma {:induction false} SortedOrdered(r: seq<nat>)
    ensures Ordered(Sorted(r))
  {
    if r != [] {
      SortedOrdered(r[..|r| - 1]);
      InsertOrdered(r[|r| - 1], Sorted(r[..|r| - 1]));
    }
  }

  lemma {:induction false} InsertSum(x: nat, s: seq<nat>)
    ensures Sum(Insert(x, s)) == x + Sum(s) && multiset(Insert(x, s)) == multiset(s) + multiset{x}
  {
    if s == [] || x <= s[0] {
      assert ([x] + s)[1..] == s;
    } else {
      InsertSum(x, s[1..]);
      assert s == [s[0]] + s[1..];
      assert ([s[0]] + Insert(x, s[1..]))[1..] == Insert(x, s[1..]);
    }
  }

  /** Sorting only rearranges. */
  lemma {:induction false} SortedPermutes(r: seq<nat>)
    ensures multiset(Sorted(r)) == multiset(r)
  {
    if r != [] {
      SortedPermutes(r[..|r| - 1]);
      InsertSum(r[|r| - 1], Sorted(r[..|r| - 1]));
      assert r == r[..|r| - 1] + [r[|r| - 1]];
    }
  }

  // ---------------------------------------------------------------- the six trackers

  /** The `k`-th smallest reading so far, or the tracker's initial value. */
  function Low(s: seq<nat>, k: nat): nat { if k < |s| then s[k] else MaxReading }

  /** The `k`-th largest reading so far, or the tracker's initial value. */
  function High(s: seq<nat>, k: nat): nat { if k < |s| then s[|s| - 1 - k] else 0 }

  /** The trackers, innermost first, hold the three smallest and the three largest readings. */
  ghost predicate Tracking(s: seq<nat>, min: nat, minn: nat, minnn: nat, max: nat, maxx: nat, maxxx: nat) {
    && minnn == Low(s, 0) && minn == Low(s, 1) && min == Low(s, 2)
    && maxxx == High(s, 0) && maxx == High(s, 1) && max == High(s, 2)
  }

  lemma LowAfter(s: seq<nat>, x: nat, k: nat)
    requires Ordered(s) && x <= MaxReading && forall i :: 0 <= i < |s| ==> s[i] <= MaxReading
    ensures Low(Insert(x, s), k)
         == if Low(s, k) <= x then Low(s, k)
            else if k > 0 && x < Low(s, k - 1) then Low(s, k - 1) else x
  {
    hide Insert;
    if k <= |s| { InsertAt(x, s, k); }
  }

  lemma HighAfter(s: seq<nat>, x: nat, k: nat)
    requires Ordered(s)
    ensures High(Insert(x, s), k)
         == if High(s, k) >= x then High(s, k)
            else if k > 0 && x > High(s, k - 1) then High(s, k - 1) else x
  {
    hide Insert;
    if k <= |s| { InsertAt(x, s, |s| - k); }
  }

  /** The nested comparisons for the smallest readings. */
  method TrackLow(val: nat, min0: nat, minn0: nat, minnn0: nat) returns (min: nat, minn: nat, minnn: nat)
    ensures min == if min0 <= val then min0 else if val < minn0 then minn0 else val
    ensures minn == if min0 <= val || minn0 <= val then minn0 else if val < minnn0 then minnn0 else val
    ensures minnn == if min0 <= val || minn0 <= val || minnn0 <= val then minnn0 else val
  {
    min, minn, minnn := min0, minn0, minnn0;
    if val < min {
      if val < minn {
        min := minn;
        if val < minnn {
          minn := minnn;
          minnn := val;
        } else {
          minn := val;
        }
      } else {
        min := val;
      }
    }
  }

  /** The nested comparisons for the largest readings. */
  method TrackHigh(val: nat, max0: nat, maxx0: nat, maxxx0: nat) returns (max: nat, maxx: nat, maxxx: nat)
    ensures max == if max0 >= val then max0 else if val > maxx0 then maxx0 else val
    ensures maxx == if max0 >= val || maxx0 >= val then maxx0 else if val > maxxx0 then maxxx0 else val
    ensures maxxx == if max0 >= val || maxx0 >= val || maxxx0 >= val then maxxx0 else val
  {
    max, maxx, maxxx := max0, maxx0, maxxx0;
    if val > max {
      if val > maxx {
        max := maxx;
        if val > maxxx {
          maxx := maxxx;
          maxxx := val;
        } else {
          maxx := val;
        }
      } else {
        max := val;
      }
    }
  }

  lemma LowsAscend(s: seq<nat>)
    requires Ordered(s) && forall i :: 0 <= i < |s| ==> s[i] <= MaxReading
    ensures Low(s, 0) <= Low(s, 1) <= Low(s, 2) && High(s, 0) >= High(s, 1) >= High(s, 2)
  {
  }

  predicate InRange(r: seq<nat>) { forall i :: 0 <= i < |r| ==> r[i] <= MaxReading }

  lemma SortedInRange(r: seq<nat>)
    requires InRange(r)
    ensures InRange(Sorted(r))
  {
    SortedPermutes(r);
    forall i | 0 <= i < |Sorted(r)| ensures Sorted(r)[i] <= MaxReading {
      assert Sorted(r)[i] in multiset(Sorted(r));
      assert Sorted(r)[i] in multiset(r);
    }
  }

  lemma {:induction false} SumAppend(a: seq<nat>, b: seq<nat>)
    ensures Sum(a + b) == Sum(a) + Sum(b)
    decreases |a|
  {
    if a == [] {
      assert a + b == b;
    } else {
      assert (a + b)[1..] == a[1..] + b;
      SumAppend(a[1..], b);
    }
  }

  lemma SumOfThree(x: nat, y: nat, z: nat)
    ensures Sum([x, y, z]) == x + y + z
  {
    assert [x, y, z][1..] == [y, z] && [y, z][1..] == [z] && [z][1..] == [];
    assert Sum([z]) == z && Sum([y, z]) == y + Sum([z]);
  }

  /** The sum without the six trackers is the sum of the middle. */
  lemma MiddleSum(s: seq<nat>)
    requires |s| > 6
    ensures Sum(s) == Low(s, 0) + Low(s, 1) + Low(s, 2) + Sum(s[3..|s| - 3]) + High(s, 0) + High(s, 1) + High(s, 2)
  {
    hide Sum;
    var n := |s|;
    var low, high := [s[0], s[1], s[2]], [s[n - 3], s[n - 2], s[n - 1]];
    assert s == low + s[3..n - 3] + high by { ThreeParts(s); }
    SumOfThree(s[0], s[1], s[2]);
    SumOfThree(s[n - 3], s[n - 2], s[n - 1]);
    SumAppend(low, s[3..n - 3]);
    SumAppend(low + s[3..n - 3], high);
  }

  lemma ThreeParts(s: seq<nat>)
    requires |s| > 6
    ensures var n := |s|; s == [s[0], s[1], s[2]] + s[3..n - 3] + [s[n - 3], s[n - 2], s[n - 1]]
  {
    var n := |s|;
    var low, high := [s[0], s[1], s[2]], [s[n - 3], s[n - 2], s[n - 1]];
    var t := low + s[3..n - 3] + high;
    forall i | 0 <= i < n ensures t[i] == s[i] {
      if i < 3 {
        assert t[i] == low[i];
      } else if i < n - 3 {
        assert t[i] == s[3..n - 3][i - 3];
      } else {
        assert t[i] == high[i - (n - 3)];
      }
    }
  }

  /** What the comparisons have to achieve. */
  lemma TrackersAfter(s: seq<nat>, x: nat)
    requires Ordered(s) && x <= MaxReading && InRange(s)
    ensures var t, min, minn, minnn := Insert(x, s), Low(s, 2), Low(s, 1), Low(s, 0);
            && Low(t, 2) == (if min <= x then min else if x < minn then minn else x)
            && Low(t, 1) == (if min <= x || minn <= x then minn else if x < minnn then minnn else x)
            && Low(t, 0) == if min <= x || minn <= x || minnn <= x then minnn else x
    ensures var t, max, maxx, maxxx := Insert(x, s), High(s, 2), High(s, 1), High(s, 0);
            && High(t, 2) == (if max >= x then max else if x > maxx then maxx else x)
            && High(t, 1) == (if max >= x || maxx >= x then maxx else if x > maxxx then maxxx else x)
            && High(t, 0) == if max >= x || maxx >= x || maxxx >= x then maxxx else x
  {
    hide Insert, Ordered, Low, High;
    LowsAscend(s);
    LowAfter(s, x, 0); LowAfter(s, x, 1); LowAfter(s, x, 2);
    HighAfter(s, x, 0); HighAfter(s, x, 1); HighAfter(s, x, 2);
  }

  /** The comparisons keep the trackers right. */
  method Track(val: nat, ghost s: seq<nat>, min0: nat, minn0: nat, minnn0: nat, max0: nat, maxx0: nat, maxxx0: nat)
    returns (min: nat, minn: nat, minnn: nat, max: nat, maxx: nat, maxxx: nat)
    requires Ordered(s) && val <= MaxReading && InRange(s) && Tracking(s, min0, minn0, minnn0, max0, maxx0, maxxx0)
    ensures Tracking(Insert(val, s), min, minn, minnn, max, maxx, maxxx)
  {
    hide Insert, Ordered, Low, High;
    TrackersAfter(s, val);
    min, minn, minnn := TrackLow(val, min0, minn0, minnn0);
    max, maxx, maxxx := TrackHigh(val, max0, maxx0, maxxx0);
  }

  lemma TrackersStep(r: seq<nat>, i: nat, s: seq<nat>, t: seq<nat>)
    requires i < |r| && InRange(r) && s == Sorted(r[..i]) && t == Sorted(r[..i + 1])
    ensures Ordered(s) && InRange(s) && t == Insert(r[i], s) && Sum(t) == Sum(s) + r[i]
  {
    SortedOrdered(r[..i]);
    SortedInRange(r[..i]);
    var p := r[..i + 1];
    assert p[|p| - 1] == r[i] && p[..|p| - 1] == r[..i];
    hide Insert, Ordered, Sum;
    InsertSum(r[i], s);
  }

  /** The six trackers less the sum: what the subtraction goes below zero by, with fewer than six readings. */
  function Deficit(s: seq<nat>): int {
    Low(s, 0) + Low(s, 1) + Low(s, 2) + High(s, 0) + High(s, 1) + High(s, 2) - Sum(s)
  }

  /** getAvgAdc over the readings that arrive.  Six of them divide by zero; with fewer, subtraction and divisor
      wrap around in 32 bits, and the result is 0 or 1. */
  method GetAvgAdc(readings: seq<nat>) returns (avg: nat)
    requires |readings| < 256 && |readings| != 6 && InRange(readings)
    ensures |readings| > 6 ==> avg == Mean(readings)
    ensures |readings| < 6 ==> avg == if 0 < Deficit(Sorted(readings)) <= 6 - |readings| then 1 else 0
  {
    hide Sorted, Insert, Sum, Ordered, Low, High, Tracking, Mean, Deficit, Divided;
    var num := |readings|;
    var sumVal: nat := 0;
    var minVal: nat, minnVal: nat, minnnVal: nat := 4095, 4095, 4095;
    var maxVal: nat, maxxVal: nat, maxxxVal: nat := 0, 0, 0;
    NothingTracked();
    assert readings[..0] == [];
    for i := 0 to num
      invariant Tracking(Sorted(readings[..i]), minVal, minnVal, minnnVal, maxVal, maxxVal, maxxxVal)
      invariant sumVal == Sum(Sorted(readings[..i]))
    {
      var val := readings[i];
      ghost var s := Sorted(readings[..i]);
      TrackersStep(readings, i, s, Sorted(readings[..i + 1]));
      minVal, minnVal, minnnVal, maxVal, maxxVal, maxxxVal :=
        Track(val, s, minVal, minnVal, minnnVal, maxVal, maxxVal, maxxxVal);
      sumVal := sumVal + val;
    }
    assert readings[..num] == readings;
    var rest := sumVal - minnnVal - minnVal - minVal - maxVal - maxxVal - maxxxVal;
    TrackedRest(readings, minVal, minnVal, minnnVal, maxVal, maxxVal, maxxxVal);
    avg := Divided(rest, num);
    DividedIn32(readings, rest);
  }

  /** `rest / (num - 6)` in unsigned 32-bit arithmetic. */
  function Divided(rest: int, num: nat): nat
    requires num < 256 && num != 6
  {
    rest % 0x1_0000_0000 / ((num - 6) % 0x1_0000_0000)
  }

  lemma TrackedRest(r: seq<nat>, min: nat, minn: nat, minnn: nat, max: nat, maxx: nat, maxxx: nat)
    requires InRange(r) && Tracking(Sorted(r), min, minn, minnn, max, maxx, maxxx)
    ensures Sum(Sorted(r)) - minnn - minn - min - max - maxx - maxxx == -Deficit(Sorted(r))
    ensures |r| > 6 ==> -Deficit(Sorted(r)) == Sum(Sorted(r)[3..|r| - 3])
  {
    hide Sum, Low, High;
    if |r| > 6 { TrackedSum(Sorted(r), min, minn, minnn, max, maxx, maxxx); }
  }

  lemma DividedIn32(r: seq<nat>, rest: int)
    requires |r| < 256 && |r| != 6 && InRange(r) && rest == -Deficit(Sorted(r))
    requires |r| > 6 ==> rest == Sum(Sorted(r)[3..|r| - 3])
    ensures Divided(rest, |r|)
         == if |r| > 6 then Mean(r) else if 0 < Deficit(Sorted(r)) <= 6 - |r| then 1 else 0
  {
    hide Sum, Low, High, Sorted, Mean, Deficit, Divided;
    DeficitBounds(r);
    if |r| > 6 {
      MeanOf(r, rest);
      PlainQuotient(rest, |r|);
    } else {
      WrappedQuotient(rest, |r|);
    }
  }

  lemma PlainQuotient(rest: nat, num: nat)
    requires rest < 0x1_0000_0000 && 6 < num < 256
    ensures Divided(rest, num) == rest / (num - 6)
  {
  }

  /** Near the top of the 32-bit range a quotient is 0 or 1. */
  lemma WrappedQuotient(rest: int, num: nat)
    requires -65536 < rest < 0x8000_0000 && num < 6
    ensures Divided(rest, num) == if 0 < -rest <= 6 - num then 1 else 0
  {
    var top := if rest < 0 then rest + 0x1_0000_0000 else rest;
    assert rest % 0x1_0000_0000 == top && (num - 6) % 0x1_0000_0000 == 0x1_0000_0000 - (6 - num);
    QuotientOf(top, 0x1_0000_0000 - (6 - num));
  }

  lemma QuotientOf(x: nat, d: nat)
    requires 0 < d && x < 2 * d
    ensures x / d == if x < d then 0 else 1
  {
  }

  lemma TrackersInRange(s: seq<nat>)
    requires InRange(s)
    ensures forall k: nat :: Low(s, k) <= MaxReading && High(s, k) <= MaxReading
  {
  }

  lemma DeficitBounds(r: seq<nat>)
    requires |r| < 256 && InRange(r)
    ensures -1044225 <= Deficit(Sorted(r)) <= 24570
  {
    hide Sum, Sorted, Low, High;
    var s := Sorted(r);
    SortedInRange(r);
    assert forall k: nat :: Low(s, k) <= MaxReading && High(s, k) <= MaxReading by { TrackersInRange(s); }
    SumBetween(s, 0, MaxReading);
  }

  lemma MeanOf(r: seq<nat>, rest: nat)
    requires |r| > 6 && rest == Sum(Sorted(r)[3..|r| - 3])
    ensures rest / (|r| - 6) == Mean(r)
  {
  }

  lemma TrackedSum(s: seq<nat>, min: nat, minn: nat, minnn: nat, max: nat, maxx: nat, maxxx: nat)
    requires |s| > 6 && Tracking(s, min, minn, minnn, max, maxx, maxxx)
    ensures Sum(s) == minnn + minn + min + Sum(s[3..|s| - 3]) + max + maxx + maxxx
  {
    hide Sum, Low, High;
    MiddleSum(s);
  }

  lemma NothingTracked()
    ensures Tracking(Sorted([]), 4095, 4095, 4095, 0, 0, 0) && Sum(Sorted([])) == 0
  {
  }

  // ---------------------------------------------------------------- robustness

  /** How many readings lie outside the range of the good ones. */
  function Outside(r: seq<nat>, lo: nat, hi: nat): nat {
    if r == [] then 0 else (if lo <= r[0] <= hi then 0 else 1) + Outside(r[1..], lo, hi)
  }

  lemma {:induction false} InsertOutside(x: nat, s: seq<nat>, lo: nat, hi: nat)
    ensures Outside(Insert(x, s), lo, hi) == Outside(s, lo, hi) + if lo <= x <= hi then 0 else 1
  {
    if s == [] || x <= s[0] {
      assert ([x] + s)[1..] == s;
    } else {
      InsertOutside(x, s[1..], lo, hi);
      assert ([s[0]] + Insert(x, s[1..]))[1..] == Insert(x, s[1..]);
    }
  }

  lemma {:induction false} OutsideAppend(a: seq<nat>, b: seq<nat>, lo: nat, hi: nat)
    ensures Outside(a + b, lo, hi) == Outside(a, lo, hi) + Outside(b, lo, hi)
    decreases |a|
  {
    if a == [] {
      assert a + b == b;
    } else {
      assert (a + b)[1..] == a[1..] + b;
      OutsideAppend(a[1..], b, lo, hi);
    }
  }

  lemma {:induction false} SortedOutside(r: seq<nat>, lo: nat, hi: nat)
    ensures Outside(Sorted(r), lo, hi) == Outside(r, lo, hi)
  {
    if r != [] {
      var n := |r| - 1;
      SortedOutside(r[..n], lo, hi);
      InsertOutside(r[n], Sorted(r[..n]), lo, hi);
      OutsideAppend(r[..n], [r[n]], lo, hi);
      assert r[..n] + [r[n]] == r;
      assert [r[n]][1..] == [];
    }
  }

  lemma {:induction false} AllOutside(s: seq<nat>, lo: nat, hi: nat)
    requires forall i :: 0 <= i < |s| ==> !(lo <= s[i] <= hi)
    ensures Outside(s, lo, hi) == |s|
  {
    if s != [] { AllOutside(s[1..], lo, hi); }
  }

  /** With at most three readings outside, everything between the three smallest and the three largest is inside. */
  lemma MiddleInside(s: seq<nat>, lo: nat, hi: nat, k: nat)
    requires Ordered(s) && Outside(s, lo, hi) <= 3 && 3 <= k < |s| - 3
    ensures lo <= s[k] <= hi
  {
    hide Outside;
    var n := |s|;
    if s[k] < lo {
      OutsideAppend(s[..k + 1], s[k + 1..], lo, hi);
      assert s[..k + 1] + s[k + 1..] == s;
      AllOutside(s[..k + 1], lo, hi);
    }
    if s[k] > hi {
      OutsideAppend(s[..k], s[k..], lo, hi);
      assert s[..k] + s[k..] == s;
      AllOutside(s[k..], lo, hi);
    }
  }

  lemma {:induction false} SumBetween(s: seq<nat>, lo: nat, hi: nat)
    requires forall i :: 0 <= i < |s| ==> lo <= s[i] <= hi
    ensures lo * |s| <= Sum(s) <= hi * |s|
  {
    if s != [] {
      SumBetween(s[1..], lo, hi);
      assert lo * |s| == lo * |s[1..]| + lo && hi * |s| == hi * |s[1..]| + hi;
    }
  }

  lemma QuotientBetween(sum: nat, n: nat, lo: nat, hi: nat)
    requires n > 0 && lo * n <= sum <= hi * n
    ensures lo <= sum / n <= hi
  {
    var q := sum / n;
    assert sum == n * q + sum % n && n * (q + 1) == n * q + n;
    assert lo * n == n * lo && hi * n == n * hi;
    assert n * (hi + 1) == n * hi + n;
    if q < lo { MulMono(n, q + 1, lo); }
    if q > hi { MulMono(n, hi + 1, q); }
  }

  /** As long as at most three readings are corrupt, the result lies within the range of the good ones. */
  lemma Robust(r: seq<nat>, lo: nat, hi: nat)
    requires |r| > 6 && Outside(r, lo, hi) <= 3
    ensures lo <= Mean(r) <= hi
  {
    hide Sorted, Sum, Outside;
    var s, n := Sorted(r), |r|;
    SortedOrdered(r);
    SortedOutside(r, lo, hi);
    forall k | 3 <= k < n - 3 ensures lo <= s[k] <= hi { MiddleInside(s, lo, hi, k); }
    SumBetween(s[3..n - 3], lo, hi);
    QuotientBetween(Sum(s[3..n - 3]), n - 6, lo, hi);
  }
}
