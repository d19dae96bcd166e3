/** gen_esp32part.py: laying out a partition table, verifying it, and its binary form. */
module Partition {
  import opened Arithmetic
  import opened IntBytes

  const FirstOffset := 0x5000        // first offset after the partition table
  const AppType := 0x00
  const MaxPartitionLength := 0xC00
  const EntryLen := 32
  const NameLen := 16

  datatype Offset = Missing | At(value: int)

  /** One parsed line of the CSV; a negative size stands for an end address. */
  datatype Line = Line(name: seq<byte>, kind: int, subtype: int, offset: Offset, size: int, encrypted: bool)

  datatype Entry = Entry(name: seq<byte>, kind: int, subtype: int, offset: int, size: int, encrypted: bool)

  function Alignment(kind: int): (a: int)
    ensures a > 0
  {
    if kind == AppType then 0x10000 else 4
  }

  // ---------------------------------------------------------------- layout

  function AlignUp(x: int, a: int): (y: int)
    requires a > 0
    ensures x <= y < x + a && y % a == 0
  {
    if x % a != 0 then NextMultiple(x, a); x + (a - x % a) else x
  }

  lemma NextMultiple(x: int, a: int)
    requires a > 0
    ensures (x + (a - x % a)) % a == 0
  {
    DivModUnique(x + (a - x % a), a, x / a + 1, 0);
  }

  function Placed(l: Line, lastEnd: int): Entry {
    var offset := if l.offset.Missing? then AlignUp(lastEnd, Alignment(l.kind)) else l.offset.value;
    Entry(l.name, l.kind, l.subtype, offset, if l.size < 0 then -l.size - offset else l.size, l.encrypted)
  }

  function End(e: Entry): int { e.offset + e.size }

  function LaidOut(lines: seq<Line>, lastEnd: int): seq<Entry> {
    if lines == [] then []
    else var e := Placed(lines[0], lastEnd); [e] + LaidOut(lines[1..], End(e))
  }

  /** One turn of the loop: the padding of a missing offset, and the size of an end address. */
  method Place(l: Line, lastEnd0: int) returns (e: Entry)
    ensures e == Placed(l, lastEnd0)
  {
    var lastEnd, offset := lastEnd0, 0;
    if l.offset.Missing? {
      var padTo := if l.kind == AppType then 0x10000 else 4;
      if lastEnd % padTo != 0 { lastEnd := lastEnd + (padTo - lastEnd % padTo); }
      offset := lastEnd;
    } else {
      offset := l.offset.value;
    }
    var size := if l.size < 0 then -l.size - offset else l.size;
    e := Entry(l.name, l.kind, l.subtype, offset, size, l.encrypted);
  }

  // ---------------------------------------------------------------- what a layout is

  /** `y` is the least multiple of `a` from `x` on. */
  predicate LeastMultiple(x: int, a: int, y: int)
    requires a > 0
  {
    x <= y < x + a && y % a == 0
  }

  /** What is kept of a line and what is filled in, if the entry before ends at `lastEnd`. */
  predicate Fills(l: Line, lastEnd: int, e: Entry) {
    && e.name == l.name && e.kind == l.kind && e.subtype == l.subtype && e.encrypted == l.encrypted
    && (match l.offset
        case At(value) => e.offset == value
        case Missing => LeastMultiple(lastEnd, if l.kind == 0 then 0x1_0000 else 4, e.offset))
    && (if l.size < 0 then e.offset + e.size == -l.size else e.size == l.size)
  }

  /** Where the entry before line `i` ends: at 0x5000 for the first. */
  function EndBefore(t: seq<Entry>, i: nat): int
    requires i <= |t|
  {
    if i == 0 then 0x5000 else t[i - 1].offset + t[i - 1].size
  }

  /** Every line is filled in behind the one before. */
  ghost predicate Layouts(lines: seq<Line>, t: seq<Entry>) {
    |t| == |lines| && forall i :: 0 <= i < |lines| ==> Fills(lines[i], EndBefore(t, i), t[i])
  }

  lemma PlacedFills(l: Line, lastEnd: int)
    ensures Fills(l, lastEnd, Placed(l, lastEnd))
  {
  }

  lemma {:induction false} LaidOutLength(lines: seq<Line>, lastEnd: int)
    ensures |LaidOut(lines, lastEnd)| == |lines|
    decreases |lines|
  {
    if lines != [] { LaidOutLength(lines[1..], End(Placed(lines[0], lastEnd))); }
  }

  lemma {:induction false} LaidOutFills(lines: seq<Line>, lastEnd: int, i: nat)
    requires i < |lines|
    ensures var t := LaidOut(lines, lastEnd);
            && |t| == |lines|
            && Fills(lines[i], if i == 0 then lastEnd else t[i - 1].offset + t[i - 1].size, t[i])
    decreases i
  {
    hide Placed, Fills;
    LaidOutLength(lines, lastEnd);
    PlacedFills(lines[0], lastEnd);
    if i > 0 { LaidOutFills(lines[1..], End(Placed(lines[0], lastEnd)), i - 1); }
  }

  lemma LayoutFills(lines: seq<Line>)
    ensures Layouts(lines, LaidOut(lines, 0x5000))
  {
    hide LaidOut, Fills;
    LaidOutLength(lines, 0x5000);
    forall i | 0 <= i < |lines|
      ensures Fills(lines[i], EndBefore(LaidOut(lines, 0x5000), i), LaidOut(lines, 0x5000)[i])
    {
      LaidOutFills(lines, 0x5000, i);
    }
  }

  /** PartitionTable.from_csv, after parsing: offsets and negative sizes are filled in one after the other. */
  method Layout(lines: seq<Line>) returns (table: seq<Entry>)
    ensures table == LaidOut(lines, FirstOffset) && Layouts(lines, table)
  {
    hide Placed, Layouts;
    LayoutFills(lines);
    var lastEnd := FirstOffset;
    table := [];
    assert lines[0..] == lines;
    for i := 0 to |lines|
      invariant table + LaidOut(lines[i..], lastEnd) == LaidOut(lines, FirstOffset)
    {
      assert lines[i..][0] == lines[i] && lines[i..][1..] == lines[i + 1..];
      var e := Place(lines[i], lastEnd);
      table := table + [e];
      lastEnd := e.offset + e.size;
    }
  }

  // ---------------------------------------------------------------- verification

  predicate AllAligned(t: seq<Entry>) {
    t == [] || (t[0].offset % Alignment(t[0].kind) == 0 && AllAligned(t[1..]))
  }

  predicate AllAbove(t: seq<Entry>) { t == [] || (t[0].offset >= FirstOffset && AllAbove(t[1..])) }

  predicate SizesAtLeast(t: seq<Entry>, n: int) { t == [] || (t[0].size >= n && SizesAtLeast(t[1..], n)) }

  /** Behind all entries with a smaller offset, before those with the same one. */
  function Insert(e: Entry, t: seq<Entry>): seq<Entry> {
    if t == [] || e.offset <= t[0].offset then [e] + t else [t[0]] + Insert(e, t[1..])
  }

  /** sorted(table, key=offset), which is stable. */
  function Sorted(t: seq<Entry>): seq<Entry> { if t == [] then [] else Insert(t[0], Sorted(t[1..])) }

  /** No entry starts before its neighbour on the left has ended. */
  predicate NeighboursApart(t: seq<Entry>) { |t| < 2 || (End(t[0]) <= t[1].offset && NeighboursApart(t[1..])) }

  predicate Accepted(t: seq<Entry>) { AllAligned(t) && AllAbove(t) && NeighboursApart(Sorted(t)) }

  datatype Verdict = Fine | Misaligned | TooLow | Overlapping

  /** The neighbour loop over the sorted table. */
  method CheckNeighbours(t: seq<Entry>) returns (v: Verdict)
    requires Ascending(t)
    ensures v == Fine <==> AllAbove(t) && NeighboursApart(t)
    ensures v == TooLow <==> !AllAbove(t)
    ensures v == Fine || v == TooLow || v == Overlapping
  {
    if t != [] && t[0].offset >= FirstOffset { AscendingAbove(t); }
    assert t[0..] == t;
    for i := 0 to |t|
      invariant AllAbove(t) <==> AllAbove(t[i..])
      invariant i > 0 ==> AllAbove(t) && (NeighboursApart(t) <==> NeighboursApart(t[i - 1..]))
    {
      assert t[i..][0] == t[i] && t[i..][1..] == t[i + 1..];
      if t[i].offset < FirstOffset { return TooLow; }
      if i > 0 {
        NeighbourStep(t, i);
        if t[i].offset < End(t[i - 1]) { return Overlapping; }
      }
    }
    return Fine;
  }

  lemma {:induction false} AscendingAbove(t: seq<Entry>)
    requires Ascending(t) && (t == [] || t[0].offset >= FirstOffset)
    ensures AllAbove(t)
  {
    if t != [] { AscendingAbove(t[1..]); }
  }

  lemma NeighbourStep(t: seq<Entry>, i: nat)
    requires 0 < i < |t|
    ensures NeighboursApart(t[i - 1..]) <==> End(t[i - 1]) <= t[i].offset && NeighboursApart(t[i..])
  {
    assert t[i - 1..][1..] == t[i..] && t[i - 1..][1] == t[i];
  }

  /** PartitionTable.verify */
  method Verify(t: seq<Entry>) returns (v: Verdict)
    ensures v == Fine <==> Accepted(t)
    ensures v == Misaligned <==> !AllAligned(t)
    ensures v == TooLow <==> AllAligned(t) && !AllAbove(t)
  {
    assert t[0..] == t;
    for i := 0 to |t|
      invariant AllAligned(t) <==> AllAligned(t[i..])
    {
      assert t[i..][1..] == t[i + 1..];
      if t[i].offset % Alignment(t[i].kind) != 0 { return Misaligned; }
    }
    SortedAbove(t);
    SortedAscends(t);
    v := CheckNeighbours(Sorted(t));
  }

  lemma {:induction false} InsertAbove(e: Entry, t: seq<Entry>)
    ensures AllAbove(Insert(e, t)) <==> e.offset >= FirstOffset && AllAbove(t)
  {
    if t != [] && e.offset > t[0].offset { InsertAbove(e, t[1..]); }
  }

  lemma {:induction false} SortedAbove(t: seq<Entry>)
    ensures AllAbove(Sorted(t)) <==> AllAbove(t)
  {
    if t != [] {
      SortedAbove(t[1..]);
      InsertAbove(t[0], Sorted(t[1..]));
    }
  }

  // ---------------------------------------------------------------- what acceptance means

  /** One entry ends before the other starts. */
  predicate Apart(a: Entry, b: Entry) { End(a) <= b.offset || End(b) <= a.offset }

  predicate ApartFromAll(e: Entry, t: seq<Entry>) { t == [] || (Apart(e, t[0]) && ApartFromAll(e, t[1..])) }

  predicate PairwiseApart(t: seq<Entry>) { t == [] || (ApartFromAll(t[0], t[1..]) && PairwiseApart(t[1..])) }

  predicate Ascending(t: seq<Entry>) { |t| < 2 || (t[0].offset <= t[1].offset && Ascending(t[1..])) }

  lemma {:induction false} InsertApartFrom(y: Entry, e: Entry, t: seq<Entry>)
    ensures ApartFromAll(y, Insert(e, t)) <==> Apart(y, e) && ApartFromAll(y, t)
  {
    hide Apart;
    if t != [] && e.offset > t[0].offset { InsertApartFrom(y, e, t[1..]); }
  }

  lemma {:induction false} InsertPairwise(e: Entry, t: seq<Entry>)
    ensures PairwiseApart(Insert(e, t)) <==> ApartFromAll(e, t) && PairwiseApart(t)
  {
    if t != [] && e.offset > t[0].offset {
      InsertPairwise(e, t[1..]);
      InsertApartFrom(t[0], e, t[1..]);
    }
  }

  lemma {:induction false} SortedApartFrom(y: Entry, t: seq<Entry>)
    ensures ApartFromAll(y, Sorted(t)) <==> ApartFromAll(y, t)
  {
    if t != [] {
      SortedApartFrom(y, t[1..]);
      InsertApartFrom(y, t[0], Sorted(t[1..]));
    }
  }

  /** Whether entries overlap does not depend on their order. */
  lemma {:induction false} SortedPairwise(t: seq<Entry>)
    ensures PairwiseApart(Sorted(t)) <==> PairwiseApart(t)
  {
    if t != [] {
      SortedPairwise(t[1..]);
      SortedApartFrom(t[0], t[1..]);
      InsertPairwise(t[0], Sorted(t[1..]));
    }
  }

  lemma {:induction false} InsertSizes(e: Entry, t: seq<Entry>, n: int)
    ensures SizesAtLeast(Insert(e, t), n) <==> e.size >= n && SizesAtLeast(t, n)
  {
    if t != [] && e.offset > t[0].offset { InsertSizes(e, t[1..], n); }
  }

  lemma {:induction false} SortedSizes(t: seq<Entry>, n: int)
    ensures SizesAtLeast(Sorted(t), n) <==> SizesAtLeast(t, n)
  {
    if t != [] {
      SortedSizes(t[1..], n);
      InsertSizes(t[0], Sorted(t[1..]), n);
    }
  }

  lemma {:induction false} InsertAscends(e: Entry, t: seq<Entry>)
    requires Ascending(t)
    ensures Ascending(Insert(e, t))
    ensures Insert(e, t)[0].offset == if t == [] || e.offset <= t[0].offset then e.offset else t[0].offset
  {
    if t != [] && e.offset > t[0].offset { InsertAscends(e, t[1..]); }
  }

  lemma {:induction false} SortedAscends(t: seq<Entry>)
    ensures Ascending(Sorted(t))
  {
    if t != [] {
      SortedAscends(t[1..]);
      InsertAscends(t[0], Sorted(t[1..]));
    }
  }

  /** In a table without neighbours that overlap, the first entry ends before every other starts. */
  lemma {:induction false} EndsBeforeAll(e: Entry, t: seq<Entry>)
    requires NeighboursApart(t) && SizesAtLeast(t, 0) && (t == [] || End(e) <= t[0].offset)
    ensures ApartFromAll(e, t)
  {
    if t != [] { EndsBeforeAll(e, t[1..]); }
  }

  lemma {:induction false} NeighboursSuffice(t: seq<Entry>)
    requires SizesAtLeast(t, 0) && NeighboursApart(t)
    ensures PairwiseApart(t)
  {
    if t != [] {
      EndsBeforeAll(t[0], t[1..]);
      NeighboursSuffice(t[1..]);
    }
  }

  lemma {:induction false} PairwiseGivesNeighbours(t: seq<Entry>)
    requires Ascending(t) && SizesAtLeast(t, 1) && PairwiseApart(t)
    ensures NeighboursApart(t)
  {
    if |t| >= 2 { PairwiseGivesNeighbours(t[1..]); }
  }

  lemma {:induction false} SizesWeaken(t: seq<Entry>)
    requires SizesAtLeast(t, 1)
    ensures SizesAtLeast(t, 0)
  {
    if t != [] { SizesWeaken(t[1..]); }
  }

  /** Checking sorted neighbours is checking all pairs: sound for sizes from zero up, exact for positive sizes. */
  lemma AcceptanceMeansApart(t: seq<Entry>)
    ensures SizesAtLeast(t, 0) && Accepted(t) ==> AllAligned(t) && AllAbove(t) && PairwiseApart(t)
    ensures SizesAtLeast(t, 1) ==> (Accepted(t) <==> AllAligned(t) && AllAbove(t) && PairwiseApart(t))
  {
    SortedPairwise(t);
    SortedSizes(t, 0);
    SortedSizes(t, 1);
    SortedAscends(t);
    if SizesAtLeast(t, 0) && Accepted(t) { NeighboursSuffice(Sorted(t)); }
    if SizesAtLeast(t, 1) {
      SizesWeaken(t);
      if PairwiseApart(t) { PairwiseGivesNeighbours(Sorted(t)); }
    }
  }

  /** What is asked of each entry by itself. */
  predicate Sound(e: Entry) { e.offset >= 0x5000 && e.offset % (if e.kind == 0 then 0x1_0000 else 4) == 0 }

  lemma {:induction false} AllSound(t: seq<Entry>)
    ensures AllAligned(t) && AllAbove(t) <==> forall i :: 0 <= i < |t| ==> Sound(t[i])
  {
    if t != [] {
      AllSound(t[1..]);
      assert forall i :: 0 < i < |t| ==> t[i] == t[1..][i - 1];
    }
  }

  /** The bytes of two entries do not meet. */
  predicate Disjoint(a: Entry, b: Entry) { a.offset + a.size <= b.offset || b.offset + b.size <= a.offset }

  lemma {:induction false} ApartFromEach(e: Entry, t: seq<Entry>)
    ensures ApartFromAll(e, t) <==> forall i :: 0 <= i < |t| ==> Disjoint(e, t[i])
  {
    if t != [] {
      ApartFromEach(e, t[1..]);
      assert forall i :: 0 < i < |t| ==> t[i] == t[1..][i - 1];
    }
  }

  lemma {:induction false} EachPairApart(t: seq<Entry>)
    ensures PairwiseApart(t) <==> forall i, j :: 0 <= i < j < |t| ==> Disjoint(t[i], t[j])
  {
    hide Disjoint;
    if t != [] {
      ApartFromEach(t[0], t[1..]);
      EachPairApart(t[1..]);
      assert forall i :: 0 < i < |t| ==> t[i] == t[1..][i - 1];
    }
  }

  // ---------------------------------------------------------------- layouts that verify

  /** Offsets that are given are aligned and past what stands before them, and every size comes out at least zero. */
  predicate Follows(lines: seq<Line>, lastEnd: int) {
    lines == [] ||
    var e := Placed(lines[0], lastEnd);
    e.size >= 0 && (lines[0].offset.At? ==> e.offset >= lastEnd && e.offset % Alignment(e.kind) == 0)
        && Follows(lines[1..], End(e))
  }

  predicate OffsetsOmitted(lines: seq<Line>) {
    lines == [] || (lines[0].offset.Missing? && lines[0].size >= 0 && OffsetsOmitted(lines[1..]))
  }

  lemma {:induction false} OmittedFollows(lines: seq<Line>, lastEnd: int)
    requires OffsetsOmitted(lines)
    ensures Follows(lines, lastEnd)
    decreases |lines|
  {
    if lines != [] { OmittedFollows(lines[1..], End(Placed(lines[0], lastEnd))); }
  }

  lemma {:induction false} FollowsInOrder(lines: seq<Line>, lastEnd: int)
    requires Follows(lines, lastEnd) && lastEnd >= FirstOffset
    ensures var t := LaidOut(lines, lastEnd);
            && AllAligned(t) && AllAbove(t) && NeighboursApart(t) && SizesAtLeast(t, 0)
            && (t == [] || lastEnd <= t[0].offset)
    decreases |lines|
  {
    if lines != [] { FollowsInOrder(lines[1..], End(Placed(lines[0], lastEnd))); }
  }

  lemma {:induction false} AlreadySorted(t: seq<Entry>)
    requires NeighboursApart(t) && SizesAtLeast(t, 0)
    ensures Sorted(t) == t
  {
    if t != [] { AlreadySorted(t[1..]); }
  }

  /** A table whose offsets are all omitted, or given in order, is laid out so that verification accepts it. */
  lemma LayoutAccepted(lines: seq<Line>)
    ensures Follows(lines, FirstOffset) ==> Accepted(LaidOut(lines, FirstOffset))
    ensures OffsetsOmitted(lines) ==> Follows(lines, FirstOffset)
  {
    if Follows(lines, FirstOffset) {
      FollowsInOrder(lines, FirstOffset);
      AlreadySorted(LaidOut(lines, FirstOffset));
    }
    if OffsetsOmitted(lines) { OmittedFollows(lines, FirstOffset); }
  }
}
