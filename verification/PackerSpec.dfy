/** What the ESP32 image packer promises about the pieces it writes. */
module PackerSpec {
  import opened BitwiseXor
  import opened IntBytes
  import opened ImageFormat

  const IromAlign := 65536

  /** The offset in a 64 KiB page: the remainder (ResidueIsMod), counted down page by page so that congruence can
      be passed on without division. */
  function Residue(n: nat): (r: nat)
    ensures r < IromAlign
  {
    if n < IromAlign then n else Residue(n - IromAlign)
  }

  predicate Congruent(a: nat, b: nat) { Residue(a) == Residue(b) }

  lemma {:induction false} ResidueIsMod(n: nat)
    ensures Residue(n) == n % IromAlign
  {
    if n >= IromAlign { ResidueIsMod(n - IromAlign); }
  }

  lemma CongruentIsMod(a: nat, b: nat)
    ensures Congruent(a, b) <==> a % IromAlign == b % IromAlign
  {
    ResidueIsMod(a);
    ResidueIsMod(b);
  }

  predicate IsFlashAddr(addr: nat) {
    0x400d0000 <= addr < 0x40400000 || 0x3F400000 <= addr < 0x3F800000
  }

  /** The first and last addresses of the two flash windows, and their neighbours. */
  lemma FlashWindows(addr: nat)
    ensures addr in {0x400D_0000, 0x403F_FFFF, 0x3F40_0000, 0x3F7F_FFFF} ==> IsFlashAddr(addr)
    ensures addr in {0x400C_FFFF, 0x4040_0000, 0x3F3F_FFFF, 0x3F80_0000} ==> !IsFlashAddr(addr)
  {
  }

  // ---------------------------------------------------------------- memory images

  /** How often the segment puts value `v` at address `a`: once or never. */
  function Fills(s: Segment, a: nat, v: byte): nat {
    if s.addr <= a < s.addr + |s.data| && s.data[a - s.addr] == v then 1 else 0
  }

  /** How often a list of segments puts `v` at `a`: as a function of `a` and `v`, its memory image. */
  function Count(segs: seq<Segment>, a: nat, v: byte): nat {
    if segs == [] then 0 else Count(segs[..|segs| - 1], a, v) + Fills(segs[|segs| - 1], a, v)
  }

  /** The bytes of all segments, in order. */
  function AllData(segs: seq<Segment>): seq<byte> {
    if segs == [] then [] else AllData(segs[..|segs| - 1]) + segs[|segs| - 1].data
  }

  lemma {:induction false} CountAppend(x: seq<Segment>, y: seq<Segment>, a: nat, v: byte)
    ensures Count(x + y, a, v) == Count(x, a, v) + Count(y, a, v)
    decreases |y|
  {
    if y == [] {
      assert x + y == x;
    } else {
      CountAppend(x, y[..|y| - 1], a, v);
      assert (x + y)[..|x + y| - 1] == x + y[..|y| - 1];
    }
  }

  lemma {:induction false} AllDataAppend(x: seq<Segment>, y: seq<Segment>)
    ensures AllData(x + y) == AllData(x) + AllData(y)
    decreases |y|
  {
    if y == [] {
      assert x + y == x;
    } else {
      AllDataAppend(x, y[..|y| - 1]);
      assert (x + y)[..|x + y| - 1] == x + y[..|y| - 1];
    }
  }

  lemma Single(s: Segment, a: nat, v: byte)
    ensures Count([s], a, v) == Fills(s, a, v) && AllData([s]) == s.data
  {
    assert [s][..0] == [];
  }

  // ---------------------------------------------------------------- sorting

  function Insert(s: Segment, segs: seq<Segment>): (r: seq<Segment>)
    ensures |r| == |segs| + 1
  {
    if segs == [] || s.addr < segs[0].addr then [s] + segs else [segs[0]] + Insert(s, segs[1..])
  }

  /** sorted(segments, key=addr): stable, so equal addresses keep their order. */
  function SortByAddr(segs: seq<Segment>): (r: seq<Segment>)
    ensures |r| == |segs|
  {
    if segs == [] then [] else Insert(segs[|segs| - 1], SortByAddr(segs[..|segs| - 1]))
  }

  function Select(segs: seq<Segment>, flash: bool): seq<Segment> {
    if segs == [] then []
    else if IsFlashAddr(segs[0].addr) == flash then [segs[0]] + Select(segs[1..], flash)
    else Select(segs[1..], flash)
  }

  predicate Sorted(segs: seq<Segment>) { forall i, j :: 0 <= i < j < |segs| ==> segs[i].addr <= segs[j].addr }

  lemma {:induction false} InsertSorted(s: Segment, segs: seq<Segment>)
    ensures forall x :: x in Insert(s, segs) <==> x == s || x in segs
    ensures Sorted(segs) ==> Sorted(Insert(s, segs))
  {
    if segs != [] && s.addr >= segs[0].addr {
      var rest := segs[1..];
      InsertSorted(s, rest);
      assert segs == [segs[0]] + rest;
      if Sorted(segs) {
        assert Sorted(rest);
        forall x | x in Insert(s, rest) ensures segs[0].addr <= x.addr {
          if x != s { assert x in rest; }
        }
        assert Insert(s, segs) == [segs[0]] + Insert(s, rest);
      }
    }
  }

  lemma {:induction false} SortSorted(segs: seq<Segment>)
    ensures forall x :: x in SortByAddr(segs) <==> x in segs
    ensures Sorted(SortByAddr(segs))
  {
    if segs != [] {
      var n := |segs| - 1;
      SortSorted(segs[..n]);
      InsertSorted(segs[n], SortByAddr(segs[..n]));
      assert segs == segs[..n] + [segs[n]];
    }
  }

  lemma {:induction false} SelectSorted(segs: seq<Segment>, b: bool)
    ensures forall x :: x in Select(segs, b) <==> x in segs && IsFlashAddr(x.addr) == b
    ensures Sorted(segs) ==> Sorted(Select(segs, b))
  {
    if segs != [] {
      SelectSorted(segs[1..], b);
      assert segs == [segs[0]] + segs[1..];
      assert Sorted(segs) ==> Sorted(segs[1..]);
    }
  }

  /** A list and one segment in front of it. */
  lemma Cons(s: Segment, segs: seq<Segment>, a: nat, v: byte)
    ensures Count([s] + segs, a, v) == Fills(s, a, v) + Count(segs, a, v)
    ensures AllData([s] + segs) == s.data + AllData(segs)
  {
    Single(s, a, v);
    CountAppend([s], segs, a, v);
    AllDataAppend([s], segs);
  }

  lemma {:induction false} InsertKeeps(s: Segment, segs: seq<Segment>, a: nat, v: byte)
    ensures Count(Insert(s, segs), a, v) == Fills(s, a, v) + Count(segs, a, v)
    ensures multiset(AllData(Insert(s, segs))) == multiset(s.data) + multiset(AllData(segs))
  {
    if segs == [] || s.addr < segs[0].addr {
      Cons(s, segs, a, v);
    } else {
      InsertKeeps(s, segs[1..], a, v);
      Cons(segs[0], Insert(s, segs[1..]), a, v);
      Cons(segs[0], segs[1..], a, v);
      assert segs == [segs[0]] + segs[1..];
    }
  }

  /** Sorting keeps the memory image and the bytes. */
  lemma {:induction false} SortKeeps(segs: seq<Segment>, a: nat, v: byte)
    ensures Count(SortByAddr(segs), a, v) == Count(segs, a, v)
    ensures multiset(AllData(SortByAddr(segs))) == multiset(AllData(segs))
  {
    if segs != [] {
      var n := |segs| - 1;
      SortKeeps(segs[..n], a, v);
      InsertKeeps(segs[n], SortByAddr(segs[..n]), a, v);
    }
  }

  /** So does telling flash segments from RAM segments. */
  lemma {:induction false} SelectKeeps(segs: seq<Segment>, a: nat, v: byte)
    ensures Count(segs, a, v) == Count(Select(segs, true), a, v) + Count(Select(segs, false), a, v)
    ensures multiset(AllData(segs)) == multiset(AllData(Select(segs, true))) + multiset(AllData(Select(segs, false)))
  {
    if segs != [] {
      var s, rest := segs[0], segs[1..];
      assert segs == [s] + rest;
      SelectKeeps(rest, a, v);
      Cons(s, rest, a, v);
      Cons(s, Select(rest, IsFlashAddr(s.addr)), a, v);
    }
  }

  // ---------------------------------------------------------------- checksums

  lemma {:induction false} ChecksumAppend(state: byte, a: seq<byte>, b: seq<byte>)
    ensures Checksum(state, a + b) == Checksum(Checksum(state, a), b)
    decreases |b|
  {
    if b == [] {
      assert a + b == a;
    } else {
      ChecksumAppend(state, a, b[..|b| - 1]);
      assert (a + b)[..|a + b| - 1] == a + b[..|b| - 1];
    }
  }

  lemma {:induction false} ChecksumFlat(state: byte, segs: seq<Segment>)
    ensures ChecksumAll(state, segs) == Checksum(state, AllData(segs))
  {
    if segs != [] {
      var n := |segs| - 1;
      ChecksumFlat(state, segs[..n]);
      ChecksumAppend(state, AllData(segs[..n]), segs[n].data);
    }
  }

  /** A byte may be folded in first or last. */
  lemma {:induction false} ChecksumFirst(state: byte, b: byte, data: seq<byte>)
    ensures Checksum(XorByte(state, b), data) == XorByte(Checksum(state, data), b)
  {
    if data != [] {
      var n := |data| - 1;
      var c := Checksum(state, data[..n]);
      ChecksumFirst(state, b, data[..n]);
      XorAssociates(c, b, data[n]);
      XorAssociates(c, data[n], b);
      XorCommutes(b, data[n]);
    }
  }

  lemma ChecksumRemove(state: byte, data: seq<byte>, i: nat)
    requires i < |data|
    ensures Checksum(state, data) == XorByte(Checksum(state, data[..i] + data[i + 1..]), data[i])
  {
    var a, x, b := data[..i], data[i], data[i + 1..];
    var c := Checksum(state, a);
    assert data == a + [x] + b;
    assert Checksum(state, a + [x]) == XorByte(c, x) by { assert (a + [x])[..i] == a; }
    ChecksumAppend(state, a + [x], b);
    ChecksumFirst(c, x, b);
    ChecksumAppend(state, a, b);
  }

  lemma OccursIn(s: seq<byte>, t: seq<byte>) returns (i: nat)
    requires s != [] && multiset(s) == multiset(t)
    ensures i < |t| && t[i] == s[|s| - 1] && multiset(s[..|s| - 1]) == multiset(t[..i] + t[i + 1..])
  {
    var n := |s| - 1;
    assert s == s[..n] + [s[n]];
    assert s[n] in multiset(t);
    i :| 0 <= i < |t| && t[i] == s[n];
    assert t == t[..i] + [t[i]] + t[i + 1..];
    assert multiset(s[..n]) == multiset(s) - multiset{s[n]};
  }

  /** The checksum depends only on which bytes there are, not on their order. */
  lemma {:induction false} ChecksumPermutation(state: byte, s: seq<byte>, t: seq<byte>)
    requires multiset(s) == multiset(t)
    ensures Checksum(state, s) == Checksum(state, t)
    decreases |s|
  {
    if s == [] {
      assert |multiset(t)| == 0;
    } else {
      var n := |s| - 1;
      var i := OccursIn(s, t);
      ChecksumPermutation(state, s[..n], t[..i] + t[i + 1..]);
      ChecksumRemove(state, t, i);
    }
  }

  lemma {:induction false} ChecksumZeros(state: byte, n: nat)
    ensures Checksum(state, Zeros(n)) == state
    decreases n
  {
    if n > 0 {
      assert Zeros(n)[..n - 1] == Zeros(n - 1);
      ChecksumZeros(state, n - 1);
      XorZero(state);
    }
  }

  lemma {:induction false} PaddedSnoc(segs: seq<Segment>, s: Segment)
    ensures Padded(segs + [s]) == Padded(segs) + [PaddedSegment(s)]
    decreases |segs|
  {
    hide PaddedSegment;
    if segs == [] {
      assert segs + [s] == [s] && [s][1..] == [];
    } else {
      assert (segs + [s])[1..] == segs[1..] + [s];
      PaddedSnoc(segs[1..], s);
    }
  }

  /** The zeros that the loader pads with leave the checksum as it is. */
  lemma {:induction false} ChecksumPadded(state: byte, segs: seq<Segment>)
    ensures ChecksumAll(state, Padded(segs)) == ChecksumAll(state, segs)
  {
    hide Padded, Checksum, PadToWord;
    if segs == [] {
      assert Padded([]) == [];
    } else {
      var n, s := |segs| - 1, segs[|segs| - 1];
      var before := Padded(segs[..n]);
      ChecksumPadded(state, segs[..n]);
      assert segs == segs[..n] + [s];
      PaddedSnoc(segs[..n], s);
      assert (before + [PaddedSegment(s)])[..n] == before;
      PadIsZeros(s.data);
      ChecksumAppend(ChecksumAll(state, before), s.data, Zeros(|PadToWord(s.data)| - |s.data|));
      ChecksumZeros(Checksum(ChecksumAll(state, before), s.data), |PadToWord(s.data)| - |s.data|);
    }
  }

  lemma PadIsZeros(d: seq<byte>)
    ensures PadToWord(d) == d + Zeros(|PadToWord(d)| - |d|)
  {
    if |d| % 4 == 0 { assert d + Zeros(0) == d; }
  }

  // ---------------------------------------------------------------- pieces of a packed image

  datatype Kind = Flash | Ram | Padding

  /** One segment as written to the file: a flash segment, part of a RAM segment, or zero padding. */
  datatype Piece = Piece(kind: Kind, seg: Segment)

  function Segs(pieces: seq<Piece>): (segs: seq<Segment>)
    ensures |segs| == |pieces|
  {
    if pieces == [] then [] else Segs(pieces[..|pieces| - 1]) + [pieces[|pieces| - 1].seg]
  }

  function OfKind(pieces: seq<Piece>, kind: Kind): seq<Segment> {
    if pieces == [] then [] else
    var n := |pieces| - 1;
    OfKind(pieces[..n], kind) + if pieces[n].kind == kind then [pieces[n].seg] else []
  }

  /** File position after the pieces. */
  function EndPos(pieces: seq<Piece>): nat {
    if pieces == [] then HeaderLen else EndPos(pieces[..|pieces| - 1]) + SegHeaderLen + |pieces[|pieces| - 1].seg.data|
  }

  /** Every flash segment's data starts at a file offset congruent to its address modulo 64 KiB (see FlashAlignedAt). */
  ghost predicate FlashAligned(pieces: seq<Piece>) {
    pieces == [] ||
    var n := |pieces| - 1;
    FlashAligned(pieces[..n]) && (pieces[n].kind.Flash? ==>
        Congruent(EndPos(pieces[..n]) + SegHeaderLen, pieces[n].seg.addr))
  }

  lemma {:induction false} FlashAlignedAt(pieces: seq<Piece>, i: nat)
    requires FlashAligned(pieces) && i < |pieces| && pieces[i].kind.Flash?
    ensures (EndPos(pieces[..i]) + SegHeaderLen) % IromAlign == pieces[i].seg.addr % IromAlign
    decreases |pieces|
  {
    var n := |pieces| - 1;
    if i < n {
      FlashAlignedAt(pieces[..n], i);
      assert pieces[..n][..i] == pieces[..i];
    } else {
      CongruentIsMod(EndPos(pieces[..n]) + SegHeaderLen, pieces[n].seg.addr);
    }
  }

  /** Pieces fit 32-bit addresses, and padding is zeros at address 0. */
  predicate PieceOk(p: Piece) {
    p.seg.Fits32() && (p.kind.Padding? ==> p.seg == Segment(0, Zeros(|p.seg.data|)))
  }

  predicate PiecesOk(pieces: seq<Piece>) {
    pieces == [] || (PiecesOk(pieces[..|pieces| - 1]) && PieceOk(pieces[|pieces| - 1]))
  }

  lemma {:induction false} PaddingAt(pieces: seq<Piece>, i: nat)
    requires PiecesOk(pieces) && i < |pieces| && pieces[i].kind.Padding?
    ensures pieces[i].seg.addr == 0 && forall k :: 0 <= k < |pieces[i].seg.data| ==> pieces[i].seg.data[k] == 0
    decreases |pieces|
  {
    if i < |pieces| - 1 { PaddingAt(pieces[..|pieces| - 1], i); }
  }

  /** The RAM pieces are the RAM segments, cut but otherwise in order: the same bytes in the same
      sequence, at the same addresses. */
  ghost predicate SameRam(pieces: seq<Segment>, ram: seq<Segment>) {
    AllData(pieces) == AllData(ram) && forall a, v :: Count(pieces, a, v) == Count(ram, a, v)
  }

  /** What packing `segments` into `pieces` must achieve. */
  ghost predicate Packed(segments: seq<Segment>, pieces: seq<Piece>) {
    var sorted := SortByAddr(segments);
    && FlashAligned(pieces) && PiecesOk(pieces)
    && OfKind(pieces, Flash) == Select(sorted, true)
    && SameRam(OfKind(pieces, Ram), Select(sorted, false))
  }

  lemma AppendedSegs(pieces: seq<Piece>, p: Piece)
    ensures Segs(pieces + [p]) == Segs(pieces) + [p.seg]
    ensures EndPos(pieces + [p]) == EndPos(pieces) + SegHeaderLen + |p.seg.data|
  {
    assert (pieces + [p])[..|pieces|] == pieces;
  }

  lemma AppendedKind(pieces: seq<Piece>, p: Piece, kind: Kind)
    ensures OfKind(pieces + [p], kind)
         == if p.kind == kind then OfKind(pieces, kind) + [p.seg] else OfKind(pieces, kind)
  {
    assert (pieces + [p])[..|pieces|] == pieces;
    assert OfKind(pieces, kind) + [] == OfKind(pieces, kind);
  }

  lemma AppendedOk(pieces: seq<Piece>, p: Piece)
    requires PiecesOk(pieces) && PieceOk(p)
    requires FlashAligned(pieces) && (p.kind.Flash? ==> Congruent(EndPos(pieces) + SegHeaderLen, p.seg.addr))
    ensures FlashAligned(pieces + [p]) && PiecesOk(pieces + [p])
  {
    assert (pieces + [p])[..|pieces|] == pieces;
  }

  lemma {:induction false} FitSnoc(segs: seq<Segment>, s: Segment)
    ensures AllFit(segs + [s]) <==> AllFit(segs) && s.Fits32()
    ensures AllWords(segs + [s]) <==> AllWords(segs) && Words(|s.data|)
    decreases |segs|
  {
    if segs == [] {
      assert segs + [s] == [s] && [s][1..] == [];
    } else {
      assert (segs + [s])[1..] == segs[1..] + [s];
      FitSnoc(segs[1..], s);
    }
  }

  lemma {:induction false} SegsFit(pieces: seq<Piece>)
    requires PiecesOk(pieces)
    ensures AllFit(Segs(pieces))
  {
    if pieces != [] {
      var n := |pieces| - 1;
      SegsFit(pieces[..n]);
      FitSnoc(Segs(pieces[..n]), pieces[n].seg);
    }
  }

  lemma {:induction false} EndPosIsLength(pieces: seq<Piece>)
    ensures EndPos(pieces) == HeaderLen + |Body(Segs(pieces))|
  {
    if pieces != [] {
      var n := |pieces| - 1;
      EndPosIsLength(pieces[..n]);
      BodySnoc(Segs(pieces[..n]), pieces[n].seg);
    }
  }

  lemma BodySnoc(segs: seq<Segment>, s: Segment)
    ensures Body(segs + [s]) == Body(segs) + SegmentBytes(s)
  {
    var parts := seq(|segs|, i requires 0 <= i < |segs| => SegmentBytes(segs[i]));
    var all := segs + [s];
    var allParts := seq(|all|, i requires 0 <= i < |all| => SegmentBytes(all[i]));
    assert allParts == parts + [SegmentBytes(s)];
    assert allParts[..|segs|] == parts;
  }

  lemma Snoc(segs: seq<Segment>, s: Segment, a: nat, v: byte)
    ensures Count(segs + [s], a, v) == Count(segs, a, v) + Fills(s, a, v)
    ensures AllData(segs + [s]) == AllData(segs) + s.data
  {
    assert (segs + [s])[..|segs|] == segs;
  }

  lemma OfKindLast(pieces: seq<Piece>, kind: Kind, a: nat, v: byte)
    requires pieces != []
    ensures var n, p := |pieces| - 1, pieces[|pieces| - 1];
            && Count(OfKind(pieces, kind), a, v)
                == Count(OfKind(pieces[..n], kind), a, v) + (if p.kind == kind then Fills(p.seg, a, v) else 0)
            && AllData(OfKind(pieces, kind))
                == AllData(OfKind(pieces[..n], kind)) + (if p.kind == kind then p.seg.data else [])
  {
    var n, p := |pieces| - 1, pieces[|pieces| - 1];
    if p.kind == kind {
      Snoc(OfKind(pieces[..n], kind), p.seg, a, v);
    } else {
      assert OfKind(pieces[..n], kind) + [] == OfKind(pieces[..n], kind);
      assert AllData(OfKind(pieces[..n], kind)) + [] == AllData(OfKind(pieces[..n], kind));
    }
  }

  /** The memory image of the pieces is that of each kind of piece together. */
  lemma {:induction false} CountByKind(pieces: seq<Piece>, a: nat, v: byte)
    ensures Count(Segs(pieces), a, v)
         == Count(OfKind(pieces, Flash), a, v) + Count(OfKind(pieces, Ram), a, v) + Count(OfKind(pieces, Padding), a, v)
  {
    if pieces != [] {
      var n, p := |pieces| - 1, pieces[|pieces| - 1];
      CountByKind(pieces[..n], a, v);
      Snoc(Segs(pieces[..n]), p.seg, a, v);
      OfKindLast(pieces, Flash, a, v);
      OfKindLast(pieces, Ram, a, v);
      OfKindLast(pieces, Padding, a, v);
    }
  }

  function DataOf(pieces: seq<Piece>, kind: Kind): seq<byte> { AllData(OfKind(pieces, kind)) }

  lemma {:induction false} BytesByKind(pieces: seq<Piece>)
    ensures multiset(AllData(Segs(pieces)))
            == multiset(DataOf(pieces, Flash)) + multiset(DataOf(pieces, Ram)) + multiset(DataOf(pieces, Padding))
  {
    if pieces != [] {
      var n, p := |pieces| - 1, pieces[|pieces| - 1];
      BytesByKind(pieces[..n]);
      Snoc(Segs(pieces[..n]), p.seg, 0, 0);
      OfKindLast(pieces, Flash, 0, 0);
      OfKindLast(pieces, Ram, 0, 0);
      OfKindLast(pieces, Padding, 0, 0);
      AddBytes(DataOf(pieces[..n], Flash), DataOf(pieces[..n], Ram), DataOf(pieces[..n], Padding), p.seg.data);
    }
  }

  lemma AddBytes(x: seq<byte>, y: seq<byte>, z: seq<byte>, d: seq<byte>)
    ensures multiset(x) + multiset(y) + multiset(z) + multiset(d) == multiset(x + d) + multiset(y) + multiset(z)
    ensures multiset(x) + multiset(y) + multiset(z) + multiset(d) == multiset(x) + multiset(y + d) + multiset(z)
    ensures multiset(x) + multiset(y) + multiset(z) + multiset(d) == multiset(x) + multiset(y) + multiset(z + d)
    ensures multiset(x + []) == multiset(x) && multiset(y + []) == multiset(y) && multiset(z + []) == multiset(z)
  {
    assert x + [] == x && y + [] == y && z + [] == z;
  }

  lemma {:induction false} PaddingIsZeros(pieces: seq<Piece>)
    requires PiecesOk(pieces)
    ensures DataOf(pieces, Padding) == Zeros(|DataOf(pieces, Padding)|)
  {
    if pieces != [] {
      var n, p := |pieces| - 1, pieces[|pieces| - 1];
      PaddingIsZeros(pieces[..n]);
      OfKindLast(pieces, Padding, 0, 0);
      if p.kind.Padding? { assert p.seg.data == Zeros(|p.seg.data|); }
    }
  }

  /** Packing keeps the memory image: apart from the padding, the pieces put every value at every
      address exactly as often as the original segments do. */
  lemma PackingKeepsImage(segments: seq<Segment>, pieces: seq<Piece>, a: nat, v: byte)
    requires Packed(segments, pieces)
    ensures Count(Segs(pieces), a, v) - Count(OfKind(pieces, Padding), a, v) == Count(segments, a, v)
  {
    CountByKind(pieces, a, v);
    SortKeeps(segments, a, v);
    SelectKeeps(SortByAddr(segments), a, v);
  }

  /** The stored checksum is 0xEF XOR every original data byte, in the order of the original segments. */
  lemma PackingKeepsChecksum(segments: seq<Segment>, pieces: seq<Piece>)
    requires Packed(segments, pieces)
    ensures ChecksumAll(ChecksumMagic, Segs(pieces)) == ChecksumAll(ChecksumMagic, segments)
  {
    var sorted, pad := SortByAddr(segments), DataOf(pieces, Padding);
    BytesByKind(pieces);
    PaddingIsZeros(pieces);
    SortKeeps(segments, 0, 0);
    SelectKeeps(sorted, 0, 0);
    assert multiset(AllData(Segs(pieces))) == multiset(AllData(segments) + pad);
    ChecksumFlat(ChecksumMagic, Segs(pieces));
    ChecksumFlat(ChecksumMagic, segments);
    ChecksumPermutation(ChecksumMagic, AllData(Segs(pieces)), AllData(segments) + pad);
    ChecksumAppend(ChecksumMagic, AllData(segments), pad);
    ChecksumZeros(ChecksumAll(ChecksumMagic, segments), |pad|);
  }

  // ---------------------------------------------------------------- stable sorting

  /** The segments at one address, in their order. */
  function AtAddr(segs: seq<Segment>, addr: nat): seq<Segment> {
    if segs == [] then []
    else AtAddr(segs[..|segs| - 1], addr) + if segs[|segs| - 1].addr == addr then [segs[|segs| - 1]] else []
  }

  lemma {:induction false} AtAddrAppend(x: seq<Segment>, y: seq<Segment>, addr: nat)
    ensures AtAddr(x + y, addr) == AtAddr(x, addr) + AtAddr(y, addr)
    decreases |y|
  {
    if y == [] {
      assert x + y == x;
    } else {
      AtAddrAppend(x, y[..|y| - 1], addr);
      assert (x + y)[..|x + y| - 1] == x + y[..|y| - 1];
    }
  }

  lemma InFront(s: Segment, segs: seq<Segment>, addr: nat)
    requires Sorted(segs) && segs != [] && s.addr < segs[0].addr
    ensures AtAddr([s] + segs, addr) == AtAddr(segs, addr) + if s.addr == addr then [s] else []
  {
    hide AtAddr;
    OneAtAddr(s, addr);
    AtAddrAppend([s], segs, addr);
    if s.addr == addr {
      forall x | x in segs ensures x.addr != addr {
        var i :| 0 <= i < |segs| && segs[i] == x;
        assert i > 0 ==> segs[0].addr <= segs[i].addr;
      }
      NoneAtAddr(segs, addr);
    }
  }

  lemma {:induction false} InsertStable(s: Segment, segs: seq<Segment>, addr: nat)
    requires Sorted(segs)
    ensures AtAddr(Insert(s, segs), addr) == AtAddr(segs, addr) + if s.addr == addr then [s] else []
    decreases |segs|
  {
    hide AtAddr, Sorted;
    if segs == [] {
      OneAtAddr(s, addr);
      assert [s] + segs == [s] && AtAddr([], addr) == [] by { NoneAtAddr([], addr); }
    } else if s.addr < segs[0].addr {
      InFront(s, segs, addr);
    } else {
      var rest := segs[1..];
      assert Sorted(rest) by { SortedRest(segs); }
      InsertStable(s, rest, addr);
      AtAddrAppend([segs[0]], Insert(s, rest), addr);
      AtAddrAppend([segs[0]], rest, addr);
      assert segs == [segs[0]] + rest;
    }
  }

  lemma SortedRest(segs: seq<Segment>)
    requires Sorted(segs) && segs != []
    ensures Sorted(segs[1..])
  {
  }

  lemma OneAtAddr(s: Segment, addr: nat)
    ensures AtAddr([s], addr) == if s.addr == addr then [s] else []
  {
    assert [s][..0] == [];
  }

  lemma {:induction false} NoneAtAddr(segs: seq<Segment>, addr: nat)
    requires forall x :: x in segs ==> x.addr != addr
    ensures AtAddr(segs, addr) == []
  {
    if segs != [] { NoneAtAddr(segs[..|segs| - 1], addr); }
  }

  /** Segments at the same address keep their order. */
  lemma {:induction false} SortStable(segs: seq<Segment>, addr: nat)
    ensures AtAddr(SortByAddr(segs), addr) == AtAddr(segs, addr)
  {
    if segs != [] {
      var n := |segs| - 1;
      SortStable(segs[..n], addr);
      SortSorted(segs[..n]);
      InsertStable(segs[n], SortByAddr(segs[..n]), addr);
    }
  }
}
