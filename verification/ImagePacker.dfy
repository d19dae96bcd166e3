/** ESP32FirmwareImage.save: a small linker that uses parts of the RAM segments, or zeros, to bring
  each flash segment to a file offset congruent to its address modulo 64 KiB. */
module ImagePacker {
  import opened IntBytes
  import opened ImageFormat
  import opened PackerSpec
  import opened PackingLoop

  /** A segment that can be cut. */
  class ImageSegment {
    var addr: nat
    var data: seq<byte>

    ghost function View(): Segment
      reads this
    {
      Segment(addr, data)
    }

    constructor (addr: nat, data: seq<byte>)
      ensures View() == Segment(addr, PadToWord(data))
    {
      this.addr, this.data := addr, PadToWord(data);
    }

    /** Cuts `splitLen` bytes (or all there are) from the front into a new segment. */
    method SplitImage(splitLen: nat) returns (result: Segment)
      modifies this
      ensures var k := if splitLen <= |old(data)| then splitLen else |old(data)|;
              result == Segment(old(addr), old(data)[..k]) && View() == Segment(old(addr) + splitLen, old(data)[k..])
    {
      var k := if splitLen <= |data| then splitLen else |data|;
      result := Segment(addr, data[..k]);
      data := data[k..];
      addr := addr + splitLen;
    }
  }

  ghost function Views(list: seq<ImageSegment>): (v: seq<Segment>)
    reads list
    ensures |v| == |list|
    ensures forall i :: 0 <= i < |list| ==> v[i] == list[i].View()
  {
    if list == [] then [] else [list[0].View()] + Views(list[1..])
  }

  /** The segments of the list are different objects, all in `own`. */
  ghost predicate Owned(list: seq<ImageSegment>, own: set<ImageSegment>) {
    list == [] || (list[0] in own && Owned(list[1..], own - {list[0]}))
  }

  lemma {:induction false} OwnedMembers(list: seq<ImageSegment>, own: set<ImageSegment>)
    requires Owned(list, own)
    ensures forall s :: s in list ==> s in own
    decreases |list|
  {
    if list != [] {
      OwnedMembers(list[1..], own - {list[0]});
      assert list == [list[0]] + list[1..];
    }
  }

  lemma {:induction false} OwnedSnoc(list: seq<ImageSegment>, own: set<ImageSegment>, s: ImageSegment)
    requires Owned(list, own) && s !in own
    ensures Owned(list + [s], own + {s})
    decreases |list|
  {
    if list != [] {
      OwnedSnoc(list[1..], own - {list[0]}, s);
      assert (list + [s])[1..] == list[1..] + [s];
      assert own + {s} - {list[0]} == own - {list[0]} + {s};
    }
  }

  datatype SaveError = TooManySegments | SameMapping | Misplaced

  /** `NeverEnds` stands for the call that does not return. */
  datatype SaveResult = Saved(file: seq<byte>) | Refused(error: SaveError) | NeverEnds

  /** Two neighbouring flash segments start in the same 64 KiB mapping. */
  predicate SharesMapping(flash: seq<Segment>) {
    exists i :: 0 < i < |flash| && flash[i].addr / IromAlign == flash[i - 1].addr / IromAlign
  }

  /** What ImageSegment and the 32-bit fields of the file demand: whole words at 32-bit addresses. */
  predicate Packable(segments: seq<Segment>) { forall s :: s in segments ==> s.WellFormed() }

  /** Among sorted segments, neighbours are enough: some two share a 64 KiB mapping exactly if neighbours do. */
  lemma SharesAny(flash: seq<Segment>)
    requires Sorted(flash)
    ensures SharesMapping(flash)
       <==> exists i, j :: 0 <= i < j < |flash| && flash[i].addr / 0x1_0000 == flash[j].addr / 0x1_0000
  {
    forall i, j | 0 <= i < j < |flash| && flash[i].addr / 0x1_0000 == flash[j].addr / 0x1_0000
      ensures SharesMapping(flash)
    {
      assert flash[i].addr <= flash[j - 1].addr <= flash[j].addr || j - 1 == i;
      Between(flash[i].addr, flash[j - 1].addr, flash[j].addr);
    }
  }

  lemma Between(a: nat, b: nat, c: nat)
    ensures a <= b <= c && a / 0x1_0000 == c / 0x1_0000 ==> b / 0x1_0000 == c / 0x1_0000
  {
  }

  method CheckMappings(flash: seq<Segment>) returns (clash: bool)
    ensures clash <==> SharesMapping(flash)
  {
    if |flash| > 0 {
      var lastAddr := flash[0].addr;
      for i := 1 to |flash|
        invariant lastAddr == flash[i - 1].addr
        invariant forall k :: 0 < k < i ==> flash[k].addr / IromAlign != flash[k - 1].addr / IromAlign
      {
        if flash[i].addr / IromAlign == lastAddr / IromAlign { return true; }
        lastAddr := flash[i].addr;
      }
    }
    return false;
  }

  method CopySegments(segs: seq<Segment>) returns (list: seq<ImageSegment>, ghost own: set<ImageSegment>)
    requires AllWellFormed(segs)
    ensures Views(list) == segs && Owned(list, own) && fresh(own)
  {
    list, own := [], {};
    for i := 0 to |segs|
      invariant |list| == i && Owned(list, own) && fresh(own)
      invariant forall k :: 0 <= k < i ==> list[k] in own && list[k].View() == segs[k]
    {
      AllWellFormedMembers(segs);
      var s := new ImageSegment(segs[i].addr, segs[i].data);
      assert segs[i] in segs;
      OwnedSnoc(list, own, s);
      list, own := list + [s], own + {s};
    }
    assert Views(list) == segs;
  }

  // ---------------------------------------------------------------- the state of the packing loop

  /** The file written so far, its running checksum, and the pieces in it. */
  datatype Output = Output(f: seq<byte>, checksum: byte, pieces: seq<Piece>)

  /** save_segment. */
  function Emit(out: Output, kind: Kind, s: Segment): Output {
    Output(out.f + SegmentBytes(s), Checksum(out.checksum, s.data), out.pieces + [Piece(kind, s)])
  }

  /** The file is the header and the pieces, and the running checksum is theirs. */
  ghost predicate Written(h: Header, n: nat, out: Output)
    requires n < 256
  {
    && out.f == HeaderBytes(h, n) + Body(Segs(out.pieces)) && |out.f| == EndPos(out.pieces)
    && out.checksum == ChecksumAll(ChecksumMagic, Segs(out.pieces))
  }

  /** What has been written so far, and what is left, account for the sorted input. */
  ghost predicate Packing(sorted: seq<Segment>, p: Progress) {
    && FlashAligned(p.pieces) && PiecesOk(p.pieces) && AllFit(p.flash) && AllFit(p.ram)
    && OfKind(p.pieces, Flash) + p.flash == Select(sorted, true)
    && SameRam(OfKind(p.pieces, Ram) + p.ram, Select(sorted, false))
  }

  lemma ChecksumSnoc(state: byte, segs: seq<Segment>, s: Segment)
    ensures ChecksumAll(state, segs + [s]) == Checksum(ChecksumAll(state, segs), s.data)
  {
    assert (segs + [s])[..|segs|] == segs;
  }

  /** Every kind of step appends one piece to the file and to the checksum. */
  lemma WritePiece(h: Header, n: nat, out: Output, kind: Kind, s: Segment)
    requires n < 256 && Written(h, n, out)
    ensures Written(h, n, Emit(out, kind, s))
  {
    hide ChecksumAll, Checksum, PiecesOk;
    AppendedSegs(out.pieces, Piece(kind, s));
    var segs, d := Segs(out.pieces), SegmentBytes(s);
    assert Body(segs + [s]) == Body(segs) + d by { BodySnoc(segs, s); }
    assert HeaderBytes(h, n) + Body(segs) + d == HeaderBytes(h, n) + (Body(segs) + d);
    ChecksumSnoc(ChecksumMagic, segs, s);
  }

  lemma PaddingStep(sorted: seq<Segment>, p: Progress, padLen: nat)
    requires Packing(sorted, p) && padLen < 3 * IromAlign
    ensures Packing(sorted, p.(pieces := p.pieces + [Piece(Padding, Segment(0, Zeros(padLen)))]))
  {
    var piece := Piece(Padding, Segment(0, Zeros(padLen)));
    AppendedOk(p.pieces, piece);
    AppendedKind(p.pieces, piece, Flash);
    AppendedKind(p.pieces, piece, Ram);
  }

  lemma MoveFirst(done: seq<Segment>, left: seq<Segment>)
    requires left != []
    ensures done + [left[0]] + left[1..] == done + left
  {
  }

  lemma FlashStep(sorted: seq<Segment>, p: Progress)
    requires Packing(sorted, p) && p.flash != [] && Aligned(EndPos(p.pieces), p.flash[0].addr)
    ensures Packing(sorted, Progress(p.pieces + [Piece(Flash, p.flash[0])], p.flash[1..], p.ram))
  {
    var piece := Piece(Flash, p.flash[0]);
    AppendedOk(p.pieces, piece);
    AppendedKind(p.pieces, piece, Flash);
    AppendedKind(p.pieces, piece, Ram);
    MoveFirst(OfKind(p.pieces, Flash), p.flash);
  }

  /** Cutting the first of the remaining RAM segments keeps RAM the same. */
  lemma CutKeepsRam(done: seq<Segment>, ram: seq<Segment>, k: nat)
    requires ram != [] && k <= |ram[0].data|
    ensures SameRam(done + [CutPiece(ram, k)] + AfterCut(ram, k), done + ram)
  {
    hide AfterCut, CutPiece;
    var head, rest := CutPiece(ram, k), AfterCut(ram, k);
    assert done + [head] + rest == done + ([head] + rest);
    forall a, v ensures Count(done + [head] + rest, a, v) == Count(done + ram, a, v) {
      Rest(ram, k, a, v);
      CountAppend(done, [head] + rest, a, v);
      CountAppend(done, ram, a, v);
    }
    Rest(ram, k, 0, 0);
    AllDataAppend(done, [head] + rest);
    AllDataAppend(done, ram);
  }

  /** Cutting a segment keeps its memory image. */
  lemma FillsSplit(s: Segment, k: nat, a: nat, v: byte)
    requires k <= |s.data|
    ensures Fills(s, a, v) == Fills(Segment(s.addr, s.data[..k]), a, v) + Fills(Segment(s.addr + k, s.data[k..]), a, v)
  {
  }

  lemma Rest(ram: seq<Segment>, k: nat, a: nat, v: byte)
    requires ram != [] && k <= |ram[0].data|
    ensures Count([CutPiece(ram, k)] + AfterCut(ram, k), a, v) == Count(ram, a, v)
    ensures AllData([CutPiece(ram, k)] + AfterCut(ram, k)) == AllData(ram)
  {
    var s, others := ram[0], ram[1..];
    var head, tail := CutPiece(ram, k), Segment(s.addr + k, s.data[k..]);
    assert ram == [s] + others;
    Cons(s, others, a, v);
    Cons(head, AfterCut(ram, k), a, v);
    if k < |s.data| {
      Cons(tail, others, a, v);
      FillsSplit(s, k, a, v);
      CutData(s.data, k, AllData(others));
    } else {
      assert s.data[..k] == s.data;
    }
  }

  lemma CutData(d: seq<byte>, k: nat, rest: seq<byte>)
    requires k <= |d|
    ensures d[..k] + (d[k..] + rest) == d + rest
  {
  }

  lemma CutFits(ram: seq<Segment>, k: nat)
    requires ram != [] && k <= |ram[0].data| && AllFit(ram)
    ensures CutPiece(ram, k).Fits32() && AllFit(AfterCut(ram, k))
  {
    if k < |ram[0].data| { assert AfterCut(ram, k)[1..] == ram[1..]; }
  }

  lemma RamStep(sorted: seq<Segment>, p: Progress, k: nat)
    requires Packing(sorted, p) && p.ram != [] && k <= |p.ram[0].data|
    ensures Packing(sorted, Progress(p.pieces + [Piece(Ram, CutPiece(p.ram, k))], p.flash, AfterCut(p.ram, k)))
  {
    CutFits(p.ram, k);
    var piece := Piece(Ram, CutPiece(p.ram, k));
    AppendedOk(p.pieces, piece);
    AppendedKind(p.pieces, piece, Flash);
    AppendedKind(p.pieces, piece, Ram);
    CutKeepsRam(OfKind(p.pieces, Ram), p.ram, k);
  }

  lemma WholeRamStep(sorted: seq<Segment>, p: Progress)
    requires Packing(sorted, p) && p.ram != []
    ensures Packing(sorted, Progress(p.pieces + [Piece(Ram, p.ram[0])], p.flash, p.ram[1..]))
  {
    assert p.ram[0].data[..|p.ram[0].data|] == p.ram[0].data;
    RamStep(sorted, p, |p.ram[0].data|);
  }

  /** Every turn of the loop keeps the account. */
  lemma StepKeepsPacking(sorted: seq<Segment>, p: Progress)
    requires Packing(sorted, p)
    ensures Packing(sorted, Step(p))
  {
    hide Packing, AlignmentDataNeeded, Congruent, AfterCut, CutPiece, RoundUp;
    if p.flash != [] && !AtMisplaced(p) {
      var pos, addr, n := EndPos(p.pieces), p.flash[0].addr, Needed(p);
      if n == 0 {
        FlashStep(sorted, p);
      } else if p.ram != [] && n > SegHeaderLen {
        RamStep(sorted, p, CutLength(p.ram, n));
      } else {
        PaddingAligns(pos, addr);
        PaddingStep(sorted, p, RoundUp(n));
      }
    }
  }

  /** Cuts a piece off the first RAM segment, and drops the segment once it is used up. */
  method CutFirst(ram: seq<ImageSegment>, ghost own: set<ImageSegment>, padLen: nat)
    returns (piece: Segment, rest: seq<ImageSegment>, ghost left: set<ImageSegment>)
    requires Owned(ram, own) && ram != []
    modifies own
    ensures var views := old(Views(ram));
            var k := CutLength(views, padLen);
            piece == CutPiece(views, k) && Views(rest) == AfterCut(views, k)
    ensures Owned(rest, left) && left <= own
  {
    ghost var views := Views(ram);
    OwnedMembers(ram[1..], own - {ram[0]});
    piece := ram[0].SplitImage(padLen);
    assert Views(ram[1..]) == views[1..];
    if |ram[0].data| == 0 {
      rest, left := ram[1..], own - {ram[0]};
    } else {
      rest, left := ram, own;
      assert Views(ram) == [ram[0].View()] + views[1..];
    }
  }

  function HeaderOnly(h: Header, n: nat): Output
    requires n < 256
  {
    Output(HeaderBytes(h, n), ChecksumMagic, [])
  }

  /** The loop before its first turn. */
  function Start(segments: seq<Segment>): Progress {
    var sorted := SortByAddr(segments);
    Progress([], Select(sorted, true), Select(sorted, false))
  }

  lemma {:induction false} WellFormedParts(segs: seq<Segment>)
    requires AllWellFormed(segs)
    ensures AllFit(segs) && AllWords(segs) && RamBytes(segs) % 4 == 0
  {
    if segs != [] {
      WellFormedParts(segs[1..]);
      WordsIsMultiple(|segs[0].data|);
    }
  }

  /** The selected segments, flash or RAM. */
  lemma SelectedParts(segments: seq<Segment>, flash: bool)
    requires Packable(segments)
    ensures var part := Select(SortByAddr(segments), flash);
            && AllWellFormed(part) && AllFit(part) && AllWords(part) && RamBytes(part) % 4 == 0
            && forall s :: s in part <==> s in segments && IsFlashAddr(s.addr) == flash
  {
    hide AllFit, AllWords, RamBytes, SortByAddr, Select, IsFlashAddr, AllWellFormed, Segment.WellFormed;
    SortSorted(segments);
    SelectSorted(SortByAddr(segments), flash);
    AllWellFormedMembers(Select(SortByAddr(segments), flash));
    WellFormedParts(Select(SortByAddr(segments), flash));
  }

  lemma StartParts(segments: seq<Segment>)
    requires Packable(segments)
    ensures var p := Start(segments);
            && Balanced(p) && p.pieces == [] && EndPos(p.pieces) % 4 == 0
            && AllWords(Segs(p.pieces)) && AllWords(p.flash) && AllWords(p.ram) && AllWellFormed(p.ram)
            && forall s :: s in p.flash <==> s in segments && IsFlashAddr(s.addr)
  {
    hide Select, SortByAddr, RamBytes, AllWellFormed, IsFlashAddr, AllFit, Packable, Words;
    SelectedParts(segments, true);
    SelectedParts(segments, false);
  }

  lemma NothingWritten(h: Header, n: nat, segments: seq<Segment>)
    requires n < 256 && Packable(segments)
    ensures Written(h, n, HeaderOnly(h, n)) && Packing(SortByAddr(segments), Start(segments))
  {
    hide Select, SortByAddr, RamBytes, AllWellFormed, IsFlashAddr, AllFit, AllWords, Packable, HeaderBytes;
    var p := Start(segments);
    SelectedParts(segments, true);
    SelectedParts(segments, false);
    assert Body([]) == [] && HeaderBytes(h, n) + [] == HeaderBytes(h, n);
    assert OfKind([], Flash) + p.flash == p.flash && OfKind([], Ram) + p.ram == p.ram;
  }

  /** How the loop over the flash segments goes on: to its end, to a failed assertion, or for ever. */
  datatype Outcome = AllPlaced | AssertionFails | Endless

  /** The loop has come from `start` in some number of turns. */
  ghost predicate Reached(start: Progress, steps: nat, p: Progress) { p == Iterate(start, steps) }

  /** Another turn in the state reached, and the bound on the turns has not been met yet. */
  lemma OneMore(sorted: seq<Segment>, start: Progress, steps: nat, p: Progress, bound: nat)
    requires Reached(start, steps, p) && Packing(sorted, p)
    requires Settled(Iterate(start, bound)) && !Settled(p)
    ensures Reached(start, steps + 1, Step(p)) && Packing(sorted, Step(p)) && steps < bound
  {
    hide Packing, Step, Done, AtMisplaced, Stuck;
    StepKeepsPacking(sorted, p);
    assert Iterate(start, steps + 1) == Step(Iterate(start, steps));
    if bound <= steps { OneOutcome(start, bound, steps); }
  }

  lemma EndSeen(start: Progress, steps: nat, p: Progress)
    requires Reached(start, steps, p) && Done(p)
    ensures Completes(start) && !Misplaces(start) && !GetsStuck(start)
  {
    hide Iterate, AtMisplaced, Stuck;
    OutcomeSeen(start, steps);
    Apart(p);
  }

  /** What the loop reads off the state before a turn. */
  lemma TurnSeen(start: Progress, steps: nat, p: Progress)
    requires Reached(start, steps, p) && p.flash != []
    ensures var pos, addr := EndPos(p.pieces), p.flash[0].addr;
            if Needed(p) == 0 && !Aligned(pos, addr) then Misplaces(start) && !Completes(start) && !GetsStuck(start)
            else if Needed(p) != 0 && p.ram == [] && !InPhase(pos, addr)
            then GetsStuck(start) && !Completes(start) && !Misplaces(start)
            else !Settled(p)
  {
    hide Iterate, Aligned, InPhase, AlignmentDataNeeded;
    var pos, addr := EndPos(p.pieces), p.flash[0].addr;
    if Needed(p) == 0 { AlignedInPhase(pos, addr); }
    if Settled(p) {
      OutcomeSeen(start, steps);
      Apart(p);
    }
  }

  lemma WrittenLength(h: Header, n: nat, out: Output)
    requires n < 256 && Written(h, n, out)
    ensures |out.f| == EndPos(out.pieces)
  {
  }

  lemma Turn(p: Progress)
    requires p.flash != [] && !Settled(p)
    ensures Needed(p) == 0 ==> Step(p) == Progress(p.pieces + [Piece(Flash, p.flash[0])], p.flash[1..], p.ram)
    ensures p.ram != [] && Needed(p) > SegHeaderLen ==>
              var k := CutLength(p.ram, Needed(p));
              Step(p) == Progress(p.pieces + [Piece(Ram, CutPiece(p.ram, k))], p.flash, AfterCut(p.ram, k))
    ensures Needed(p) != 0 && (p.ram == [] || Needed(p) <= SegHeaderLen) ==>
              Step(p) == p.(pieces := p.pieces + [Piece(Padding, Segment(0, Zeros(RoundUp(Needed(p)))))])
  {
    hide AlignmentDataNeeded, InPhase, Aligned, AfterCut, CutPiece, RoundUp, EndPos;
  }

  /** The loop over the flash segments.  Padding is taken from the RAM segments while there are any and
      more than a header is needed, and is zeros otherwise.  Where the loop would go on for ever, the method
      returns `Endless` (the source has no such test). */
  method PackFlash(h: Header, n: nat, ghost sorted: seq<Segment>, flashSegs: seq<Segment>, ramSegs: seq<ImageSegment>,
                   ghost own: set<ImageSegment>)
    returns (outcome: Outcome, out: Output, ram: seq<ImageSegment>, ghost steps: nat)
    requires n < 256 && Owned(ramSegs, own) && Written(h, n, HeaderOnly(h, n))
    requires Packing(sorted, Progress([], flashSegs, Views(ramSegs)))
    modifies own
    ensures var start := Progress([], flashSegs, old(Views(ramSegs)));
            && (outcome.AllPlaced? <==> Completes(start))
            && (outcome.AssertionFails? <==> Misplaces(start))
            && (outcome.Endless? <==> GetsStuck(start))
            && out.pieces == Iterate(start, steps).pieces
            && (outcome.AllPlaced? ==> Reached(start, steps, Progress(out.pieces, [], Views(ram))))
    ensures Written(h, n, out) && (outcome.AllPlaced? ==> Packing(sorted, Progress(out.pieces, [], Views(ram))))
  {
    hide Packing, Congruent, Owned, Iterate, Completes, Misplaces, GetsStuck, AlignmentDataNeeded,
         AfterCut, CutPiece, RoundUp, FlashAligned, Views, EndPos, Step, Aligned, InPhase, CutLength, Settled, Written;
    var flash := flashSegs;
    out, ram, steps := HeaderOnly(h, n), ramSegs, 0;
    ghost var left, start := own, Progress([], flashSegs, Views(ramSegs));
    ghost var bound := Settles(start);
    assert Reached(start, 0, start) by { StartReached(start); }
    while |flash| > 0
      invariant Owned(ram, left) && left <= own
      invariant Written(h, n, out)
      invariant Packing(sorted, Progress(out.pieces, flash, Views(ram)))
      invariant Reached(start, steps, Progress(out.pieces, flash, Views(ram)))
      decreases bound - steps
    {
      var segment := flash[0];
      ghost var p := Progress(out.pieces, flash, Views(ram));
      TurnSeen(start, steps, p);
      if !Settled(p) { Turn(p); }
      var padLen := AlignmentDataNeeded(|out.f|, segment.addr);
      WrittenLength(h, n, out);
      assert padLen == Needed(p) && |p.ram| == |ram|;
      if padLen > 0 {
        if |ram| > 0 && padLen > SegHeaderLen {
          OneMore(sorted, start, steps, p, bound);
          var piece;
          piece, ram, left := CutFirst(ram, left, padLen);
          WritePiece(h, n, out, Ram, piece);
          out := Emit(out, Ram, piece);
        } else {
          if |ram| == 0 && !InPhase(|out.f|, segment.addr) { return Endless, out, ram, steps; }
          OneMore(sorted, start, steps, p, bound);
          var padSegment := new ImageSegment(0, Zeros(padLen));
          ZeroSegment(padLen);
          WritePiece(h, n, out, Padding, padSegment.View());
          out := Emit(out, Padding, Segment(padSegment.addr, padSegment.data));
        }
      } else {
        if !Aligned(|out.f|, segment.addr) { return AssertionFails, out, ram, steps; }
        OneMore(sorted, start, steps, p, bound);
        WritePiece(h, n, out, Flash, segment);
        out := Emit(out, Flash, segment);
        flash := flash[1..];
      }
      steps := steps + 1;
      assert Progress(out.pieces, flash, Views(ram)) == Step(p);
    }
    EndSeen(start, steps, Progress(out.pieces, flash, Views(ram)));
    outcome := AllPlaced;
  }

  lemma StartReached(start: Progress)
    ensures Reached(start, 0, start)
  {
  }

  /** The pieces written with what is left of the RAM segments after them. */
  function AllPieces(pieces: seq<Piece>, ram: seq<Segment>): seq<Piece>
    decreases |ram|
  {
    if ram == [] then pieces else AllPieces(pieces + [Piece(Ram, ram[0])], ram[1..])
  }

  lemma AllPiecesNext(pieces: seq<Piece>, ram: seq<Segment>)
    ensures AllPieces(pieces, ram) == if ram == [] then pieces else AllPieces(pieces + [Piece(Ram, ram[0])], ram[1..])
  {
  }

  lemma {:induction false} AllPiecesInWords(pieces: seq<Piece>, ram: seq<Segment>)
    requires AllWords(ram) && AllWords(Segs(pieces)) && EndPos(pieces) % 4 == 0
    ensures AllWords(Segs(AllPieces(pieces, ram)))
    decreases |ram|
  {
    hide EndPos, Segs, Words;
    if ram != [] {
      PieceInWords(pieces, Piece(Ram, ram[0]));
      AllPiecesInWords(pieces + [Piece(Ram, ram[0])], ram[1..]);
    }
  }

  /** Flash segments all written: the remaining RAM segments follow. */
  method PackRest(h: Header, n: nat, ghost sorted: seq<Segment>, packed: Output, ramSegs: seq<ImageSegment>)
    returns (out: Output)
    requires n < 256 && Written(h, n, packed) && Packing(sorted, Progress(packed.pieces, [], Views(ramSegs)))
    ensures Written(h, n, out) && Packing(sorted, Progress(out.pieces, [], []))
    ensures out.pieces == AllPieces(packed.pieces, Views(ramSegs))
  {
    hide Packing, Written, AllPieces, Views;
    out := packed;
    ghost var all := Views(ramSegs);
    assert all[0..] == all;
    for i := 0 to |ramSegs|
      invariant Written(h, n, out) && Packing(sorted, Progress(out.pieces, [], all[i..]))
      invariant AllPieces(packed.pieces, all) == AllPieces(out.pieces, all[i..])
    {
      ghost var views := all[i..];
      var segment := Segment(ramSegs[i].addr, ramSegs[i].data);
      assert views[0] == segment && views[1..] == all[i + 1..];
      AllPiecesNext(out.pieces, views);
      WholeRamStep(sorted, Progress(out.pieces, [], views));
      WritePiece(h, n, out, Ram, segment);
      out := Emit(out, Ram, segment);
    }
    assert all[|all|..] == [];
    AllPiecesNext(out.pieces, []);
  }

  lemma PackingDone(segments: seq<Segment>, pieces: seq<Piece>)
    requires Packing(SortByAddr(segments), Progress(pieces, [], []))
    ensures Packed(segments, pieces)
  {
    assert OfKind(pieces, Flash) + [] == OfKind(pieces, Flash) && OfKind(pieces, Ram) + [] == OfKind(pieces, Ram);
  }

  /** Overwriting byte 1 of the file with the final count is the same as having written it in the header. */
  lemma PatchedCount(h: Header, n: nat, m: nat, body: seq<byte>, end: seq<byte>)
    requires n < 256 && m < 256
    ensures (HeaderBytes(h, n) + body + end)[1 := m] == HeaderBytes(h, m) + body + end
  {
  }

  /** The saved file, digest or not, with the checksum of the original segments, is refused if it has more than 16
      pieces; otherwise it loads to the pieces, padded to whole words: to the very pieces if all are whole words. */
  lemma SavedFileLoads(h: Header, segments: seq<Segment>, pieces: seq<Piece>, digest: seq<byte>)
    requires h.WellFormed() && Packed(segments, pieces) && |pieces| < 256
    ensures var segs, checksum := Segs(pieces), ChecksumAll(ChecksumMagic, segments);
            var loaded := LoadSpec(FileBytes(h, segs, ChecksumAll(ChecksumMagic, segs)) + digest);
            && loaded == (if |pieces| <= MaxLoadSegments then Image(h, Padded(segs), checksum) else Err(InvalidImage))
            && (loaded == Image(h, segs, checksum) <==> |pieces| <= MaxLoadSegments && AllWords(segs))
            && (loaded.Image? ==> ChecksumAll(ChecksumMagic, loaded.segments) == checksum)
  {
    hide LoadSpec, FileBytes, Packed, PiecesOk, ChecksumAll, Padded;
    PackingKeepsChecksum(segments, pieces);
    assert PiecesOk(pieces) by { PackedPiecesOk(segments, pieces); }
    SegsFit(pieces);
    LoadFile(h, Segs(pieces), ChecksumAll(ChecksumMagic, Segs(pieces)), digest);
    PaddedExactly(Segs(pieces));
    ChecksumPadded(ChecksumMagic, Segs(pieces));
  }

  lemma PackedPiecesOk(segments: seq<Segment>, pieces: seq<Piece>)
    requires Packed(segments, pieces)
    ensures PiecesOk(pieces)
  {
  }

  /** The checksum byte goes last in a 16-byte block, and the segment count into byte 1. */
  method Finish(h: Header, n: nat, out: Output) returns (file: seq<byte>)
    requires n < 256 && Written(h, n, out) && |out.pieces| < 256
    ensures file == FileBytes(h, Segs(out.pieces), ChecksumAll(ChecksumMagic, Segs(out.pieces)))
  {
    file := out.f + Zeros(AlignLen(|out.f|)) + [out.checksum];
    file := file[1 := |out.pieces|];
    ghost var end := Zeros(AlignLen(|out.f|)) + [out.checksum];
    PatchedCount(h, n, |out.pieces|, Body(Segs(out.pieces)), end);
    assert out.f + Zeros(AlignLen(|out.f|)) + [out.checksum] == out.f + end;
  }

  /** Flash addresses that are multiples of 4 end with pieces of whole words; flash addresses off the page starts
      are never misplaced. */
  lemma StartKinds(segments: seq<Segment>)
    requires Packable(segments)
    ensures (forall s :: s in segments && IsFlashAddr(s.addr) ==> s.addr % 4 == 0) ==>
              && !GetsStuck(Start(segments))
              && forall n: nat ::
                   var p := Iterate(Start(segments), n); AllWords(Segs(AllPieces(p.pieces, p.ram)))
    ensures (forall s :: s in segments && IsFlashAddr(s.addr) ==> s.addr % IromAlign >= 2 * SegHeaderLen) ==>
            !Misplaces(Start(segments))
  {
    hide GetsStuck, Misplaces, AllWords, Iterate, AllPieces, Segs;
    var p := Start(segments);
    StartParts(segments);
    if forall s :: s in segments && IsFlashAddr(s.addr) ==> s.addr % 4 == 0 {
      WordAddrsMembers(p.flash);
      WordAddrsEnd(p);
      forall n: nat ensures AllWords(Segs(AllPieces(Iterate(p, n).pieces, Iterate(p, n).ram))) {
        IterateInWords(p, n);
        AllPiecesInWords(Iterate(p, n).pieces, Iterate(p, n).ram);
      }
    }
    if forall s :: s in segments && IsFlashAddr(s.addr) ==> s.addr % IromAlign >= 2 * SegHeaderLen {
      OffBoundaryMembers(p.flash);
      OffBoundaryPlaced(p);
    }
  }

  lemma {:induction false} WordAddrsMembers(flash: seq<Segment>)
    requires forall s :: s in flash ==> s.addr % 4 == 0
    ensures WordAddrs(flash)
  {
    if flash != [] { WordAddrsMembers(flash[1..]); }
  }

  lemma {:induction false} OffBoundaryMembers(flash: seq<Segment>)
    requires forall s :: s in flash ==> s.addr % IromAlign >= 2 * SegHeaderLen
    ensures OffBoundary(flash)
  {
    if flash != [] {
      ResidueIsMod(flash[0].addr);
      OffBoundaryMembers(flash[1..]);
    }
  }

  /** What the loop comes to, computed from the addresses and lengths of the segments. */
  function ImageFate(segments: seq<Segment>): Fate {
    FateOf(HeaderLen, Start(segments).flash, Start(segments).ram)
  }

  lemma ImageFateExactly(segments: seq<Segment>)
    ensures Completes(Start(segments)) <==> ImageFate(segments).Packs?
    ensures Misplaces(Start(segments)) <==> ImageFate(segments).Fails?
    ensures GetsStuck(Start(segments)) <==> ImageFate(segments).Loops?
  {
    hide Completes, Misplaces, GetsStuck, FateOf;
    FateExactly(Start(segments));
  }

  /** The segments are few enough for the header byte, and no two share a mapping: the loop is entered. */
  predicate Entered(segments: seq<Segment>) { |segments| < 256 && !SharesMapping(Select(SortByAddr(segments), true)) }

  function SelectOne(s: Segment, flash: bool): seq<Segment> { if IsFlashAddr(s.addr) == flash then [s] else [] }

  lemma SelectOfTwo(a: Segment, b: Segment, flash: bool)
    ensures Select([a, b], flash) == SelectOne(a, flash) + SelectOne(b, flash)
  {
    hide IsFlashAddr;
    assert [b][1..] == [] && Select([], flash) == [] && [b] + [] == [b];
    assert Select([b], flash) == SelectOne(b, flash);
    assert [a, b][1..] == [b];
    assert [] + SelectOne(b, flash) == SelectOne(b, flash);
  }

  lemma SortOfTwo(a: Segment, b: Segment)
    ensures SortByAddr([a, b]) == if b.addr < a.addr then [b, a] else [a, b]
  {
    assert [a][..0] == [] && SortByAddr([]) == [];
    assert SortByAddr([a]) == Insert(a, []) == [a] + [] == [a];
    assert [a, b][..1] == [a] && [a][1..] == [];
    assert SortByAddr([a, b]) == Insert(b, [a]);
    assert Insert(b, []) == [b];
  }

  /** 65488 bytes at 0x3F400020 and a segment at 0x400D0000 enter the loop and are refused. */
  lemma MisplacedExample(first: Segment, second: Segment)
    requires first.addr == 0x3F400020 && |first.data| == 65488 && second.addr == 0x400D0000
    ensures Entered([second, first]) && ImageFate([second, first]).Fails?
  {
    hide Misplaces, Select, SortByAddr, ImageFate;
    SortOfTwo(second, first);
    SelectOfTwo(first, second, true);
    SelectOfTwo(first, second, false);
    assert [first] + [second] == [first, second];
    assert Start([second, first]) == Progress([], [first, second], []);
    assert [first, second][0] == first && [first, second][1] == second;
    PageStartMisplaced(first, second);
    ImageFateExactly([second, first]);
  }

  /** A segment at 0x400D0013 with one RAM segment enters the loop, which ends exactly if RAM has 65515 bytes. */
  lemma OddAddressExample(flash: Segment, ram: Segment)
    requires flash.addr == 0x400D0013 && !IsFlashAddr(ram.addr) && Words(|ram.data|)
    ensures Entered([flash, ram]) && (ImageFate([flash, ram]).Loops? <==> |ram.data| < 65515)
  {
    hide GetsStuck, Misplaces, Completes, Select, SortByAddr, ImageFate;
    SortOfTwo(flash, ram);
    SelectOfTwo(flash, ram, true);
    SelectOfTwo(flash, ram, false);
    SelectOfTwo(ram, flash, true);
    SelectOfTwo(ram, flash, false);
    assert [flash] + [] == [flash] && [] + [flash] == [flash] && [ram] + [] == [ram] && [] + [ram] == [ram];
    assert Start([flash, ram]) == Progress([], [flash], [ram]);
    OddAddressNeeds(flash, ram);
    OneOfThree(Start([flash, ram]));
    ImageFateExactly([flash, ram]);
    ResidueIsMod(flash.addr);
    OffBoundaryPlaced(Start([flash, ram]));
  }

  lemma {:induction false} SelectAll(segs: seq<Segment>)
    requires forall s :: s in segs ==> !IsFlashAddr(s.addr)
    ensures Select(segs, true) == [] && Select(segs, false) == segs
  {
    if segs != [] {
      SelectAll(segs[1..]);
      assert segs == [segs[0]] + segs[1..];
    }
  }

  lemma {:induction false} AllPiecesPacking(sorted: seq<Segment>, p: Progress)
    requires Packing(sorted, p) && p.flash == []
    ensures Packing(sorted, Progress(AllPieces(p.pieces, p.ram), [], []))
    ensures |AllPieces(p.pieces, p.ram)| == |p.pieces| + |p.ram|
    decreases |p.ram|
  {
    hide Packing;
    if p.ram == [] {
      assert p == Progress(p.pieces, [], []);
    } else {
      WholeRamStep(sorted, p);
      AllPiecesPacking(sorted, Progress(p.pieces + [Piece(Ram, p.ram[0])], [], p.ram[1..]));
    }
  }

  /** An image of RAM segments alone is saved in as many pieces as it has segments: above 16, up to 255, the
      tool's own loader refuses it. */
  lemma RamOnlyImage(h: Header, segments: seq<Segment>, digest: seq<byte>)
    requires h.WellFormed() && Packable(segments) && |segments| < 256
    requires forall s :: s in segments ==> !IsFlashAddr(s.addr)
    ensures Entered(segments) && ImageFate(segments).Packs? && Done(Iterate(Start(segments), 0))
    ensures var p := Iterate(Start(segments), 0);
            var pieces := AllPieces(p.pieces, p.ram);
            && Packed(segments, pieces) && |pieces| == |segments|
            && var file := FileBytes(h, Segs(pieces), ChecksumAll(ChecksumMagic, Segs(pieces)));
               LoadSpec(file + digest) == Err(InvalidImage) <==> |segments| > MaxLoadSegments
  {
    hide Select, Packing, Packed, AllPieces, Segs, FileBytes, LoadSpec, Packable, SortByAddr;
    var p := Start(segments);
    SortSorted(segments);
    SelectAll(SortByAddr(segments));
    NothingWritten(h, |segments|, segments);
    AllPiecesPacking(SortByAddr(segments), p);
    PackingDone(segments, AllPieces(p.pieces, p.ram));
    SavedFileLoads(h, segments, AllPieces(p.pieces, p.ram), digest);
  }

  lemma DoneAlike(start: Progress, steps: nat)
    requires Done(Iterate(start, steps))
    ensures forall m: nat :: Done(Iterate(start, m)) ==> Iterate(start, m) == Iterate(start, steps)
  {
    hide Iterate, Done;
    forall m: nat | Done(Iterate(start, m)) ensures Iterate(start, m) == Iterate(start, steps) {
      DoneOnce(start, m, steps);
    }
  }

  /** Whole 16-byte blocks, with the checksum of the original segments last. */
  lemma SavedForm(h: Header, segments: seq<Segment>, pieces: seq<Piece>)
    requires |pieces| < 256 && Packed(segments, pieces)
    ensures var file := FileBytes(h, Segs(pieces), ChecksumAll(ChecksumMagic, Segs(pieces)));
            file != [] && |file| % 16 == 0 && file[|file| - 1] == ChecksumAll(0xEF, segments)
  {
    hide FileBytes, ChecksumAll, Packed, Segs;
    FileForm(h, Segs(pieces), ChecksumAll(ChecksumMagic, Segs(pieces)));
    PackingKeepsChecksum(segments, pieces);
  }

  /** ESP32FirmwareImage.save: sort, tell flash from RAM, check the mappings, pack, append the checksum
      byte, patch the segment count, and append the digest if the header asks for one. */
  method Save(h: Header, segments: seq<Segment>, digest: seq<byte> -> seq<byte>)
    returns (r: SaveResult, pieces: seq<Piece>)
    requires Packable(segments)
    ensures r.Saved? ==>
              && |pieces| < 256 && Packed(segments, pieces)
              && var file := FileBytes(h, Segs(pieces), ChecksumAll(ChecksumMagic, Segs(pieces)));
                 && file != [] && |file| % 16 == 0 && file[|file| - 1] == ChecksumAll(0xEF, segments)
                 && r.file == file + (if h.appendDigest then digest(file) else [])
    ensures Entered(segments) && ImageFate(segments).Packs? ==>
              forall n: nat :: Done(Iterate(Start(segments), n)) ==>
                pieces == AllPieces(Iterate(Start(segments), n).pieces, Iterate(Start(segments), n).ram)
    ensures r == Refused(SameMapping) <==> |segments| < 256 && SharesMapping(Select(SortByAddr(segments), true))
    ensures r == Refused(Misplaced) <==> Entered(segments) && ImageFate(segments).Fails?
    ensures r == NeverEnds <==> Entered(segments) && ImageFate(segments).Loops?
    ensures r == Refused(TooManySegments)
            <==> |segments| >= 256 || (Entered(segments) && ImageFate(segments).Packs? && |pieces| >= 256)
    ensures (forall s :: s in segments && IsFlashAddr(s.addr) ==> s.addr % IromAlign >= 2 * SegHeaderLen) ==>
            r != Refused(Misplaced)
    ensures (forall s :: s in segments && IsFlashAddr(s.addr) ==> s.addr % 4 == 0) ==>
              r != NeverEnds && (r.Saved? ==> AllWords(Segs(pieces)))
  {
    hide Packing, Packed, Misplaces, GetsStuck, Completes, Iterate, AllWords, Segs, AllPieces, Written, SharesMapping,
         Packable, ImageFate, FileBytes, ChecksumAll;
    if |segments| > 255 { return Refused(TooManySegments), []; }
    var sorted := SortByAddr(segments);
    var flash, ramSegs := Select(sorted, true), Select(sorted, false);

    var clash := CheckMappings(flash);
    if clash { return Refused(SameMapping), []; }

    NothingWritten(h, |segments|, segments);
    StartParts(segments);
    var ram, own := CopySegments(ramSegs);
    ghost var start := Start(segments);
    ImageFateExactly(segments);
    StartKinds(segments);
    var outcome, out;
    ghost var steps;
    outcome, out, ram, steps := PackFlash(h, |segments|, sorted, flash, ram, own);
    if outcome.Endless? { return NeverEnds, out.pieces; }
    if outcome.AssertionFails? { return Refused(Misplaced), out.pieces; }
    assert Iterate(start, steps) == Progress(out.pieces, [], Views(ram));
    DoneAlike(start, steps);
    out := PackRest(h, |segments|, sorted, out, ram);
    PackingDone(segments, out.pieces);

    if |out.pieces| > 255 { return Refused(TooManySegments), out.pieces; }
    var file := Finish(h, |segments|, out);
    SavedForm(h, segments, out.pieces);
    return Saved(file + if h.appendDigest then digest(file) else []), out.pieces;
  }
}
