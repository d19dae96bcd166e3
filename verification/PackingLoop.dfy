/** The padding loop of ESP32FirmwareImage.save on values: what one turn does, where it ends and where it never does. */
module PackingLoop {
  import opened Arithmetic
  import opened ImageFormat
  import opened PackerSpec

  // ---------------------------------------------------------------- the padding of one segment

  /** get_alignment_data_needed: data bytes of padding before a segment for `addr`, at file position `pos`. */
  function AlignmentDataNeeded(pos: nat, addr: nat): (n: nat) {
    var alignPast := addr % IromAlign - SegHeaderLen;
    var padLen := IromAlign - pos % IromAlign + alignPast;
    if padLen == 0 || padLen == IromAlign then 0
    else if padLen - SegHeaderLen < 0 then padLen - SegHeaderLen + IromAlign
    else padLen - SegHeaderLen
  }

  /** A segment for `addr` may be written at `pos`. */
  predicate Aligned(pos: nat, addr: nat) { Congruent(pos + SegHeaderLen, addr) }

  /** Exactly one header's worth of bytes is missing, and the address is within 16 bytes of a 64 KiB boundary. */
  predicate HeaderMissing(pos: nat, addr: nat) {
    Residue(addr) < 2 * SegHeaderLen && Congruent(pos + 2 * SegHeaderLen, addr)
  }

  /** Zero is returned exactly for aligned positions and, wrongly, when one header is missing near a boundary. */
  lemma ZeroNeededExactly(pos: nat, addr: nat)
    ensures AlignmentDataNeeded(pos, addr) == 0 <==> Aligned(pos, addr) || HeaderMissing(pos, addr)
  {
    var t := pos % IromAlign;
    assert (pos + SegHeaderLen) % IromAlign
        == if t + SegHeaderLen < IromAlign then t + SegHeaderLen else t + SegHeaderLen - IromAlign;
    assert (pos + 2 * SegHeaderLen) % IromAlign
        == if t + 2 * SegHeaderLen < IromAlign then t + 2 * SegHeaderLen else t + 2 * SegHeaderLen - IromAlign;
    ResidueIsMod(addr);
    CongruentIsMod(pos + SegHeaderLen, addr);
    CongruentIsMod(pos + 2 * SegHeaderLen, addr);
  }

  /** A cut of exactly the returned length aligns the segment, whatever its address. */
  lemma PaddingAligns(pos: nat, addr: nat)
    requires AlignmentDataNeeded(pos, addr) != 0
    ensures Aligned(pos + SegHeaderLen + AlignmentDataNeeded(pos, addr), addr)
    ensures AlignmentDataNeeded(pos, addr) < 2 * IromAlign
  {
    CongruentIsMod(pos + SegHeaderLen + AlignmentDataNeeded(pos, addr) + SegHeaderLen, addr);
    var t, r := pos % IromAlign, addr % IromAlign;
    var q := pos / IromAlign;
    assert pos == IromAlign * q + t;
    assert exists k :: AlignmentDataNeeded(pos, addr) + t + 2 * SegHeaderLen == r + IromAlign * k by {
      assert AlignmentDataNeeded(pos, addr) + t + 2 * SegHeaderLen == r + IromAlign * 1
          || AlignmentDataNeeded(pos, addr) + t + 2 * SegHeaderLen == r + IromAlign * 2;
    }
  }

  /** The padding stays within a page if the address is less than 16 further into its page than the position, and
      takes a whole page more otherwise; together with PaddingAligns this fixes its length. */
  lemma NeededRange(pos: nat, addr: nat)
    ensures var n := AlignmentDataNeeded(pos, addr);
            if addr % 0x1_0000 < pos % 0x1_0000 + 16 then n < 0x1_0000 else 0x1_0000 <= n < 0x2_0000
  {
  }

  /** Position and address agree modulo 4. */
  predicate InPhase(pos: nat, addr: nat) { pos % 4 == addr % 4 }

  lemma AlignedInPhase(pos: nat, addr: nat)
    requires AlignmentDataNeeded(pos, addr) == 0
    ensures InPhase(pos, addr)
  {
    hide AlignmentDataNeeded, Congruent, InPhase;
    ZeroNeededExactly(pos, addr);
    if Aligned(pos, addr) {
      SamePlace(pos + SegHeaderLen, addr);
      WordsKeepPhase(pos, 0, addr);
    } else {
      SamePlace(pos + 2 * SegHeaderLen, addr);
      WordsKeepPhase(pos, SegHeaderLen, addr);
    }
  }

  lemma SamePlace(x: nat, addr: nat)
    requires Congruent(x, addr)
    ensures InPhase(x, addr)
  {
    hide Congruent;
    CongruentIsMod(x, addr);
    PageIsWords(x);
    PageIsWords(addr);
  }

  lemma PageIsWords(a: nat)
    ensures a % IromAlign % 4 == a % 4
  {
    var q := a / IromAlign;
    assert a == a % IromAlign + 4 * (16384 * q);
    ModShift(a % IromAlign, 16384 * q, 4);
  }

  /** The needed padding is whole words exactly in phase. */
  lemma PaddingIsWords(pos: nat, addr: nat)
    ensures AlignmentDataNeeded(pos, addr) % 4 == 0 <==> InPhase(pos, addr)
  {
    var t, r := pos % IromAlign, addr % IromAlign;
    PageIsWords(pos);
    PageIsWords(addr);
    NeededInPage(t, r);
  }

  lemma NeededInPage(t: nat, r: nat)
    requires t < IromAlign && r < IromAlign
    ensures (IromAlign - t + (r - SegHeaderLen) - SegHeaderLen) % 4 == 0 <==> t % 4 == r % 4
    ensures (IromAlign - t + (r - SegHeaderLen) - SegHeaderLen + IromAlign) % 4 == 0 <==> t % 4 == r % 4
    ensures IromAlign - t + (r - SegHeaderLen) in {0, IromAlign} ==> t % 4 == r % 4
  {
  }

  /** The length of ImageSegment(0, n zeros). */
  function RoundUp(n: nat): (m: nat)
    ensures n <= m < n + 4 && m % 4 == 0
  {
    if n % 4 == 0 then n else n + (4 - n % 4)
  }

  lemma ZeroSegment(n: nat)
    ensures PadToWord(Zeros(n)) == Zeros(RoundUp(n))
  {
  }

  /** Zero padding that had to be rounded up misses the place by one to three bytes, and the next padding
      needed is most of a page. */
  lemma Overshoot(pos: nat, addr: nat)
    requires !InPhase(pos, addr)
    ensures var n := AlignmentDataNeeded(pos, addr);
            n < RoundUp(n) && AlignmentDataNeeded(pos + SegHeaderLen + RoundUp(n), addr)
                == IromAlign - SegHeaderLen - (RoundUp(n) - n)
  {
    PaddingIsWords(pos, addr);
    var n := AlignmentDataNeeded(pos, addr);
    var e, pos' := RoundUp(n) - n, pos + SegHeaderLen + RoundUp(n);
    PaddingAligns(pos, addr);
    var exact := pos + SegHeaderLen + n + SegHeaderLen;
    CongruentIsMod(exact, addr);
    ShiftedRemainder(pos', addr, e);
  }

  /** `e` bytes past the place where the segment would be aligned. */
  lemma ShiftedRemainder(pos: nat, addr: nat, e: nat)
    requires 1 <= e <= 3 && pos + SegHeaderLen >= e && (pos + SegHeaderLen - e) % IromAlign == addr % IromAlign
    ensures AlignmentDataNeeded(pos, addr) == IromAlign - SegHeaderLen - e
  {
    var r := addr % IromAlign;
    var q := (pos + SegHeaderLen - e) / IromAlign;
    assert pos + SegHeaderLen - e == IromAlign * q + r;
    if r + e >= SegHeaderLen {
      RemainderOf(pos, q, r + e - SegHeaderLen);
    } else {
      RemainderOf(pos, q - 1, r + e - SegHeaderLen + IromAlign);
    }
  }

  lemma RemainderOf(x: nat, q: int, r: nat)
    requires x == IromAlign * q + r && r < IromAlign
    ensures x % IromAlign == r
  {
  }

  // ---------------------------------------------------------------- zero padding alone

  /** The position after `n` turns that pad one segment with zeros. */
  function ZeroPadded(pos: nat, addr: nat, n: nat): nat
    decreases n
  {
    if n == 0 then pos else
    var k := AlignmentDataNeeded(pos, addr);
    ZeroPadded(if k == 0 then pos else pos + SegHeaderLen + RoundUp(k), addr, n - 1)
  }

  lemma {:induction false} ZerosKeepPhase(pos: nat, addr: nat, n: nat)
    ensures InPhase(ZeroPadded(pos, addr, n), addr) <==> InPhase(pos, addr)
    decreases n
  {
    hide AlignmentDataNeeded, RoundUp, InPhase;
    if n > 0 {
      var k := AlignmentDataNeeded(pos, addr);
      if k == 0 {
        ZerosKeepPhase(pos, addr, n - 1);
      } else {
        ZerosKeepPhase(pos + SegHeaderLen + RoundUp(k), addr, n - 1);
        WordsKeepPhase(pos, RoundUp(k), addr);
      }
    }
  }

  lemma WordsKeepPhase(pos: nat, m: nat, addr: nat)
    requires m % 4 == 0
    ensures InPhase(pos + SegHeaderLen + m, addr) <==> InPhase(pos, addr)
  {
    assert m == 4 * (m / 4);
    ModShift(pos, 2 + m / 4, 4);
  }

  lemma ZeroPaddingEnds(pos: nat, addr: nat)
    requires InPhase(pos, addr)
    ensures AlignmentDataNeeded(ZeroPadded(pos, addr, 1), addr) == 0
  {
    var k := AlignmentDataNeeded(pos, addr);
    PaddingIsWords(pos, addr);
    if k != 0 {
      PaddingAligns(pos, addr);
      ZeroNeededExactly(pos + SegHeaderLen + k, addr);
      assert ZeroPadded(pos, addr, 1) == ZeroPadded(pos + SegHeaderLen + k, addr, 0);
    }
  }

  /** With zeros alone the padding ends, after one turn at most, exactly if position and address agree modulo 4;
      otherwise it never ends. */
  lemma ZeroPaddingEndsExactly(pos: nat, addr: nat)
    ensures (exists n :: AlignmentDataNeeded(ZeroPadded(pos, addr, n), addr) == 0) <==> InPhase(pos, addr)
  {
    hide AlignmentDataNeeded, ZeroPadded, InPhase;
    if InPhase(pos, addr) { ZeroPaddingEnds(pos, addr); }
    forall n | AlignmentDataNeeded(ZeroPadded(pos, addr, n), addr) == 0 ensures InPhase(pos, addr) {
      AlignedInPhase(ZeroPadded(pos, addr, n), addr);
      ZerosKeepPhase(pos, addr, n);
    }
  }

  // ---------------------------------------------------------------- the whole loop

  /** The loop between two turns: the pieces written and the segments left. */
  datatype Progress = Progress(pieces: seq<Piece>, flash: seq<Segment>, ram: seq<Segment>)

  /** Padding the next flash segment needs. */
  function Needed(p: Progress): nat
    requires p.flash != []
  {
    AlignmentDataNeeded(EndPos(p.pieces), p.flash[0].addr)
  }

  predicate Done(p: Progress) { p.flash == [] }

  /** No padding is asked for, but the next flash segment is not aligned: the assertion fails. */
  predicate AtMisplaced(p: Progress) { p.flash != [] && Needed(p) == 0 && !Aligned(EndPos(p.pieces), p.flash[0].addr) }

  /** The RAM segments have run out and the next flash address is out of phase: padding goes on for ever. */
  predicate Stuck(p: Progress) { p.flash != [] && p.ram == [] && !InPhase(EndPos(p.pieces), p.flash[0].addr) }

  /** `k` bytes cut off the first RAM segment; the rest of the list, without the segment once it is used up. */
  function AfterCut(ram: seq<Segment>, k: nat): (rest: seq<Segment>)
    requires ram != [] && k <= |ram[0].data|
  {
    if k < |ram[0].data| then [Segment(ram[0].addr + k, ram[0].data[k..])] + ram[1..] else ram[1..]
  }

  function CutLength(ram: seq<Segment>, padLen: nat): (k: nat)
    requires ram != []
    ensures k <= |ram[0].data|
  {
    if padLen <= |ram[0].data| then padLen else |ram[0].data|
  }

  function CutPiece(ram: seq<Segment>, k: nat): Segment
    requires ram != [] && k <= |ram[0].data|
  {
    Segment(ram[0].addr, ram[0].data[..k])
  }

  /** One turn: part of a RAM segment, zeros, or the flash segment itself.  An ended loop stays as it is. */
  function Step(p: Progress): Progress {
    if Done(p) || AtMisplaced(p) then p
    else if Needed(p) == 0 then Progress(p.pieces + [Piece(Flash, p.flash[0])], p.flash[1..], p.ram)
    else if p.ram != [] && Needed(p) > SegHeaderLen then
      var k := CutLength(p.ram, Needed(p));
      Progress(p.pieces + [Piece(Ram, CutPiece(p.ram, k))], p.flash, AfterCut(p.ram, k))
    else
      p.(pieces := p.pieces + [Piece(Padding, Segment(0, Zeros(RoundUp(Needed(p)))))])
  }

  function Iterate(p: Progress, n: nat): Progress {
    if n == 0 then p else Step(Iterate(p, n - 1))
  }

  lemma {:induction false} IterateAdd(p: Progress, m: nat, n: nat)
    ensures Iterate(p, m + n) == Iterate(Iterate(p, m), n)
    decreases n
  {
    hide Step;
    if n > 0 { IterateAdd(p, m, n - 1); }
  }

  // ---------------------------------------------------------------- where the loop ends

  function RamBytes(ram: seq<Segment>): nat { if ram == [] then 0 else |ram[0].data| + RamBytes(ram[1..]) }

  predicate Settled(p: Progress) { Done(p) || AtMisplaced(p) || Stuck(p) }

  /** 0 once the next flash segment can be written, 1 if a RAM segment can be cut for it, 2 before. */
  function Stage(p: Progress): nat {
    if p.flash == [] || Needed(p) == 0 then 0 else if Needed(p) > SegHeaderLen then 1 else 2
  }

  lemma CutShrinks(ram: seq<Segment>, k: nat)
    requires ram != [] && k <= |ram[0].data|
    ensures RamBytes(AfterCut(ram, k)) + k == RamBytes(ram)
    ensures |AfterCut(ram, k)| == if k < |ram[0].data| then |ram| else |ram| - 1
  {
    if k < |ram[0].data| { assert AfterCut(ram, k)[1..] == ram[1..]; }
  }

  /** Zero padding brings the segment in phase to its place, and one out of phase to where RAM can be cut. */
  lemma ZerosAdvance(p: Progress)
    requires p.flash != [] && Needed(p) != 0 && !Stuck(p) && (p.ram == [] || Needed(p) <= SegHeaderLen)
    ensures var q := p.(pieces := p.pieces + [Piece(Padding, Segment(0, Zeros(RoundUp(Needed(p)))))]);
            Stage(q) < Stage(p)
  {
    hide AlignmentDataNeeded, RoundUp, InPhase, Congruent;
    var pos, addr, n := EndPos(p.pieces), p.flash[0].addr, Needed(p);
    AppendedSegs(p.pieces, Piece(Padding, Segment(0, Zeros(RoundUp(n)))));
    if InPhase(pos, addr) {
      PaddingIsWords(pos, addr);
      WholeWords(n);
      PaddingAligns(pos, addr);
      ZeroNeededExactly(pos + SegHeaderLen + n, addr);
    } else {
      Overshoot(pos, addr);
    }
  }

  lemma WholeWords(n: nat)
    requires n % 4 == 0
    ensures RoundUp(n) == n
  {
  }

  /** The measure of the loop: flash segments, RAM segments, RAM bytes, stage. */
  lemma StepShrinks(p: Progress)
    requires !Settled(p)
    ensures var q := Step(p);
            || |q.flash| < |p.flash|
            || (|q.flash| == |p.flash| && |q.ram| < |p.ram|)
            || (|q.flash| == |p.flash| && |q.ram| == |p.ram| && RamBytes(q.ram) < RamBytes(p.ram))
            || (|q.flash| == |p.flash| && |q.ram| == |p.ram| && RamBytes(q.ram) == RamBytes(p.ram)
            && Stage(q) < Stage(p))
  {
    hide Needed, RoundUp, AfterCut, CutPiece, RamBytes, Stage, InPhase, Aligned;
    if Needed(p) == 0 {
    } else if p.ram != [] && Needed(p) > SegHeaderLen {
      CutShrinks(p.ram, CutLength(p.ram, Needed(p)));
    } else {
      ZerosAdvance(p);
    }
  }

  /** From any state the loop ends, or gets stuck. */
  lemma {:induction false} Settles(p: Progress) returns (n: nat)
    ensures Settled(Iterate(p, n))
    decreases |p.flash|, |p.ram|, RamBytes(p.ram), Stage(p)
  {
    hide Step, Settled, Stage, RamBytes;
    if Settled(p) {
      n := 0;
    } else {
      StepShrinks(p);
      var m := Settles(Step(p));
      IterateAdd(p, 1, m);
      assert Iterate(p, 1) == Step(Iterate(p, 0)) == Step(p);
      n := 1 + m;
    }
  }

  lemma StuckStays(p: Progress)
    requires Stuck(p)
    ensures Stuck(Step(p)) && Step(p).flash == p.flash && !Done(p) && !AtMisplaced(p)
  {
    hide AlignmentDataNeeded, RoundUp, InPhase, Aligned;
    var pos, addr := EndPos(p.pieces), p.flash[0].addr;
    if Needed(p) == 0 { AlignedInPhase(pos, addr); }
    AppendedSegs(p.pieces, Piece(Padding, Segment(0, Zeros(RoundUp(Needed(p))))));
    WordsKeepPhase(pos, RoundUp(Needed(p)), addr);
  }

  /** Once stuck, always stuck: whatever the number of turns, no flash segment is written any more. */
  lemma {:induction false} StuckForever(p: Progress, n: nat)
    requires Stuck(p)
    ensures Stuck(Iterate(p, n)) && Iterate(p, n).flash == p.flash
  {
    hide Step, Stuck;
    if n > 0 {
      StuckForever(p, n - 1);
      StuckStays(Iterate(p, n - 1));
    }
  }

  lemma {:induction false} EndedStays(p: Progress, n: nat)
    requires Done(p) || AtMisplaced(p)
    ensures Iterate(p, n) == p
  {
    hide AtMisplaced;
    if n > 0 { EndedStays(p, n - 1); }
  }

  lemma DoneOnce(p: Progress, m: nat, n: nat)
    requires Done(Iterate(p, m)) && Done(Iterate(p, n))
    ensures Iterate(p, m) == Iterate(p, n)
  {
    hide Iterate, Done;
    if m <= n {
      IterateAdd(p, m, n - m);
      EndedStays(Iterate(p, m), n - m);
    } else {
      IterateAdd(p, n, m - n);
      EndedStays(Iterate(p, n), m - n);
    }
  }

  /** How the loop settles does not depend on when one looks. */
  lemma OneOutcome(p: Progress, m: nat, n: nat)
    requires Settled(Iterate(p, m)) && m <= n
    ensures Done(Iterate(p, m)) == Done(Iterate(p, n))
    ensures AtMisplaced(Iterate(p, m)) == AtMisplaced(Iterate(p, n))
    ensures Stuck(Iterate(p, m)) == Stuck(Iterate(p, n))
  {
    hide Iterate, AtMisplaced, Stuck;
    IterateAdd(p, m, n - m);
    var q := Iterate(p, m);
    if Stuck(q) {
      StuckStays(q);
      StuckForever(q, n - m);
      StuckStays(Iterate(q, n - m));
    } else {
      EndedStays(q, n - m);
    }
  }

  /** All flash segments get written. */
  ghost predicate Completes(p: Progress) { exists n :: Done(Iterate(p, n)) }

  /** The assertion before a flash segment fails. */
  ghost predicate Misplaces(p: Progress) { exists n :: AtMisplaced(Iterate(p, n)) }

  /** The RAM segments run out before a flash segment that zeros cannot bring in place. */
  ghost predicate GetsStuck(p: Progress) { exists n :: Stuck(Iterate(p, n)) }

  /** The outcome seen in one settled state is the outcome. */
  lemma OutcomeSeen(p: Progress, n: nat)
    requires Settled(Iterate(p, n))
    ensures Completes(p) <==> Done(Iterate(p, n))
    ensures Misplaces(p) <==> AtMisplaced(Iterate(p, n))
    ensures GetsStuck(p) <==> Stuck(Iterate(p, n))
  {
    hide Iterate, Done, AtMisplaced, Stuck;
    forall m: nat | Settled(Iterate(p, m))
      ensures Done(Iterate(p, m)) == Done(Iterate(p, n))
      ensures AtMisplaced(Iterate(p, m)) == AtMisplaced(Iterate(p, n))
      ensures Stuck(Iterate(p, m)) == Stuck(Iterate(p, n))
    {
      if m <= n { OneOutcome(p, m, n); } else { OneOutcome(p, n, m); }
    }
  }

  /** The loop completes, fails the assertion or never ends: always exactly one of the three. */
  lemma OneOfThree(p: Progress)
    ensures Completes(p) <==> !Misplaces(p) && !GetsStuck(p)
    ensures !(Misplaces(p) && GetsStuck(p))
    ensures GetsStuck(p) <==> forall n: nat :: !Done(Iterate(p, n)) && !AtMisplaced(Iterate(p, n))
  {
    hide Iterate, Done, AtMisplaced, Stuck;
    var n := Settles(p);
    OutcomeSeen(p, n);
    Apart(Iterate(p, n));
  }

  lemma Apart(p: Progress)
    ensures !(Done(p) && AtMisplaced(p)) && !(Done(p) && Stuck(p)) && !(AtMisplaced(p) && Stuck(p))
  {
    hide AlignmentDataNeeded, InPhase, Aligned;
    if AtMisplaced(p) { AlignedInPhase(EndPos(p.pieces), p.flash[0].addr); }
  }

  // ---------------------------------------------------------------- which inputs end

  /** Flash segments are whole words, and what has been written makes whole words with the RAM bytes left. */
  predicate Balanced(p: Progress) { AllWords(p.flash) && (EndPos(p.pieces) + RamBytes(p.ram)) % 4 == 0 }

  predicate WordAddrs(flash: seq<Segment>) { flash == [] || (flash[0].addr % 4 == 0 && WordAddrs(flash[1..])) }

  /** No flash segment starts in the first 16 bytes of a 64 KiB page. */
  predicate OffBoundary(flash: seq<Segment>) {
    flash == [] || (Residue(flash[0].addr) >= 2 * SegHeaderLen && OffBoundary(flash[1..]))
  }

  lemma SumOfWords(a: nat, b: nat, m: nat)
    requires m % 4 == 0
    ensures (a + m + b) % 4 == 0 <==> (a + b) % 4 == 0
  {
    assert m == 4 * (m / 4);
    ModShift(a + b, m / 4, 4);
  }

  lemma StepBalanced(p: Progress)
    requires Balanced(p)
    ensures Balanced(Step(p))
  {
    hide RoundUp, AfterCut, CutPiece, CutLength, AllWords, RamBytes, Residue, AlignmentDataNeeded, EndPos, Aligned;
    if p.flash == [] || AtMisplaced(p) {
    } else {
      var n, pos := Needed(p), EndPos(p.pieces);
      if n == 0 {
        AppendedSegs(p.pieces, Piece(Flash, p.flash[0]));
        FirstWords(p.flash);
        SumOfWords(pos, RamBytes(p.ram), SegHeaderLen + |p.flash[0].data|);
      } else if p.ram != [] && n > SegHeaderLen {
        var k := CutLength(p.ram, n);
        AppendedSegs(p.pieces, Piece(Ram, CutPiece(p.ram, k)));
        CutPieceLength(p.ram, k);
        CutShrinks(p.ram, k);
        SumOfWords(pos, RamBytes(p.ram), SegHeaderLen);
      } else {
        AppendedSegs(p.pieces, Piece(Padding, Segment(0, Zeros(RoundUp(n)))));
        SumOfWords(pos, RamBytes(p.ram), SegHeaderLen + RoundUp(n));
      }
    }
  }

  lemma FirstWords(segs: seq<Segment>)
    requires AllWords(segs) && segs != []
    ensures |segs[0].data| % 4 == 0 && AllWords(segs[1..])
  {
    WordsIsMultiple(|segs[0].data|);
  }

  /** From there on whole-word addresses are the only question, and only once the RAM segments have run out. */
  lemma StuckExactly(p: Progress)
    requires Balanced(p)
    ensures Stuck(p) <==> p.flash != [] && p.ram == [] && p.flash[0].addr % 4 != 0
  {
  }

  lemma StepKeepsAddrs(p: Progress)
    ensures WordAddrs(p.flash) ==> WordAddrs(Step(p).flash)
    ensures OffBoundary(p.flash) ==> OffBoundary(Step(p).flash) && !AtMisplaced(p)
  {
    hide AlignmentDataNeeded, RoundUp, CutLength, Congruent, Residue;
    if p.flash != [] { ZeroNeededExactly(EndPos(p.pieces), p.flash[0].addr); }
  }

  lemma {:induction false} IterateKeeps(p: Progress, n: nat)
    ensures Balanced(p) ==> Balanced(Iterate(p, n))
    ensures WordAddrs(p.flash) ==> WordAddrs(Iterate(p, n).flash)
    ensures OffBoundary(p.flash) ==> OffBoundary(Iterate(p, n).flash) && !AtMisplaced(Iterate(p, n))
  {
    hide Step, Balanced, WordAddrs, OffBoundary, AtMisplaced;
    StepKeepsAddrs(Iterate(p, n));
    if n > 0 {
      IterateKeeps(p, n - 1);
      StepKeepsAddrs(Iterate(p, n - 1));
      if Balanced(p) { StepBalanced(Iterate(p, n - 1)); }
    }
  }

  /** Flash addresses that are multiples of 4 never get the loop stuck. */
  lemma WordAddrsEnd(p: Progress)
    requires Balanced(p) && WordAddrs(p.flash)
    ensures !GetsStuck(p)
  {
    hide Iterate, Stuck, Balanced;
    forall n ensures !Stuck(Iterate(p, n)) {
      IterateKeeps(p, n);
      StuckExactly(Iterate(p, n));
    }
  }

  /** Flash segments off the page starts are never misplaced. */
  lemma OffBoundaryPlaced(p: Progress)
    requires OffBoundary(p.flash)
    ensures !Misplaces(p)
  {
    hide Iterate, AtMisplaced;
    forall n ensures !AtMisplaced(Iterate(p, n)) { IterateKeeps(p, n); }
  }

  lemma StepWithoutRam(p: Progress)
    requires Balanced(p) && p.ram == [] && !WordAddrs(p.flash)
    ensures !WordAddrs(Step(p).flash) && Step(p).ram == []
  {
    hide AlignmentDataNeeded, RoundUp, InPhase, Aligned;
    if p.flash[0].addr % 4 != 0 {
      StuckExactly(p);
      StuckStays(p);
    }
  }

  lemma {:induction false} WithoutRam(p: Progress, n: nat)
    requires Balanced(p) && p.ram == [] && !WordAddrs(p.flash)
    ensures !WordAddrs(Iterate(p, n).flash) && Iterate(p, n).ram == []
  {
    hide Step, WordAddrs, Balanced;
    if n > 0 {
      WithoutRam(p, n - 1);
      IterateKeeps(p, n - 1);
      StepWithoutRam(Iterate(p, n - 1));
    }
  }

  /** With no RAM segment to cut, exactly the images whose flash addresses are all multiples of 4 are completed
      or misplaced; off the page starts, exactly those are completed. */
  lemma WithoutRamExactly(p: Progress)
    requires Balanced(p) && p.ram == []
    ensures Completes(p) ==> WordAddrs(p.flash)
    ensures OffBoundary(p.flash) ==> (Completes(p) <==> WordAddrs(p.flash))
  {
    hide Iterate, Balanced, OffBoundary;
    OneOfThree(p);
    if WordAddrs(p.flash) {
      WordAddrsEnd(p);
      if OffBoundary(p.flash) { OffBoundaryPlaced(p); }
    } else {
      forall n ensures !Done(Iterate(p, n)) { WithoutRam(p, n); }
    }
  }

  /** A RAM segment long enough is cut once, and the flash segment follows, whatever its address. */
  lemma FullCut(p: Progress)
    requires p.flash != [] && p.ram != [] && SegHeaderLen < Needed(p) <= |p.ram[0].data|
    ensures var k := Needed(p);
            Iterate(p, 2) == Progress(p.pieces + [Piece(Ram, CutPiece(p.ram, k)), Piece(Flash, p.flash[0])],
                                      p.flash[1..], AfterCut(p.ram, k))
  {
    hide AlignmentDataNeeded, Aligned, AfterCut, CutPiece;
    var pos, addr, k := EndPos(p.pieces), p.flash[0].addr, Needed(p);
    var piece := Piece(Ram, CutPiece(p.ram, k));
    assert |piece.seg.data| == k by { CutPieceLength(p.ram, k); }
    PaddingAligns(pos, addr);
    AppendedSegs(p.pieces, piece);
    ZeroNeededExactly(pos + SegHeaderLen + k, addr);
    var q := Step(p);
    assert q == Progress(p.pieces + [piece], p.flash, AfterCut(p.ram, k));
    assert Step(q) == Progress(q.pieces + [Piece(Flash, p.flash[0])], p.flash[1..], q.ram);
    assert q.pieces + [Piece(Flash, p.flash[0])] == p.pieces + [piece, Piece(Flash, p.flash[0])];
    assert Iterate(p, 2) == Step(Iterate(p, 1)) && Iterate(p, 1) == Step(Iterate(p, 0));
  }

  lemma CutPieceLength(ram: seq<Segment>, k: nat)
    requires ram != [] && k <= |ram[0].data|
    ensures |CutPiece(ram, k).data| == k
  {
  }

  /** Two states with the same outcome. */
  ghost predicate SameEnd(p: Progress, q: Progress) {
    (Completes(p) <==> Completes(q)) && (Misplaces(p) <==> Misplaces(q)) && (GetsStuck(p) <==> GetsStuck(q))
  }

  lemma StepSameEnd(p: Progress)
    ensures SameEnd(p, Step(p))
  {
    hide Step, Done, AtMisplaced, Stuck, Iterate;
    var n := Settles(Step(p));
    IterateAdd(p, 1, n);
    OneStep(p);
    OutcomeSeen(Step(p), n);
    OutcomeSeen(p, 1 + n);
  }

  lemma OneStep(p: Progress)
    ensures Iterate(p, 1) == Step(p)
  {
    assert Iterate(p, 1) == Step(Iterate(p, 0));
  }

  /** Where the first RAM segment is cut: zeros come first if no more than a header is needed. */
  function CutPos(pos: nat, addr: nat): nat {
    var n := AlignmentDataNeeded(pos, addr);
    if n > SegHeaderLen then pos else pos + SegHeaderLen + RoundUp(n)
  }

  /** One of the RAM segments has the bytes needed where it comes to stand. */
  predicate RamReaches(pos: nat, addr: nat, ram: seq<Segment>)
    decreases |ram|
  {
    ram != [] &&
    var here := CutPos(pos, addr);
    (AlignmentDataNeeded(here, addr) <= |ram[0].data|
        || RamReaches(here + SegHeaderLen + |ram[0].data|, addr, ram[1..]))
  }

  /** 65488 bytes in one segment bring the file to offset 65520, where a segment at 0x400D0000 is not padded for. */
  lemma PageStartMisplaced(first: Segment, second: Segment)
    requires first.addr == 0x3F400020 && |first.data| == 65488 && second.addr == 0x400D0000
    ensures Misplaces(Progress([], [first, second], []))
  {
    hide Congruent;
    var p := Progress([], [first, second], []);
    CongruentIsMod(HeaderLen + SegHeaderLen, first.addr);
    CongruentIsMod(65520 + SegHeaderLen, second.addr);
    AppendedSegs([], Piece(Flash, first));
    assert Iterate(p, 1) == Step(Iterate(p, 0));
    assert AtMisplaced(Iterate(p, 1));
  }

  // ---------------------------------------------------------------- the outcome, read off the input

  /** Where a flash segment comes to be written, and the RAM segments left there, if it does. */
  datatype Place = Nowhere | At(pos: nat, ram: seq<Segment>)

  /** Where no more padding is asked for.  RAM segments too short are written whole, one after the other; the
      first that is long enough is cut; zeros come in front of a cut where no more than a header is needed, and
      without RAM segments, where they only help in phase. */
  function Placed(pos: nat, addr: nat, ram: seq<Segment>): Place
    decreases |ram|
  {
    if AlignmentDataNeeded(pos, addr) == 0 then At(pos, ram)
    else if ram == [] then
      if InPhase(pos, addr) then At(pos + SegHeaderLen + AlignmentDataNeeded(pos, addr), []) else Nowhere
    else
      var here := CutPos(pos, addr);
      var k := AlignmentDataNeeded(here, addr);
      if k == 0 then At(here, ram)
      else if k <= |ram[0].data| then At(here + SegHeaderLen + k, AfterCut(ram, k))
      else Placed(here + SegHeaderLen + |ram[0].data|, addr, ram[1..])
  }

  datatype Fate = Packs | Fails | Loops

  /** The outcome as a function of the position, the flash addresses and lengths, and the RAM segments. */
  function FateOf(pos: nat, flash: seq<Segment>, ram: seq<Segment>): Fate
    decreases |flash|
  {
    if flash == [] then Packs else
    match Placed(pos, flash[0].addr, ram)
    case Nowhere => Loops
    case At(at, left) =>
      if !Aligned(at, flash[0].addr) then Fails
      else FateOf(at + SegHeaderLen + |flash[0].data|, flash[1..], left)
  }

  /** One turn that does not write the flash segment. */
  lemma PaddingTurn(p: Progress) returns (q: Progress)
    requires p.flash != [] && Needed(p) != 0
    ensures q.flash == p.flash && SameEnd(p, q)
    ensures var pos, n := EndPos(p.pieces), Needed(p);
            if p.ram != [] && n > SegHeaderLen then
              var k := CutLength(p.ram, n);
              q.ram == AfterCut(p.ram, k) && EndPos(q.pieces) == pos + SegHeaderLen + k
            else q.ram == p.ram && EndPos(q.pieces) == pos + SegHeaderLen + RoundUp(n)
  {
    hide AlignmentDataNeeded, Aligned, AfterCut, CutPiece, RoundUp, EndPos, SameEnd;
    q := Step(p);
    StepSameEnd(p);
    if p.ram != [] && Needed(p) > SegHeaderLen {
      var k := CutLength(p.ram, Needed(p));
      CutPieceLength(p.ram, k);
      AppendedSegs(p.pieces, Piece(Ram, CutPiece(p.ram, k)));
    } else {
      AppendedSegs(p.pieces, Piece(Padding, Segment(0, Zeros(RoundUp(Needed(p))))));
    }
  }

  /** Zeros in front of the cut, if they are called for, lead to where nothing or more than a header is needed. */
  lemma TurnToCut(p: Progress) returns (q: Progress)
    requires p.flash != [] && p.ram != [] && Needed(p) != 0
    ensures q.flash == p.flash && q.ram == p.ram && SameEnd(p, q)
    ensures EndPos(q.pieces) == CutPos(EndPos(p.pieces), p.flash[0].addr)
    ensures Needed(q) == 0 || Needed(q) > SegHeaderLen
  {
    hide AlignmentDataNeeded, RoundUp, EndPos, InPhase, Congruent;
    var pos, addr, n := EndPos(p.pieces), p.flash[0].addr, Needed(p);
    if n > SegHeaderLen {
      q := p;
    } else {
      q := PaddingTurn(p);
      if InPhase(pos, addr) {
        ZerosInPhase(pos, addr);
      } else {
        Overshoot(pos, addr);
      }
    }
  }

  lemma ZerosInPhase(pos: nat, addr: nat)
    requires InPhase(pos, addr) && AlignmentDataNeeded(pos, addr) != 0
    ensures var n := AlignmentDataNeeded(pos, addr);
            RoundUp(n) == n && AlignmentDataNeeded(pos + SegHeaderLen + n, addr) == 0
  {
    hide AlignmentDataNeeded, RoundUp, InPhase, Congruent;
    var n := AlignmentDataNeeded(pos, addr);
    PaddingIsWords(pos, addr);
    WholeWords(n);
    PaddingAligns(pos, addr);
    ZeroNeededExactly(pos + SegHeaderLen + n, addr);
  }

  lemma SameEndTrans(p: Progress, q: Progress, r: Progress)
    requires SameEnd(p, q) && SameEnd(q, r)
    ensures SameEnd(p, r)
  {
  }

  /** The loop comes to the place that Placed gives, or is stuck if there is none. */
  lemma {:induction false} PlacedExactly(p: Progress) returns (q: Progress)
    requires p.flash != []
    ensures q.flash == p.flash && SameEnd(p, q)
    ensures match Placed(EndPos(p.pieces), p.flash[0].addr, p.ram)
            case Nowhere => Stuck(q)
            case At(pos, ram) => EndPos(q.pieces) == pos && q.ram == ram && Needed(q) == 0
    decreases |p.ram|
  {
    hide AlignmentDataNeeded, InPhase, Aligned, AfterCut, RoundUp, EndPos, SameEnd, CutPos;
    var pos, addr := EndPos(p.pieces), p.flash[0].addr;
    if Needed(p) == 0 {
      q := p;
      SameEndSelf(p);
    } else if p.ram == [] {
      if InPhase(pos, addr) {
        ZerosInPhase(pos, addr);
        q := PaddingTurn(p);
      } else {
        q := p;
        SameEndSelf(p);
      }
    } else {
      var r := TurnToCut(p);
      if Needed(r) == 0 {
        q := r;
      } else {
        var t := PaddingTurn(r);
        SameEndTrans(p, r, t);
        if Needed(r) <= |p.ram[0].data| {
          q := t;
          FullCutAligns(EndPos(r.pieces), addr);
        } else {
          UsedUp(p.ram);
          q := PlacedExactly(t);
          SameEndTrans(p, t, q);
        }
      }
    }
  }

  lemma SameEndSelf(p: Progress)
    ensures SameEnd(p, p)
  {
  }

  lemma FullCutAligns(pos: nat, addr: nat)
    requires AlignmentDataNeeded(pos, addr) != 0
    ensures AlignmentDataNeeded(pos + SegHeaderLen + AlignmentDataNeeded(pos, addr), addr) == 0
  {
    hide AlignmentDataNeeded, Congruent;
    PaddingAligns(pos, addr);
    ZeroNeededExactly(pos + SegHeaderLen + AlignmentDataNeeded(pos, addr), addr);
  }

  lemma UsedUp(ram: seq<Segment>)
    requires ram != []
    ensures AfterCut(ram, |ram[0].data|) == ram[1..]
  {
  }

  /** What the loop comes to, for every list of flash and RAM segments: exactly what FateOf says of the input. */
  lemma {:induction false} FateExactly(p: Progress)
    ensures var fate := FateOf(EndPos(p.pieces), p.flash, p.ram);
            && (Completes(p) <==> fate.Packs?) && (Misplaces(p) <==> fate.Fails?) && (GetsStuck(p) <==> fate.Loops?)
    decreases |p.flash|
  {
    hide AlignmentDataNeeded, Aligned, AfterCut, EndPos, Placed, Iterate, Completes, Misplaces, GetsStuck;
    if p.flash == [] {
      SettledNow(p);
    } else {
      var q := PlacedExactly(p);
      if Stuck(q) || AtMisplaced(q) {
        SettledNow(q);
        NotBoth(q);
      } else {
        StepSameEnd(q);
        AppendedSegs(q.pieces, Piece(Flash, q.flash[0]));
        FateExactly(Step(q));
      }
    }
  }

  lemma SettledNow(p: Progress)
    requires Settled(p)
    ensures (Completes(p) <==> Done(p)) && (Misplaces(p) <==> AtMisplaced(p)) && (GetsStuck(p) <==> Stuck(p))
  {
    hide Done, AtMisplaced, Stuck;
    OutcomeSeen(p, 0);
  }

  lemma NotBoth(p: Progress)
    requires p.flash != []
    ensures Needed(p) == 0 ==> !Stuck(p)
    ensures !(Stuck(p) && AtMisplaced(p))
  {
    hide AlignmentDataNeeded, InPhase, Aligned;
    if Needed(p) == 0 { AlignedInPhase(EndPos(p.pieces), p.flash[0].addr); }
  }

  lemma {:induction false} OddPlaced(pos: nat, addr: nat, ram: seq<Segment>)
    requires pos % 4 == 0 && addr % 4 != 0 && AllWords(ram)
    ensures RamReaches(pos, addr, ram) <==> Placed(pos, addr, ram).At?
    ensures Placed(pos, addr, ram).At? ==> Aligned(Placed(pos, addr, ram).pos, addr)
    decreases |ram|
  {
    hide AlignmentDataNeeded, Aligned, AllWords, AfterCut, RoundUp;
    if AlignmentDataNeeded(pos, addr) == 0 { AlignedInPhase(pos, addr); }
    if ram != [] {
      var here := CutPos(pos, addr);
      WordsKeepPhase(pos, RoundUp(AlignmentDataNeeded(pos, addr)), 0);
      if AlignmentDataNeeded(here, addr) == 0 { AlignedInPhase(here, addr); }
      PaddingAligns(here, addr);
      FirstWords(ram);
      var after := here + SegHeaderLen + |ram[0].data|;
      if AlignmentDataNeeded(here, addr) > |ram[0].data| { OddPlaced(after, addr, ram[1..]); }
    }
  }

  /** One flash segment, at an address that is not a multiple of 4, is written exactly if some RAM segment
      reaches it. */
  lemma OddAddressExactly(p: Progress)
    requires |p.flash| == 1 && p.flash[0].addr % 4 != 0
    requires EndPos(p.pieces) % 4 == 0 && AllWords(p.ram)
    ensures Completes(p) <==> RamReaches(EndPos(p.pieces), p.flash[0].addr, p.ram)
  {
    hide Completes, Misplaces, GetsStuck, RamReaches, Placed, EndPos, Aligned;
    FateExactly(p);
    OddPlaced(EndPos(p.pieces), p.flash[0].addr, p.ram);
  }

  /** At 0x400D0013 the first flash segment of an image needs 65515 bytes of RAM. */
  lemma OddAddressNeeds(flash: Segment, ram: Segment)
    requires flash.addr == 0x400D0013 && Words(|ram.data|)
    ensures Completes(Progress([], [flash], [ram])) <==> |ram.data| >= 65515
  {
    var p := Progress([], [flash], [ram]);
    OddAddressExactly(p);
  }

  // ---------------------------------------------------------------- whole words

  /** Addresses that are multiples of 4 keep every piece whole words. */
  predicate InWords(p: Progress) {
    && AllWords(p.flash) && WordAddrs(p.flash) && AllWords(p.ram) && AllWords(Segs(p.pieces))
    && EndPos(p.pieces) % 4 == 0
  }

  lemma CutWords(ram: seq<Segment>, k: nat)
    requires AllWords(ram) && ram != [] && k <= |ram[0].data| && (k % 4 == 0 || k == |ram[0].data|)
    ensures k % 4 == 0 && Words(|CutPiece(ram, k).data|) && AllWords(AfterCut(ram, k))
  {
    FirstWords(ram);
    WordsIsMultiple(k);
    WordsIsMultiple(|ram[0].data| - k);
    if k < |ram[0].data| { assert AfterCut(ram, k)[1..] == ram[1..]; }
  }

  lemma PieceInWords(pieces: seq<Piece>, p: Piece)
    requires AllWords(Segs(pieces)) && EndPos(pieces) % 4 == 0 && Words(|p.seg.data|)
    ensures AllWords(Segs(pieces + [p])) && EndPos(pieces + [p]) % 4 == 0
  {
    hide AllWords;
    WordsIsMultiple(|p.seg.data|);
    AppendedSegs(pieces, p);
    FitSnoc(Segs(pieces), p.seg);
  }

  lemma StepInWords(p: Progress)
    requires InWords(p)
    ensures InWords(Step(p))
  {
    hide AlignmentDataNeeded, Aligned, RoundUp, AfterCut, CutPiece, AllWords, Words, EndPos, Segs;
    if Done(p) || AtMisplaced(p) {
    } else {
      var n := Needed(p);
      if n == 0 {
        FirstWords(p.flash);
        WordsIsMultiple(|p.flash[0].data|);
        PieceInWords(p.pieces, Piece(Flash, p.flash[0]));
      } else if p.ram != [] && n > SegHeaderLen {
        PaddingIsWords(EndPos(p.pieces), p.flash[0].addr);
        CutWords(p.ram, CutLength(p.ram, n));
        PieceInWords(p.pieces, Piece(Ram, CutPiece(p.ram, CutLength(p.ram, n))));
      } else {
        WordsIsMultiple(RoundUp(n));
        PieceInWords(p.pieces, Piece(Padding, Segment(0, Zeros(RoundUp(n)))));
      }
    }
  }

  lemma {:induction false} IterateInWords(p: Progress, n: nat)
    requires InWords(p)
    ensures InWords(Iterate(p, n))
  {
    hide Step, InWords;
    if n > 0 {
      IterateInWords(p, n - 1);
      StepInWords(Iterate(p, n - 1));
    }
  }
}
