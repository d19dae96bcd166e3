/** The ESP32 firmware image file of esptool.py: header, segments, padding and checksum byte,
  and the loader that reads it back. */
module ImageFormat {
  import opened BitwiseXor
  import opened ByteOrder
  import opened IntBytes

  const ImageMagic: byte := 0xE9
  const ChecksumMagic: byte := 0xEF
  const HeaderLen := 24         // common header (8) and extended header (16)
  const SegHeaderLen := 8
  const MaxLoadSegments := 16

  /** `n` bytes are whole 4-byte words (see WordsIsMultiple). */
  predicate Words(n: nat) { n == 0 || (n >= 4 && Words(n - 4)) }

  lemma {:induction false} WordsIsMultiple(n: nat)
    ensures Words(n) <==> n % 4 == 0
  {
    if n >= 4 { WordsIsMultiple(n - 4); }
  }

  datatype Segment = Segment(addr: nat, data: seq<byte>) {
    /** An address and a length that fit the 32-bit fields of the file. */
    predicate Fits32() { addr < 0x1_0000_0000 && addr + |data| <= 0x1_0000_0000 && |data| < 0x1_0000_0000 }

    /** An address and a length that fit their fields, whatever the sum. */
    predicate FieldsFit() { addr < 0x1_0000_0000 && |data| < 0x1_0000_0000 }

    /** As ImageSegment makes them: whole words. */
    predicate WellFormed() { Words(|data|) && Fits32() }
  }

  predicate AllWellFormed(segs: seq<Segment>) {
    segs == [] || (segs[0].WellFormed() && AllWellFormed(segs[1..]))
  }

  lemma {:induction false} AllWellFormedMembers(segs: seq<Segment>)
    ensures AllWellFormed(segs) <==> forall s :: s in segs ==> s.WellFormed()
  {
    if segs != [] {
      AllWellFormedMembers(segs[1..]);
      assert segs == [segs[0]] + segs[1..];
    }
  }

  predicate AllFit(segs: seq<Segment>) { segs == [] || (segs[0].Fits32() && AllFit(segs[1..])) }

  predicate AllFieldsFit(segs: seq<Segment>) { segs == [] || (segs[0].FieldsFit() && AllFieldsFit(segs[1..])) }

  lemma {:induction false} FitFields(segs: seq<Segment>)
    requires AllFit(segs)
    ensures AllFieldsFit(segs)
  {
    if segs != [] { FitFields(segs[1..]); }
  }

  predicate AllWords(segs: seq<Segment>) { segs == [] || (Words(|segs[0].data|) && AllWords(segs[1..])) }

  /** pad_to(data, 4, zero): every ImageSegment is padded to whole words when it is made. */
  function PadToWord(data: seq<byte>): (d: seq<byte>)
    ensures Words(|d|) && data <= d && |d| < |data| + 4
    ensures Words(|data|) ==> d == data
  {
    WordsIsMultiple(|data|);
    WordsIsMultiple(|data| + (4 - |data| % 4));
    var r := |data| % 4;
    if r != 0 then data + seq(4 - r, _ => 0) else data
  }

  // ---------------------------------------------------------------- headers

  datatype Header = Header(flashMode: byte, flashSizeFreq: byte, entry: nat, wpPin: byte,
                           clkDrv: byte, qDrv: byte, dDrv: byte, csDrv: byte, hdDrv: byte, wpDrv: byte,
                           appendDigest: bool) {
    /** Drive strengths are four bits wide. */
    predicate WellFormed() {
      entry < 0x1_0000_0000 && clkDrv < 16 && qDrv < 16 && dDrv < 16 && csDrv < 16 && hdDrv < 16 && wpDrv < 16
    }
  }

  function JoinByte(ln: byte, hn: byte): byte { ln % 16 + hn % 16 * 16 }

  function LowNibble(b: byte): byte { b % 16 }

  function HighNibble(b: byte): byte { b / 16 }

  function HeaderBytes(h: Header, count: nat): (b: seq<byte>)
    requires count < 256
    ensures |b| == HeaderLen
  {
    [ImageMagic, count, h.flashMode, h.flashSizeFreq] + LE32(h.entry)
    + [h.wpPin, JoinByte(h.clkDrv, h.qDrv), JoinByte(h.dDrv, h.csDrv), JoinByte(h.hdDrv, h.wpDrv)]
    + [0, 0, 0, 0, 0, 0, 0, 0, 0, 0, 0, if h.appendDigest then 1 else 0]
  }

  // ---------------------------------------------------------------- segments

  function SegmentBytes(s: Segment): (b: seq<byte>)
    ensures |b| == SegHeaderLen + |s.data|
  {
    LE32(s.addr) + LE32(|s.data|) + s.data
  }

  function Flatten(parts: seq<seq<byte>>): seq<byte> {
    if parts == [] then [] else Flatten(parts[..|parts| - 1]) + parts[|parts| - 1]
  }

  /** The segments of the file, one after the other. */
  function Body(segs: seq<Segment>): seq<byte> {
    Flatten(seq(|segs|, i requires 0 <= i < |segs| => SegmentBytes(segs[i])))
  }

  /** ESPLoader.checksum: the running XOR over a blob. */
  function Checksum(state: byte, data: seq<byte>): byte {
    if data == [] then state else XorByte(Checksum(state, data[..|data| - 1]), data[|data| - 1])
  }

  function ChecksumAll(state: byte, segs: seq<Segment>): byte {
    if segs == [] then state else Checksum(ChecksumAll(state, segs[..|segs| - 1]), segs[|segs| - 1].data)
  }

  /** Zeros that leave the next byte, the checksum, last in a 16-byte block. */
  function AlignLen(pos: nat): nat { 15 - pos % 16 }

  function Zeros(n: nat): (z: seq<byte>)
    ensures |z| == n
  {
    seq(n, _ => 0)
  }

  function FileBytes(h: Header, segs: seq<Segment>, checksum: byte): seq<byte>
    requires |segs| < 256
  {
    var body := HeaderBytes(h, |segs|) + Body(segs);
    body + Zeros(AlignLen(|body|)) + [checksum]
  }

  // ---------------------------------------------------------------- loading

  datatype LoadError = ShortHeader | InvalidImage | InvalidDigestField | EndOfFile

  /** A loaded image, or the reason it was refused. */
  datatype Loaded = Image(header: Header, segments: seq<Segment>, checksum: byte) | Err(error: LoadError)

  function ReadHeader(f: seq<byte>): Header
    requires |f| >= HeaderLen
  {
    Header(f[2], f[3], FromLE32(f[4..8]), f[8],
           LowNibble(f[9]), HighNibble(f[9]), LowNibble(f[10]), HighNibble(f[10]), LowNibble(f[11]), HighNibble(f[11]),
           f[23] == 1)
  }

  /** Segments read from a file and the position after them, or a file that ends too soon. */
  datatype Parsed = TooShort | Read(segs: seq<Segment>, end: nat)

  /** The segment at `pos`, with its data padded to whole words. */
  function ReadSegment(f: seq<byte>, pos: nat): (r: Parsed)
    ensures r.Read? ==> |r.segs| == 1 && pos + SegHeaderLen <= r.end <= |f|
  {
    if pos + SegHeaderLen > |f| then TooShort else
    var addr, size := FromLE32(f[pos..pos + 4]), FromLE32(f[pos + 4..pos + 8]);
    if pos + SegHeaderLen + size > |f| then TooShort else
    Read([Segment(addr, PadToWord(f[pos + SegHeaderLen..pos + SegHeaderLen + size]))], pos + SegHeaderLen + size)
  }

  function Prepended(segs: seq<Segment>, r: Parsed): Parsed {
    if r.TooShort? then TooShort else Read(segs + r.segs, r.end)
  }

  function ReadSegments(f: seq<byte>, pos: nat, n: nat): (r: Parsed)
    decreases n, pos
  {
    if n == 0 then Read([], pos) else
    var first := ReadSegment(f, pos);
    if first.TooShort? then TooShort else Prepended(first.segs, ReadSegments(f, first.end, n - 1))
  }

  /** The segments after the headers, and the checksum byte that ends the next 16-byte block. */
  function LoadSegments(f: seq<byte>, h: Header, count: nat): Loaded {
    var r := ReadSegments(f, HeaderLen, count);
    if r.TooShort? then Err(EndOfFile) else
    var at := r.end + AlignLen(r.end);
    if at >= |f| then Err(EndOfFile) else Image(h, r.segs, f[at])
  }

  /** What loading the file `f` gives. */
  function LoadSpec(f: seq<byte>): Loaded {
    if |f| < 8 then Err(ShortHeader)
    else if f[0] != ImageMagic || f[1] > MaxLoadSegments then Err(InvalidImage)
    else if |f| < HeaderLen then Err(ShortHeader)
    else if f[23] != 0 && f[23] != 1 then Err(InvalidDigestField)
    else LoadSegments(f, ReadHeader(f), f[1])
  }

  lemma PrependedNothing(r: Parsed)
    ensures Prepended([], r) == r
  {
    if r.Read? { assert [] + r.segs == r.segs; }
  }

  lemma PrependedTwice(a: seq<Segment>, b: seq<Segment>, r: Parsed)
    ensures Prepended(a, Prepended(b, r)) == Prepended(a + b, r)
  {
    if r.Read? { assert a + (b + r.segs) == a + b + r.segs; }
  }

  /** The load_segment loop. */
  method LoadAllSegments(f: seq<byte>, count: nat) returns (r: Parsed)
    ensures r == ReadSegments(f, HeaderLen, count)
  {
    var segments: seq<Segment>, pos: nat := [], HeaderLen;
    PrependedNothing(ReadSegments(f, pos, count));
    for i := 0 to count
      invariant ReadSegments(f, HeaderLen, count) == Prepended(segments, ReadSegments(f, pos, count - i))
    {
      var s := ReadSegment(f, pos);
      if s.TooShort? { return TooShort; }
      PrependedTwice(segments, s.segs, ReadSegments(f, s.end, count - i - 1));
      segments, pos := segments + s.segs, s.end;
    }
    r := Read(segments, pos);
  }

  /** ESP32FirmwareImage(load_file). */
  method Load(f: seq<byte>) returns (r: Loaded)
    ensures r == LoadSpec(f)
    ensures r.Image? ==> exists raw: seq<Segment>, k: nat ::
            Holds(f, raw, k) && r.checksum == f[k] && r.segments == Padded(raw)
  {
    hide Holds, Padded;
    LoadedExactly(f);
    forall raw: seq<Segment>, k: nat | Holds(f, raw, k)
      ensures 24 <= |f| && k < |f| && LoadSpec(f) == Image(ReadHeader(f), Padded(raw), f[k])
    {
      HeldPlace(f, raw, k);
      HeldLoads(f, raw, k);
    }
    if |f| < 8 { return Err(ShortHeader); }
    if f[0] != ImageMagic || f[1] > MaxLoadSegments { return Err(InvalidImage); }
    if |f| < HeaderLen { return Err(ShortHeader); }
    if f[23] != 0 && f[23] != 1 { return Err(InvalidDigestField); }
    var segments := LoadAllSegments(f, f[1]);
    if segments.TooShort? { return Err(EndOfFile); }
    var at := segments.end + AlignLen(segments.end);
    if at >= |f| { return Err(EndOfFile); }
    r := Image(ReadHeader(f), segments.segs, f[at]);
  }

  /** calculate_checksum of a loaded image. */
  method CalculateChecksum(image: Loaded) returns (checksum: byte)
    requires image.Image?
    ensures checksum == ChecksumAll(ChecksumMagic, image.segments)
  {
    checksum := ChecksumMagic;
    for i := 0 to |image.segments|
      invariant checksum == ChecksumAll(ChecksumMagic, image.segments[..i])
    {
      assert image.segments[..i + 1][..i] == image.segments[..i];
      checksum := Checksum(checksum, image.segments[i].data);
    }
    assert image.segments[..|image.segments|] == image.segments;
  }

  // ---------------------------------------------------------------- round trip

  /** `d` stands in the file at `pos`. */
  predicate StandsAt(f: seq<byte>, pos: nat, d: seq<byte>) { pos + |d| <= |f| && f[pos..pos + |d|] == d }

  lemma StandsParts(f: seq<byte>, pos: nat, a: seq<byte>, b: seq<byte>)
    requires StandsAt(f, pos, a + b)
    ensures StandsAt(f, pos, a) && StandsAt(f, pos + |a|, b)
  {
    assert f[pos..pos + |a|] == (a + b)[..|a|];
    assert f[pos + |a|..pos + |a| + |b|] == (a + b)[|a|..];
  }

  lemma SplitJoin(ln: byte, hn: byte)
    requires ln < 16 && hn < 16
    ensures LowNibble(JoinByte(ln, hn)) == ln && HighNibble(JoinByte(ln, hn)) == hn
  {
  }

  lemma HeaderRoundTrip(h: Header, count: nat, f: seq<byte>)
    requires count < 256 && h.WellFormed() && HeaderBytes(h, count) <= f
    ensures f[0] == ImageMagic && f[1] == count && f[23] == (if h.appendDigest then 1 else 0) && ReadHeader(f) == h
  {
    var b := HeaderBytes(h, count);
    assert f[..HeaderLen] == b;
    assert f[4..8] == b[4..8] == LE32(h.entry);
    FromToLE32(h.entry);
    SplitJoin(h.clkDrv, h.qDrv);
    SplitJoin(h.dDrv, h.csDrv);
    SplitJoin(h.hdDrv, h.wpDrv);
  }

  /** The loader makes an ImageSegment of what it reads, and so pads it to whole words. */
  function PaddedSegment(s: Segment): Segment { Segment(s.addr, PadToWord(s.data)) }

  function Padded(segs: seq<Segment>): (p: seq<Segment>)
    ensures |p| == |segs|
  {
    if segs == [] then [] else [PaddedSegment(segs[0])] + Padded(segs[1..])
  }

  /** Segments come back as they were exactly if they are whole words. */
  lemma {:induction false} PaddedExactly(segs: seq<Segment>)
    ensures Padded(segs) == segs <==> AllWords(segs)
  {
    if segs != [] {
      var first, rest := PaddedSegment(segs[0]), Padded(segs[1..]);
      PaddedExactly(segs[1..]);
      assert segs == [segs[0]] + segs[1..];
      assert ([first] + rest)[0] == first && ([first] + rest)[1..] == rest;
    }
  }

  lemma SegmentRoundTrip(f: seq<byte>, pos: nat, s: Segment)
    requires s.FieldsFit() && StandsAt(f, pos, SegmentBytes(s))
    ensures ReadSegment(f, pos) == Read([PaddedSegment(s)], pos + SegHeaderLen + |s.data|)
  {
    StandsParts(f, pos, LE32(s.addr) + LE32(|s.data|), s.data);
    StandsParts(f, pos, LE32(s.addr), LE32(|s.data|));
    FromToLE32(s.addr);
    FromToLE32(|s.data|);
  }

  lemma {:induction false} FlattenCons(d: seq<byte>, parts: seq<seq<byte>>)
    ensures Flatten([d] + parts) == d + Flatten(parts)
  {
    if parts == [] {
      assert Flatten([d]) == Flatten([]) + d;
    } else {
      var n := |parts| - 1;
      FlattenCons(d, parts[..n]);
      assert ([d] + parts)[..n + 1] == [d] + parts[..n];
    }
  }

  lemma BodyCons(s: Segment, segs: seq<Segment>)
    ensures Body([s] + segs) == SegmentBytes(s) + Body(segs)
  {
    var parts := seq(|segs|, i requires 0 <= i < |segs| => SegmentBytes(segs[i]));
    var all := [s] + segs;
    assert seq(|all|, i requires 0 <= i < |all| => SegmentBytes(all[i])) == [SegmentBytes(s)] + parts;
    FlattenCons(SegmentBytes(s), parts);
  }

  lemma ReadSegmentsStep(f: seq<byte>, pos: nat, n: nat, s: Segment, next: nat)
    requires n > 0 && ReadSegment(f, pos) == Read([s], next)
    ensures ReadSegments(f, pos, n) == Prepended([s], ReadSegments(f, next, n - 1))
  {
  }

  lemma BodyNothing()
    ensures Body([]) == []
  {
  }

  lemma {:induction false} SegmentsRoundTrip(f: seq<byte>, pos: nat, segs: seq<Segment>)
    requires AllFieldsFit(segs) && StandsAt(f, pos, Body(segs))
    ensures ReadSegments(f, pos, |segs|) == Read(Padded(segs), pos + |Body(segs)|)
    decreases |segs|
  {
    hide StandsAt, SegmentBytes, Body, ReadSegment, PaddedSegment;
    if segs == [] {
      assert Body([]) == [] by { BodyNothing(); }
    } else {
      var s, tail := segs[0], segs[1..];
      assert segs == [s] + tail;
      var d, rest := SegmentBytes(s), Body(tail);
      assert Body(segs) == d + rest by { BodyCons(s, tail); }
      StandsParts(f, pos, d, rest);
      SegmentRoundTrip(f, pos, s);
      ReadSegmentsStep(f, pos, |segs|, PaddedSegment(s), pos + |d|);
      SegmentsRoundTrip(f, pos + |d|, tail);
    }
  }

  lemma LoadSegmentsParts(h: Header, segs: seq<Segment>, checksum: byte, f: seq<byte>)
    requires AllFieldsFit(segs) && StandsAt(f, HeaderLen, Body(segs))
    requires var end := HeaderLen + |Body(segs)|; StandsAt(f, end + AlignLen(end), [checksum])
    ensures LoadSegments(f, h, |segs|) == Image(h, Padded(segs), checksum)
  {
    hide Body, AllFieldsFit, ReadSegments, AlignLen, Padded;
    SegmentsRoundTrip(f, HeaderLen, segs);
    var at := HeaderLen + |Body(segs)| + AlignLen(HeaderLen + |Body(segs)|);
    assert f[at] == f[at..at + 1][0];
  }

  lemma LoadHeader(h: Header, count: nat, f: seq<byte>)
    requires count < 256 && h.WellFormed() && HeaderBytes(h, count) <= f
    ensures LoadSpec(f) == if count <= MaxLoadSegments then LoadSegments(f, h, count) else Err(InvalidImage)
  {
    HeaderRoundTrip(h, count, f);
  }

  lemma Concatenated(a: seq<byte>, b: seq<byte>, c: seq<byte>, d: seq<byte>, e: seq<byte>)
    ensures var f := a + b + c + d + e;
            a <= f && StandsAt(f, |a|, b) && StandsAt(f, |a| + |b| + |c|, d)
  {
    var f := a + b + c + d + e;
    assert f[..|a|] == a;
  }

  /** A written file loads to the header and checksum byte it was written with and to its segments padded to
      whole words, whatever follows (the SHA-256 digest, if one is appended); with more
      than 16 segments it is refused. */
  lemma LoadFile(h: Header, segs: seq<Segment>, checksum: byte, digest: seq<byte>)
    requires h.WellFormed() && |segs| < 256 && AllFit(segs)
    ensures LoadSpec(FileBytes(h, segs, checksum) + digest)
         == if |segs| <= MaxLoadSegments then Image(h, Padded(segs), checksum) else Err(InvalidImage)
  {
    hide Body, AllFit, AllFieldsFit, LoadSegments, LoadSpec, HeaderBytes, Padded;
    var head, body := HeaderBytes(h, |segs|), Body(segs);
    Concatenated(head, body, Zeros(AlignLen(|head + body|)), [checksum], digest);
    var f := FileBytes(h, segs, checksum) + digest;
    LoadHeader(h, |segs|, f);
    FitFields(segs);
    LoadSegmentsParts(h, segs, checksum, f);
  }

  // ---------------------------------------------------------------- the form of a file

  /** `k` is the last place of the 16-byte block that the byte at `end` falls into. */
  predicate LastOfBlock(end: nat, k: nat) { end <= k < end + 16 && k % 16 == 15 }

  /** A written file is whole 16-byte blocks: header, segments, at most fifteen zeros, and the checksum last. */
  lemma FileForm(h: Header, segs: seq<Segment>, checksum: byte)
    requires |segs| < 256
    ensures var f, end := FileBytes(h, segs, checksum), 24 + |Body(segs)|;
            && |f| % 16 == 0 && end + 1 <= |f| <= end + 16 && f[..end] == HeaderBytes(h, |segs|) + Body(segs)
            && f[|f| - 1] == checksum && forall k :: end <= k < |f| - 1 ==> f[k] == 0
  {
    hide Body, HeaderBytes;
    var body := HeaderBytes(h, |segs|) + Body(segs);
    BlockEnd(|body|);
  }

  lemma BlockEnd(end: nat)
    ensures LastOfBlock(end, end + AlignLen(end))
    ensures (end + AlignLen(end) + 1) % 16 == 0
  {
  }

  lemma OneBlockEnd(end: nat, j: nat, k: nat)
    requires LastOfBlock(end, j) && LastOfBlock(end, k)
    ensures j == k
  {
  }

  /** The segments `raw` stand in the file after the headers, and `k` is the place of its checksum. */
  ghost predicate Holds(f: seq<byte>, raw: seq<Segment>, k: nat) {
    && 24 <= |f| && f[0] == 0xE9 && |raw| == f[1] <= 16 && f[23] <= 1
    && AllFieldsFit(raw) && StandsAt(f, 24, Body(raw)) && LastOfBlock(24 + |Body(raw)|, k) && k < |f|
  }

  /** What the loader accepts, exactly: files that hold as many segments as they announce, up to sixteen, and the
      whole 16-byte block behind them, whose last byte is then the checksum. */
  lemma LoadedExactly(f: seq<byte>)
    ensures LoadSpec(f).Image? <==> exists raw: seq<Segment>, k: nat :: Holds(f, raw, k)
  {
    hide Body, AllFieldsFit, ReadSegments, AlignLen, Padded, ReadHeader, StandsAt, LastOfBlock;
    forall raw: seq<Segment>, k: nat | Holds(f, raw, k) ensures LoadSpec(f).Image? { HeldLoads(f, raw, k); }
    if LoadSpec(f).Image? {
      var r := ReadSegments(f, HeaderLen, f[1]);
      var raw := ReadRaw(f, HeaderLen, f[1]);
      BlockEnd(r.end);
      assert Holds(f, raw, r.end + AlignLen(r.end));
    }
  }

  lemma HeldPlace(f: seq<byte>, raw: seq<Segment>, k: nat)
    requires Holds(f, raw, k)
    ensures 24 <= |f| && k < |f|
  {
  }

  /** What such a file loads to. */
  lemma HeldLoads(f: seq<byte>, raw: seq<Segment>, k: nat)
    requires Holds(f, raw, k)
    ensures LoadSpec(f) == Image(ReadHeader(f), Padded(raw), f[k])
  {
    hide Body, AllFieldsFit, ReadSegments, AlignLen, Padded, ReadHeader, StandsAt;
    var end := 24 + |Body(raw)|;
    SegmentsRoundTrip(f, HeaderLen, raw);
    BlockEnd(end);
    OneBlockEnd(end, k, end + AlignLen(end));
  }

  /** What has been read stands in the file. */
  lemma {:induction false} ReadRaw(f: seq<byte>, pos: nat, n: nat) returns (raw: seq<Segment>)
    requires ReadSegments(f, pos, n).Read? && pos <= |f|
    ensures |raw| == n && AllFieldsFit(raw) && StandsAt(f, pos, Body(raw))
    ensures ReadSegments(f, pos, n).end == pos + |Body(raw)|
    decreases n
  {
    hide SegmentBytes, ReadSegment, Body;
    if n == 0 {
      raw := [];
      BodyNothing();
    } else {
      var first := ReadSegment(f, pos);
      var s := ReadOne(f, pos);
      var rest := ReadRaw(f, first.end, n - 1);
      raw := [s] + rest;
      BodyCons(s, rest);
      StandsJoined(f, pos, SegmentBytes(s), Body(rest));
    }
  }

  lemma StandsJoined(f: seq<byte>, pos: nat, a: seq<byte>, b: seq<byte>)
    requires StandsAt(f, pos, a) && StandsAt(f, pos + |a|, b)
    ensures StandsAt(f, pos, a + b)
  {
    assert f[pos..pos + |a| + |b|] == f[pos..pos + |a|] + f[pos + |a|..pos + |a| + |b|];
  }

  lemma ReadOne(f: seq<byte>, pos: nat) returns (s: Segment)
    requires ReadSegment(f, pos).Read?
    ensures s.FieldsFit() && StandsAt(f, pos, SegmentBytes(s)) && ReadSegment(f, pos).end == pos + |SegmentBytes(s)|
  {
    var a, b := f[pos..pos + 4], f[pos + 4..pos + 8];
    ToFromLE32(a);
    ToFromLE32(b);
    s := Segment(FromLE32(a), f[pos + SegHeaderLen..pos + SegHeaderLen + FromLE32(b)]);
    StandsJoined(f, pos, a, b);
    StandsJoined(f, pos, a + b, s.data);
  }

  /** Why a file is refused. */
  lemma RefusedExactly(f: seq<byte>)
    ensures LoadSpec(f) == Err(InvalidImage) <==> |f| >= 8 && (f[0] != 0xE9 || f[1] > 16)
    ensures LoadSpec(f) == Err(ShortHeader) <==> |f| < 8 || (f[0] == 0xE9 && f[1] <= 16 && |f| < 24)
    ensures LoadSpec(f) == Err(InvalidDigestField) <==> |f| >= 24 && f[0] == 0xE9 && f[1] <= 16 && f[23] > 1
    ensures LoadSpec(f) == Err(EndOfFile) <==> |f| >= 24 && f[0] == 0xE9 && f[1] <= 16 && f[23] <= 1
                                               && !exists raw: seq<Segment>, k: nat :: Holds(f, raw, k)
  {
    hide ReadSegments, Holds, ReadHeader, AlignLen;
    LoadedExactly(f);
  }

  lemma HeaderExample()
    ensures HeaderBytes(Header(2, 0x20, 0x4008_1234, 0xEE, 1, 2, 3, 4, 5, 6, true), 1)
         == [0xE9, 0x01, 0x02, 0x20, 0x34, 0x12, 0x08, 0x40, 0xEE, 0x21, 0x43, 0x65,
             0, 0, 0, 0, 0, 0, 0, 0, 0, 0, 0, 1]
  {
    hide LE32;
    NumberBytes(0x4008_1234, 0x34, 0x12, 0x08, 0x40);
    assert JoinByte(1, 2) == 0x21 && JoinByte(3, 4) == 0x43 && JoinByte(5, 6) == 0x65;
  }

  lemma SegmentExample(data: seq<byte>)
    requires |data| == 4
    ensures Body([Segment(0x3FFB_0000, data)]) == [0x00, 0x00, 0xFB, 0x3F, 0x04, 0x00, 0x00, 0x00] + data
  {
    var s := Segment(0x3FFB_0000, data);
    BodyCons(s, []);
    BodyNothing();
    assert [s] + [] == [s];
    NumberBytes(0x3FFB_0000, 0x00, 0x00, 0xFB, 0x3F);
    NumberBytes(4, 4, 0, 0, 0);
  }

  lemma ChecksumMore(state: byte, d: seq<byte>, bit: byte, k: nat)
    requires bit == Pow2(k)
    ensures bit > 0 && Checksum(state, d + [bit]) == Flipped(Checksum(state, d), bit)
  {
    assert (d + [bit])[..|d|] == d;
    OneBit(Checksum(state, d), bit, k);
  }

  lemma ChecksumExample()
    ensures Checksum(0xEF, [0x10, 0x02, 0x04, 0x40]) == 0xB9
  {
    hide Xor, Checksum;
    assert Checksum(0xEF, []) == 0xEF by { ChecksumNothing(0xEF); }
    ChecksumMore(0xEF, [], 0x10, 4);
    ChecksumMore(0xEF, [] + [0x10], 0x02, 1);
    ChecksumMore(0xEF, [] + [0x10] + [0x02], 0x04, 2);
    ChecksumMore(0xEF, [] + [0x10] + [0x02] + [0x04], 0x40, 6);
    assert [] + [0x10] + [0x02] + [0x04] + [0x40] == [0x10, 0x02, 0x04, 0x40];
  }

  lemma ChecksumNothing(state: byte)
    ensures Checksum(state, []) == state
  {
  }

  lemma OneBit(x: byte, bit: byte, k: nat)
    requires bit == Pow2(k)
    ensures bit > 0 && XorByte(x, bit) == Flipped(x, bit)
  {
    XorFlips(x, k);
  }

  /** One RAM segment of four bytes at 0x3FFB0000, byte for byte: 48 bytes, the checksum at offset 47. */
  lemma FileExample()
    ensures var segs := [Segment(0x3FFB_0000, [0x10, 0x02, 0x04, 0x40])];
            && ChecksumAll(ChecksumMagic, segs) == 0xB9
            && FileBytes(Header(2, 0x20, 0x4008_1234, 0xEE, 1, 2, 3, 4, 5, 6, true), segs, 0xB9)
            == [0xE9, 0x01, 0x02, 0x20, 0x34, 0x12, 0x08, 0x40, 0xEE, 0x21, 0x43, 0x65,
                0, 0, 0, 0, 0, 0, 0, 0, 0, 0, 0, 1]
               + [0x00, 0x00, 0xFB, 0x3F, 0x04, 0x00, 0x00, 0x00, 0x10, 0x02, 0x04, 0x40]
               + [0, 0, 0, 0, 0, 0, 0, 0, 0, 0, 0, 0xB9]
  {
    hide Body, HeaderBytes, Checksum;
    var data: seq<byte> := [0x10, 0x02, 0x04, 0x40];
    var segs := [Segment(0x3FFB_0000, data)];
    HeaderExample();
    SegmentExample(data);
    ChecksumExample();
    assert segs[..0] == [];
    assert Zeros(11) + [0xB9] == [0, 0, 0, 0, 0, 0, 0, 0, 0, 0, 0, 0xB9];
  }
}
