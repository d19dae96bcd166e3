/** The base64 encoding of section 4 of RFC 4648, and the two libb64 coders as machines
    that take one character at a time. */
module Base64Spec {
  import opened BitBytes

  const Pad: byte := 61       // '='
  const NewLine: byte := 10
  const LineGroups := 18      // CHARS_PER_LINE / 4
  const LineBytes := 54       // input bytes of one line

  // ---------------------------------------------------------------- the alphabet

  /** base64_encode_value. */
  function EncodeValue(v: byte): byte {
    if v > 63 then Pad
    else if v < 26 then v + 65
    else if v < 52 then v + 71
    else if v < 62 then v - 4
    else if v == 62 then 43
    else 47
  }

  /** base64_decode_value_signed in 8-bit two's complement: -1 is 0xFF, -2 is 0xFE.  For '{' the source
      reads one entry past its table; its callers here never pass it. */
  function DecodeValue(c: byte): byte {
    var v := c - 43;
    if v >= 0x80 || v > 80 then 0xFF
    else if v == 0 then 62
    else if v == 4 then 63
    else if 5 <= v <= 14 then v + 47
    else if v == 18 then 0xFE
    else if 22 <= v <= 47 then v - 22
    else if 54 <= v <= 79 then v - 28
    else 0xFF
  }

  const Brace: byte := 123

  predicate Skipped(c: byte) { DecodeValue(c) >= 0x80 }

  /** The two tables are inverse to each other, and the decoder skips everything outside the alphabet. */
  lemma Alphabet(v: byte, c: byte)
    requires v <= 63
    ensures DecodeValue(EncodeValue(v)) == v && EncodeValue(v) != 0
    ensures Skipped(c) || (DecodeValue(c) <= 63 && EncodeValue(DecodeValue(c)) == c)
    ensures Skipped(Pad) && Skipped(NewLine)
  {
  }

  // ---------------------------------------------------------------- RFC 4648

  /** Three bytes are a 24-bit group, written as four 6-bit characters. */
  function Quad(a: byte, b: byte, c: byte): (q: seq<byte>)
    ensures |q| == 4
  {
    var v := ((a as bv24) << 16) | ((b as bv24) << 8) | (c as bv24);
    [EncodeValue((v >> 18) as byte), EncodeValue(((v >> 12) & 63) as byte),
     EncodeValue(((v >> 6) & 63) as byte), EncodeValue((v & 63) as byte)]
  }

  function Rfc4648(b: seq<byte>): seq<byte> {
    if |b| >= 3 then Quad(b[0], b[1], b[2]) + Rfc4648(b[3..])
    else if |b| == 2 then Quad(b[0], b[1], 0)[..3] + [Pad]
    else if |b| == 1 then Quad(b[0], 0, 0)[..2] + [Pad, Pad]
    else []
  }

  /** The text of `b` when the current line has room for `room` more bytes: each full line of 72
      characters is ended by a newline. */
  function TextFrom(b: seq<byte>, room: nat): seq<byte>
    requires 0 < room <= LineBytes
    decreases |b|
  {
    if |b| < room then Rfc4648(b) else Rfc4648(b[..room]) + [NewLine] + TextFrom(b[room..], LineBytes)
  }

  function Text(b: seq<byte>): seq<byte> { TextFrom(b, LineBytes) }

  // ---------------------------------------------------------------- the encoder as a machine

  datatype EncodeStep = StepA | StepB | StepC

  datatype Encoder = Encoder(step: EncodeStep, result: byte, stepcount: nat)

  const FreshEncoder := Encoder(StepA, 0, 0)

  function LineEnd(stepcount: nat): seq<byte> { if stepcount + 1 == LineGroups then [NewLine] else [] }

  function Emitted(e: Encoder, fragment: byte): seq<byte> {
    match e.step
    case StepA => [EncodeValue((fragment & 0xFC) >> 2)]
    case StepB => [EncodeValue(e.result | ((fragment & 0xF0) >> 4))]
    case StepC =>
      [EncodeValue(e.result | ((fragment & 0xC0) >> 6)), EncodeValue(fragment & 0x3F)]
      + LineEnd(e.stepcount)
  }

  function Advanced(e: Encoder, fragment: byte): Encoder {
    match e.step
    case StepA => Encoder(StepB, (fragment & 0x03) << 4, e.stepcount)
    case StepB => Encoder(StepC, (fragment & 0x0F) << 2, e.stepcount)
    case StepC => Encoder(StepA, fragment & 0x3F, if e.stepcount + 1 == LineGroups then 0 else e.stepcount + 1)
  }

  function EncodeOut(e: Encoder, plain: seq<byte>): seq<byte>
    decreases |plain|
  {
    if plain == [] then [] else Emitted(e, plain[0]) + EncodeOut(Advanced(e, plain[0]), plain[1..])
  }

  function EncodeAfter(e: Encoder, plain: seq<byte>): Encoder
    decreases |plain|
  {
    if plain == [] then e else EncodeAfter(Advanced(e, plain[0]), plain[1..])
  }

  function Ending(e: Encoder): seq<byte> {
    match e.step
    case StepA => []
    case StepB => [EncodeValue(e.result), Pad, Pad]
    case StepC => [EncodeValue(e.result), Pad]
  }

  /** Encoding in two calls is encoding in one. */
  lemma {:induction false} EncodeSplit(e: Encoder, p: seq<byte>, q: seq<byte>)
    ensures EncodeOut(e, p + q) == EncodeOut(e, p) + EncodeOut(EncodeAfter(e, p), q)
    ensures EncodeAfter(e, p + q) == EncodeAfter(EncodeAfter(e, p), q)
    decreases |p|
  {
    if p == [] {
      assert p + q == q;
    } else {
      assert (p + q)[1..] == p[1..] + q;
      EncodeSplit(Advanced(e, p[0]), p[1..], q);
    }
  }

  function Encoded(e: Encoder, b: seq<byte>): seq<byte> { EncodeOut(e, b) + Ending(EncodeAfter(e, b)) }

  /** What the three steps of a group write. */
  lemma ThreeSteps(e: Encoder, a: byte, b: byte, c: byte)
    requires e.step.StepA?
    ensures var q := Quad(a, b, c);
            && Emitted(e, a) == [q[0]] && Emitted(Advanced(e, a), b) == [q[1]]
            && Emitted(Advanced(Advanced(e, a), b), c) == [q[2], q[3]] + LineEnd(e.stepcount)
  {
    QuadBits(a, b, c);
    hide Quad, EncodeValue;
  }

  lemma JoinGroup(q: seq<byte>, end: seq<byte>, rest: seq<byte>)
    requires |q| == 4
    ensures [q[0]] + ([q[1]] + ([q[2], q[3]] + end + rest)) == q + end + rest
  {
  }

  function NextGroup(e: Encoder, c: byte): Encoder {
    Encoder(StepA, c & 0x3F, if e.stepcount + 1 == LineGroups then 0 else e.stepcount + 1)
  }

  /** Three bytes from a fresh group: the machine writes the RFC's four characters. */
  lemma GroupEmitted(e: Encoder, b: seq<byte>)
    requires e.step.StepA? && |b| >= 3
    ensures Encoded(e, b) == Quad(b[0], b[1], b[2]) + LineEnd(e.stepcount) + Encoded(NextGroup(e, b[2]), b[3..])
  {
    var e1 := Advanced(e, b[0]);
    var e2 := Advanced(e1, b[1]);
    var e3 := Advanced(e2, b[2]);
    assert e3 == NextGroup(e, b[2]);
    assert b[1..][1..] == b[2..] && b[2..][1..] == b[3..];
    ThreeSteps(e, b[0], b[1], b[2]);
    hide Quad, EncodeValue, Advanced, Emitted;
    assert EncodeOut(e, b) == Emitted(e, b[0]) + EncodeOut(e1, b[1..]);
    assert EncodeOut(e1, b[1..]) == Emitted(e1, b[1]) + EncodeOut(e2, b[2..]);
    assert EncodeOut(e2, b[2..]) == Emitted(e2, b[2]) + EncodeOut(e3, b[3..]);
    JoinGroup(Quad(b[0], b[1], b[2]), LineEnd(e.stepcount), EncodeOut(e3, b[3..]));
    assert EncodeAfter(e, b) == EncodeAfter(e1, b[1..]) == EncodeAfter(e2, b[2..]) == EncodeAfter(e3, b[3..]);
    AssocGroup(Quad(b[0], b[1], b[2]) + LineEnd(e.stepcount), EncodeOut(e3, b[3..]), Ending(EncodeAfter(e3, b[3..])));
  }

  lemma AssocGroup(x: seq<byte>, y: seq<byte>, z: seq<byte>)
    ensures x + y + z == x + (y + z)
  {
  }

  lemma QuadBits(a: byte, b: byte, c: byte)
    ensures Quad(a, b, c) == [EncodeValue((a & 0xFC) >> 2), EncodeValue(((a & 0x03) << 4) | ((b & 0xF0) >> 4)),
                              EncodeValue(((b & 0x0F) << 2) | ((c & 0xC0) >> 6)), EncodeValue(c & 0x3F)]
  {
    var v := ((a as bv24) << 16) | ((b as bv24) << 8) | (c as bv24);
    assert (v >> 18) as byte == (a & 0xFC) >> 2;
    assert ((v >> 12) & 63) as byte == ((a & 0x03) << 4) | ((b & 0xF0) >> 4);
    assert ((v >> 6) & 63) as byte == ((b & 0x0F) << 2) | ((c & 0xC0) >> 6);
    assert (v & 63) as byte == c & 0x3F;
  }

  /** The encoder writes exactly the RFC 4648 text, broken into lines. */
  lemma {:induction false} EncoderMeetsRfc(e: Encoder, b: seq<byte>)
    requires e.step.StepA? && e.stepcount < LineGroups
    ensures Encoded(e, b) == TextFrom(b, LineBytes - 3 * e.stepcount)
    decreases |b|
  {
    hide Quad, Ending, Rfc4648;
    if |b| >= 3 {
      GroupEmitted(e, b);
      EncoderMeetsRfc(NextGroup(e, b[2]), b[3..]);
      TextGroup(b, LineBytes - 3 * e.stepcount);
      AssocGroup(Quad(b[0], b[1], b[2]), LineEnd(e.stepcount), Encoded(NextGroup(e, b[2]), b[3..]));
    } else {
      ShortTail(e, b);
    }
  }

  lemma ShortTail(e: Encoder, b: seq<byte>)
    requires e.step.StepA? && |b| < 3
    ensures Encoded(e, b) == Rfc4648(b)
  {
    hide Quad, EncodeValue, Advanced, Emitted;
    if |b| == 2 {
      hide Encoded;
      TwoBytes(e, b[0], b[1]);
      assert b == [b[0], b[1]];
    } else if |b| == 1 {
      hide Encoded;
      OneByte(e, b[0]);
      assert b == [b[0]];
    } else {
      assert b == [];
    }
  }

  lemma TwoBytes(e: Encoder, a: byte, b: byte)
    requires e.step.StepA?
    ensures Encoded(e, [a, b]) == Quad(a, b, 0)[..3] + [Pad]
  {
    var e1 := Advanced(e, a);
    var e2 := Advanced(e1, b);
    var q := Quad(a, b, 0);
    ThreeSteps(e, a, b, 0);
    QuadBits(a, b, 0);
    assert Ending(e2) == [q[2], Pad];
    assert [a, b][1..] == [b] && [b][1..] == [];
    assert EncodeOut(e1, [b]) == [q[1]] + [];
    assert EncodeOut(e, [a, b]) == [q[0]] + EncodeOut(e1, [b]);
    assert EncodeAfter(e, [a, b]) == EncodeAfter(e1, [b]) == e2;
  }

  lemma OneByte(e: Encoder, a: byte)
    requires e.step.StepA?
    ensures Encoded(e, [a]) == Quad(a, 0, 0)[..2] + [Pad, Pad]
  {
    var q := Quad(a, 0, 0);
    ThreeSteps(e, a, 0, 0);
    QuadBits(a, 0, 0);
    assert Ending(Advanced(e, a)) == [q[1], Pad, Pad];
    assert [a][1..] == [];
    assert EncodeOut(e, [a]) == [q[0]] + [];
    assert EncodeAfter(e, [a]) == Advanced(e, a);
  }

  /** The first group of a text. */
  lemma TextGroup(b: seq<byte>, room: nat)
    requires |b| >= 3 && 3 <= room <= LineBytes && room % 3 == 0
    ensures TextFrom(b, room) == Quad(b[0], b[1], b[2]) +
                                 (if room == 3 then [NewLine] + TextFrom(b[3..], LineBytes)
                                  else TextFrom(b[3..], room - 3))
  {
    hide Quad, Rfc4648;
    var q, rest := Quad(b[0], b[1], b[2]), b[3..];
    if |b| < room {
      RfcGroup(b);
    } else {
      var line := b[..room];
      RfcGroup(line);
      assert line[3..] == rest[..room - 3] && rest[room - 3..] == b[room..];
      if room == 3 {
        RfcNothing();
        assert q + [] == q;
        AssocGroup(q, [NewLine], TextFrom(rest, LineBytes));
      } else {
        AssocGroup(q, Rfc4648(line[3..]), [NewLine]);
        AssocGroup(q, Rfc4648(line[3..]) + [NewLine], TextFrom(b[room..], LineBytes));
      }
    }
  }

  lemma RfcGroup(b: seq<byte>)
    requires |b| >= 3
    ensures Rfc4648(b) == Quad(b[0], b[1], b[2]) + Rfc4648(b[3..])
  {
  }

  lemma RfcNothing()
    ensures Rfc4648([]) == []
  {
  }

  // ---------------------------------------------------------------- lengths

  lemma {:induction false} RfcLength(b: seq<byte>)
    ensures |Rfc4648(b)| == 4 * ((|b| + 2) / 3)
  {
    if |b| >= 3 { RfcLength(b[3..]); }
  }

  /** A line more is 72 characters and a newline. */
  lemma LineMore(n: nat)
    requires n >= LineBytes
    ensures 4 * ((n + 2) / 3) == 72 + 4 * ((n - LineBytes + 2) / 3) && n / LineBytes == 1 + (n - LineBytes) / LineBytes
  {
  }

  lemma {:induction false} TextLength(b: seq<byte>)
    ensures |Text(b)| == 4 * ((|b| + 2) / 3) + |b| / LineBytes
    decreases |b|
  {
    hide Rfc4648;
    if |b| < LineBytes {
      RfcLength(b);
    } else {
      RfcLength(b[..LineBytes]);
      TextLength(b[LineBytes..]);
      LineMore(|b|);
    }
  }

  /** base64::encode allocates 1.6 bytes for each input byte, and one more. */
  function Allocated(n: nat): nat { n * 8 / 5 + 1 }

  predicate AllocationFits(n: nat) { n != 1 && n != 2 && n != 4 && n != 7 }

  /** The text and its terminator fit the allocation for every length but four. */
  lemma AllocationFitsExactly(b: seq<byte>)
    ensures |Text(b)| + 1 <= Allocated(|b|) <==> AllocationFits(|b|)
  {
    TextLength(b);
  }

  // ---------------------------------------------------------------- the decoder as a machine

  datatype DecodeStep = Step_a | Step_b | Step_c | Step_d

  /** `plain` holds the bits of the byte under construction; there are none in step a. */
  datatype Decoder = Decoder(step: DecodeStep, plain: byte)

  const FreshDecoder := Decoder(Step_a, 0)

  /** The bits of a character that complete the byte under construction. */
  function LowBits(step: DecodeStep, fragment: byte): byte {
    match step
    case Step_a => 0
    case Step_b => (fragment & 0x30) >> 4
    case Step_c => (fragment & 0x3C) >> 2
    case Step_d => fragment & 0x3F
  }

  /** The bits of a character that start the next byte. */
  function HighBits(step: DecodeStep, fragment: byte): byte {
    match step
    case Step_a => (fragment & 0x3F) << 2
    case Step_b => (fragment & 0x0F) << 4
    case Step_c => (fragment & 0x03) << 6
    case Step_d => 0
  }

  function NextStep(step: DecodeStep): DecodeStep {
    match step case Step_a => Step_b case Step_b => Step_c case Step_c => Step_d case Step_d => Step_a
  }

  function Yielded(d: Decoder, c: byte): seq<byte> {
    if Skipped(c) || d.step.Step_a? then [] else [d.plain | LowBits(d.step, DecodeValue(c))]
  }

  function Moved(d: Decoder, c: byte): Decoder {
    if Skipped(c) then d else Decoder(NextStep(d.step), HighBits(d.step, DecodeValue(c)))
  }

  function DecodeOut(d: Decoder, code: seq<byte>): seq<byte>
    decreases |code|
  {
    if code == [] then [] else Yielded(d, code[0]) + DecodeOut(Moved(d, code[0]), code[1..])
  }

  function DecodeAfter(d: Decoder, code: seq<byte>): Decoder
    decreases |code|
  {
    if code == [] then d else DecodeAfter(Moved(d, code[0]), code[1..])
  }

  /** Decoding in two calls is decoding in one. */
  lemma {:induction false} DecodeSplit(d: Decoder, p: seq<byte>, q: seq<byte>)
    ensures DecodeOut(d, p + q) == DecodeOut(d, p) + DecodeOut(DecodeAfter(d, p), q)
    ensures DecodeAfter(d, p + q) == DecodeAfter(DecodeAfter(d, p), q)
    decreases |p|
  {
    if p == [] {
      assert p + q == q;
    } else {
      assert (p + q)[1..] == p[1..] + q;
      DecodeSplit(Moved(d, p[0]), p[1..], q);
    }
  }

  lemma DecodeOne(d: Decoder, c: byte)
    ensures DecodeOut(d, [c]) == Yielded(d, c) && DecodeAfter(d, [c]) == Moved(d, c)
  {
    assert [c][1..] == [];
    assert DecodeOut(d, [c]) == Yielded(d, c) + DecodeOut(Moved(d, c), []);
  }

  /** Characters outside the alphabet change nothing, wherever they stand. */
  lemma SkippedAnywhere(d: Decoder, p: seq<byte>, c: byte, q: seq<byte>)
    requires Skipped(c)
    ensures DecodeOut(d, p + [c] + q) == DecodeOut(d, p + q) && DecodeAfter(d, p + [c] + q) == DecodeAfter(d, p + q)
  {
    DecodeSplit(d, p + [c], q);
    DecodeSplit(d, p, [c]);
    DecodeSplit(d, p, q);
    DecodeOne(DecodeAfter(d, p), c);
  }

  function Phase(d: Decoder): nat {
    match d.step case Step_a => 0 case Step_b => 1 case Step_c => 2 case Step_d => 3
  }

  function Sextets(code: seq<byte>): (k: nat)
    ensures k <= |code|
  {
    if code == [] then 0 else (if Skipped(code[0]) then 0 else 1) + Sextets(code[1..])
  }

  /** Four characters of the alphabet make three bytes: the output fits base64_decode_expected_len. */
  lemma {:induction false} DecodedLength(d: Decoder, code: seq<byte>)
    ensures |DecodeOut(d, code)| == 3 * (Phase(d) + Sextets(code)) / 4 - 3 * Phase(d) / 4
    ensures d.step.Step_a? ==> |DecodeOut(d, code)| <= 3 * |code| / 4
    decreases |code|
  {
    if code != [] { DecodedLength(Moved(d, code[0]), code[1..]); }
  }

  /** The four characters of a group, one by one. */
  lemma FourSteps(a: byte, b: byte, c: byte)
    ensures var q := Quad(a, b, c);
            var d1 := Moved(FreshDecoder, q[0]);
            var d2 := Moved(d1, q[1]);
            var d3 := Moved(d2, q[2]);
            && Yielded(FreshDecoder, q[0]) == [] && Yielded(d1, q[1]) == [a] && Yielded(d2, q[2]) == [b]
            && Yielded(d3, q[3]) == [c] && Moved(d3, q[3]) == FreshDecoder
  {
    QuadBits(a, b, c);
    Alphabet((a & 0xFC) >> 2, 0);
    Alphabet(((a & 0x03) << 4) | ((b & 0xF0) >> 4), 0);
    Alphabet(((b & 0x0F) << 2) | ((c & 0xC0) >> 6), 0);
    Alphabet(c & 0x3F, 0);
    FragmentBits(a, b, c);
  }

  /** Decoding character by character. */
  lemma FourCharacters(d: Decoder, q: seq<byte>)
    requires |q| == 4
    ensures var d1 := Moved(d, q[0]);
            var d2 := Moved(d1, q[1]);
            var d3 := Moved(d2, q[2]);
            && DecodeOut(d, q[..2]) == Yielded(d, q[0]) + Yielded(d1, q[1]) && DecodeAfter(d, q[..2]) == d2
            && DecodeOut(d, q[..3]) == Yielded(d, q[0]) + Yielded(d1, q[1]) + Yielded(d2, q[2])
            && DecodeAfter(d, q[..3]) == d3
            && DecodeOut(d, q) == Yielded(d, q[0]) + Yielded(d1, q[1]) + Yielded(d2, q[2]) + Yielded(d3, q[3])
            && DecodeAfter(d, q) == Moved(d3, q[3])
  {
    hide Yielded, Moved, DecodeOut, DecodeAfter;
    DecodeOne(d, q[0]);
    DecodeSnoc(d, q, 1);
    DecodeSnoc(d, q, 2);
    DecodeSnoc(d, q, 3);
    assert q[..1] == [q[0]] && q[..4] == q;
  }

  lemma DecodeSnoc(d: Decoder, q: seq<byte>, i: nat)
    requires i < |q|
    ensures DecodeOut(d, q[..i + 1]) == DecodeOut(d, q[..i]) + Yielded(DecodeAfter(d, q[..i]), q[i])
    ensures DecodeAfter(d, q[..i + 1]) == Moved(DecodeAfter(d, q[..i]), q[i])
  {
    assert q[..i + 1] == q[..i] + [q[i]];
    DecodeSplit(d, q[..i], [q[i]]);
    DecodeOne(DecodeAfter(d, q[..i]), q[i]);
  }

  /** The decoder undoes one group. */
  lemma QuadDecoded(a: byte, b: byte, c: byte)
    ensures DecodeOut(FreshDecoder, Quad(a, b, c)) == [a, b, c]
            && DecodeAfter(FreshDecoder, Quad(a, b, c)) == FreshDecoder
    ensures DecodeOut(FreshDecoder, Quad(a, b, c)[..3]) == [a, b]
    ensures DecodeOut(FreshDecoder, Quad(a, b, c)[..2]) == [a]
  {
    FourSteps(a, b, c);
    FourCharacters(FreshDecoder, Quad(a, b, c));
  }

  lemma FragmentBits(a: byte, b: byte, c: byte)
    ensures var x0, x1 := (a & 0xFC) >> 2, ((a & 0x03) << 4) | ((b & 0xF0) >> 4);
            var x2, x3 := ((b & 0x0F) << 2) | ((c & 0xC0) >> 6), c & 0x3F;
            && ((x0 & 0x3F) << 2) | ((x1 & 0x30) >> 4) == a
            && ((x1 & 0x0F) << 4) | ((x2 & 0x3C) >> 2) == b
            && ((x2 & 0x03) << 6) | (x3 & 0x3F) == c
  {
  }

  lemma PadSkipped(d: Decoder)
    ensures DecodeOut(d, [Pad]) == [] && DecodeOut(d, [Pad, Pad]) == [] && DecodeOut(d, [NewLine]) == []
    ensures DecodeAfter(d, [NewLine]) == d
  {
    Alphabet(0, 0);
    DecodeOne(d, Pad);
    DecodeOne(d, NewLine);
    DecodeSplit(d, [Pad], [Pad]);
    assert [Pad, Pad] == [Pad] + [Pad];
  }

  lemma NothingDecoded()
    ensures DecodeOut(FreshDecoder, []) == [] && DecodeAfter(FreshDecoder, []) == FreshDecoder
  {
  }

  lemma {:induction false} RfcDecoded(b: seq<byte>)
    ensures DecodeOut(FreshDecoder, Rfc4648(b)) == b
    ensures |b| % 3 == 0 ==> DecodeAfter(FreshDecoder, Rfc4648(b)) == FreshDecoder
  {
    hide Quad, Yielded, Moved, DecodeOut, DecodeAfter;
    if |b| >= 3 {
      QuadDecoded(b[0], b[1], b[2]);
      RfcDecoded(b[3..]);
      DecodeSplit(FreshDecoder, Quad(b[0], b[1], b[2]), Rfc4648(b[3..]));
    } else if |b| == 2 {
      var q := Quad(b[0], b[1], 0)[..3];
      QuadDecoded(b[0], b[1], 0);
      DecodeSplit(FreshDecoder, q, [Pad]);
      PadSkipped(DecodeAfter(FreshDecoder, q));
    } else if |b| == 1 {
      var q := Quad(b[0], 0, 0)[..2];
      QuadDecoded(b[0], 0, 0);
      DecodeSplit(FreshDecoder, q, [Pad, Pad]);
      PadSkipped(DecodeAfter(FreshDecoder, q));
    } else {
      NothingDecoded();
    }
  }

  /** Decode undoes encode, for every byte string. */
  lemma {:induction false} DecodeText(b: seq<byte>)
    ensures DecodeOut(FreshDecoder, Text(b)) == b
    decreases |b|
  {
    hide Rfc4648, Yielded, Moved, DecodeOut, DecodeAfter;
    if |b| < LineBytes {
      RfcDecoded(b);
    } else {
      var line, rest := Rfc4648(b[..LineBytes]), Text(b[LineBytes..]);
      RfcDecoded(b[..LineBytes]);
      DecodeText(b[LineBytes..]);
      PadSkipped(FreshDecoder);
      DecodeSplit(FreshDecoder, line, [NewLine]);
      DecodeSplit(FreshDecoder, line + [NewLine], rest);
    }
  }

  /** Decoding the encoder's output, in any two pieces, gives the input back. */
  lemma DecodeEncoded(b: seq<byte>, i: nat, j: nat)
    requires i <= |b| && j <= |Text(b)|
    ensures EncodeOut(FreshEncoder, b[..i]) + Encoded(EncodeAfter(FreshEncoder, b[..i]), b[i..]) == Text(b)
    ensures var d := DecodeAfter(FreshDecoder, Text(b)[..j]);
            DecodeOut(FreshDecoder, Text(b)[..j]) + DecodeOut(d, Text(b)[j..]) == b
  {
    hide EncodeOut, EncodeAfter, DecodeOut, DecodeAfter, TextFrom;
    assert b[..i] + b[i..] == b;
    EncodeSplit(FreshEncoder, b[..i], b[i..]);
    EncoderMeetsRfc(FreshEncoder, b);
    assert Text(b)[..j] + Text(b)[j..] == Text(b);
    DecodeSplit(FreshDecoder, Text(b)[..j], Text(b)[j..]);
    DecodeText(b);
  }

  predicate AllAlphabet(code: seq<byte>) { code == [] || (!Skipped(code[0]) && AllAlphabet(code[1..])) }

  /** The converse: whole groups of alphabet characters are the encoding of what they decode to. */
  lemma {:induction false} EncodeDecoded(code: seq<byte>)
    requires AllAlphabet(code) && |code| % 4 == 0
    ensures Rfc4648(DecodeOut(FreshDecoder, code)) == code && DecodeAfter(FreshDecoder, code) == FreshDecoder
    decreases |code|
  {
    if code != [] {
      var head, rest := code[..4], code[4..];
      assert code[1..][1..] == code[2..] && code[2..][1..] == code[3..] && code[3..][1..] == rest;
      assert AllAlphabet(code[1..]) && AllAlphabet(code[2..]) && AllAlphabet(code[3..]);
      var a, b, c := FourDecoded(code[0], code[1], code[2], code[3]);
      assert head == [code[0], code[1], code[2], code[3]] && code == head + rest;
      DecodeSplit(FreshDecoder, head, rest);
      EncodeDecoded(rest);
      var plain := DecodeOut(FreshDecoder, rest);
      assert [a, b, c] + plain == DecodeOut(FreshDecoder, code) && ([a, b, c] + plain)[3..] == plain;
    }
  }

  lemma FourDecoded(c0: byte, c1: byte, c2: byte, c3: byte) returns (a: byte, b: byte, c: byte)
    requires !Skipped(c0) && !Skipped(c1) && !Skipped(c2) && !Skipped(c3)
    ensures Quad(a, b, c) == [c0, c1, c2, c3]
    ensures DecodeOut(FreshDecoder, [c0, c1, c2, c3]) == [a, b, c]
            && DecodeAfter(FreshDecoder, [c0, c1, c2, c3]) == FreshDecoder
  {
    var x0, x1, x2, x3 := DecodeValue(c0), DecodeValue(c1), DecodeValue(c2), DecodeValue(c3);
    Alphabet(0, c0); Alphabet(0, c1); Alphabet(0, c2); Alphabet(0, c3);
    a, b, c := (x0 << 2) | (x1 >> 4), ((x1 & 0x0F) << 4) | (x2 >> 2), ((x2 & 0x03) << 6) | x3;
    SextetBits(x0, x1, x2, x3);
    QuadBits(a, b, c);
    QuadDecoded(a, b, c);
  }

  lemma SextetBits(x0: byte, x1: byte, x2: byte, x3: byte)
    requires x0 <= 63 && x1 <= 63 && x2 <= 63 && x3 <= 63
    ensures var a, b, c := (x0 << 2) | (x1 >> 4), ((x1 & 0x0F) << 4) | (x2 >> 2), ((x2 & 0x03) << 6) | x3;
            && (a & 0xFC) >> 2 == x0 && ((a & 0x03) << 4) | ((b & 0xF0) >> 4) == x1
            && ((b & 0x0F) << 2) | ((c & 0xC0) >> 6) == x2 && c & 0x3F == x3
  {
  }

  // ---------------------------------------------------------------- the standard's own words

  /** Table 1 of RFC 4648. */
  lemma StandardAlphabet(v: byte)
    requires v < 64
    ensures v < 26 ==> EncodeValue(v) as int == 'A' as int + v as int
    ensures 26 <= v < 52 ==> EncodeValue(v) as int == 'a' as int + v as int - 26
    ensures 52 <= v < 62 ==> EncodeValue(v) as int == '0' as int + v as int - 52
    ensures v == 62 ==> EncodeValue(v) as int == '+' as int
    ensures v == 63 ==> EncodeValue(v) as int == '/' as int
    ensures Pad as int == '=' as int && NewLine as int == 10
  {
  }

  lemma QuadFoo()
    ensures Quad(0x66, 0, 0) == [0x5A, 0x67, 0x41, 0x41] && Quad(0x66, 0x6F, 0) == [0x5A, 0x6D, 0x38, 0x41]
    ensures Quad(0x66, 0x6F, 0x6F) == [0x5A, 0x6D, 0x39, 0x76]
  {
    QuadBits(0x66, 0, 0);
    QuadBits(0x66, 0x6F, 0);
    QuadBits(0x66, 0x6F, 0x6F);
  }

  lemma QuadBar()
    ensures Quad(0x62, 0, 0) == [0x59, 0x67, 0x41, 0x41] && Quad(0x62, 0x61, 0) == [0x59, 0x6D, 0x45, 0x41]
    ensures Quad(0x62, 0x61, 0x72) == [0x59, 0x6D, 0x46, 0x79]
  {
    QuadBits(0x62, 0, 0);
    QuadBits(0x62, 0x61, 0);
    QuadBits(0x62, 0x61, 0x72);
  }

  /** The test vectors of section 10 of RFC 4648: f, fo and foo make Zg==, Zm8= and Zm9v. */
  lemma TestVectors()
    ensures Rfc4648([0x66]) == [0x5A, 0x67] + [0x3D, 0x3D] && Rfc4648([0x66, 0x6F]) == [0x5A, 0x6D, 0x38] + [0x3D]
    ensures Rfc4648([0x66, 0x6F, 0x6F]) == [0x5A, 0x6D, 0x39, 0x76]
  {
    hide Quad;
    QuadFoo();
    RfcNothing();
    var foo: seq<byte> := [0x66, 0x6F, 0x6F];
    assert foo[3..] == [];
    RfcGroup(foo);
  }

  /** foob, fooba and foobar make Zm9vYg==, Zm9vYmE= and Zm9vYmFy. */
  lemma MoreTestVectors()
    ensures Rfc4648([0x66, 0x6F, 0x6F, 0x62]) == [0x5A, 0x6D, 0x39, 0x76] + ([0x59, 0x67] + [0x3D, 0x3D])
    ensures Rfc4648([0x66, 0x6F, 0x6F, 0x62, 0x61]) == [0x5A, 0x6D, 0x39, 0x76] + ([0x59, 0x6D, 0x45] + [0x3D])
    ensures Rfc4648([0x66, 0x6F, 0x6F, 0x62, 0x61, 0x72]) == [0x5A, 0x6D, 0x39, 0x76] + [0x59, 0x6D, 0x46, 0x79]
  {
    hide Quad;
    QuadFoo();
    QuadBar();
    RfcNothing();
    var x: seq<byte>, y: seq<byte>, z: seq<byte> := [0x62], [0x62, 0x61], [0x62, 0x61, 0x72];
    assert z[3..] == [];
    RfcGroup(z);
    assert Rfc4648(z) == [0x59, 0x6D, 0x46, 0x79];
    assert [0x66, 0x6F, 0x6F, 0x62][3..] == x && [0x66, 0x6F, 0x6F, 0x62, 0x61][3..] == y;
    assert [0x66, 0x6F, 0x6F, 0x62, 0x61, 0x72][3..] == z;
    RfcGroup([0x66, 0x6F, 0x6F, 0x62]);
    RfcGroup([0x66, 0x6F, 0x6F, 0x62, 0x61]);
    RfcGroup([0x66, 0x6F, 0x6F, 0x62, 0x61, 0x72]);
  }

  /** Lines: every 54 bytes make 72 characters and a newline. */
  lemma LinesOf72(b: seq<byte>)
    ensures |b| < 54 ==> Text(b) == Rfc4648(b)
    ensures |b| >= 54 ==> Text(b) == Rfc4648(b[..54]) + [10] + Text(b[54..]) && |Rfc4648(b[..54])| == 72
  {
    hide Rfc4648;
    if |b| >= 54 { RfcLength(b[..54]); }
  }
}
