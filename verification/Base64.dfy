/** The libb64 coders writing into caller-supplied buffers, and base64::encode on top of them. */
module Base64 {
  import opened Base64Spec
  import opened BitBytes

  // ---------------------------------------------------------------- writing through a moving pointer

  /** Buffer `now` is `before` with `text` written at `at`, except perhaps for the `scratch` cells after it. */
  ghost predicate WroteAt(before: seq<byte>, now: seq<byte>, at: nat, text: seq<byte>, scratch: nat) {
    && at + |text| + scratch <= |before| == |now|
    && now[..at] == before[..at] && now[at..at + |text|] == text
    && now[at + |text| + scratch..] == before[at + |text| + scratch..]
  }

  lemma WroteNothing(before: seq<byte>, at: nat, scratch: nat)
    requires at + scratch <= |before|
    ensures WroteAt(before, before, at, [], scratch)
  {
  }

  lemma ScratchWritten(before: seq<byte>, now: seq<byte>, at: nat, text: seq<byte>, c: byte)
    requires WroteAt(before, now, at, text, 1)
    ensures WroteAt(before, now[at + |text| := c], at, text, 1)
  {
  }

  /** The scratch cell becomes text, and the next cell is scratch. */
  lemma ScratchKept(before: seq<byte>, now: seq<byte>, at: nat, text: seq<byte>)
    requires WroteAt(before, now, at, text, 1) && at + |text| + 1 < |now|
    ensures WroteAt(before, now, at, text + [now[at + |text|]], 1)
  {
    var t := text + [now[at + |text|]];
    assert now[at..at + |t|] == t;
  }

  lemma Appended(before: seq<byte>, now: seq<byte>, at: nat, text: seq<byte>, c: byte)
    requires WroteAt(before, now, at, text, 0) && at + |text| < |now|
    ensures WroteAt(before, now[at + |text| := c], at, text + [c], 0)
  {
    assert now[at + |text| := c][at..at + |text| + 1] == text + [c];
  }

  /** `*codechar++ = c` */
  method Put(buffer: array<byte>, ghost before: seq<byte>, ghost at: nat, ghost text: seq<byte>, pos: nat, c: byte)
    returns (next: nat)
    requires WroteAt(before, buffer[..], at, text, 0) && pos == at + |text| < buffer.Length
    modifies buffer
    ensures next == pos + 1 && WroteAt(before, buffer[..], at, text + [c], 0)
  {
    Appended(before, buffer[..], at, text, c);
    hide WroteAt;
    ghost var now := buffer[..];
    buffer[pos] := c;
    assert buffer[..] == now[pos := c];
    next := pos + 1;
  }

  // ---------------------------------------------------------------- encoding

  /** Saved between calls so that encoding can be resumed. */
  class EncodeState {
    var step: EncodeStep
    var result: byte
    var stepcount: nat

    function View(): Encoder
      reads this
    {
      Encoder(step, result, stepcount)
    }

    /** base64_init_encodestate */
    constructor ()
      ensures View() == FreshEncoder
    {
      step, result, stepcount := StepA, 0, 0;
    }
  }

  /** One turn of the machine, seen from the text written so far. */
  lemma EncodeTurn(e: Encoder, rest: seq<byte>, text: seq<byte>, all: seq<byte>)
    requires rest != [] && text + EncodeOut(e, rest) == all
    ensures text + Emitted(e, rest[0]) + EncodeOut(Advanced(e, rest[0]), rest[1..]) == all
    ensures EncodeAfter(e, rest) == EncodeAfter(Advanced(e, rest[0]), rest[1..])
  {
    hide Emitted, Advanced;
  }

  lemma ThreePieces(a: seq<byte>, b: seq<byte>, c: seq<byte>, all: seq<byte>)
    requires a + b + c == all
    ensures |a| + |b| <= |all|
  {
  }

  /** One character's worth of the source's switch. */
  method EncodeChar(fragment: byte, codeOut: array<byte>, ghost before: seq<byte>, ghost at: nat, ghost text: seq<byte>,
                    pos: nat, step0: EncodeStep, result0: byte, state: EncodeState)
    returns (codechar: nat, step: EncodeStep, result: byte)
    requires WroteAt(before, codeOut[..], at, text, 0) && pos == at + |text|
    requires pos + |Emitted(Encoder(step0, result0, state.stepcount), fragment)| <= codeOut.Length
    modifies codeOut, state`stepcount
    ensures var e := Encoder(step0, result0, old(state.stepcount));
            && Encoder(step, result, state.stepcount) == Advanced(e, fragment)
            && WroteAt(before, codeOut[..], at, text + Emitted(e, fragment), 0)
            && codechar == at + |text + Emitted(e, fragment)|
  {
    hide EncodeValue, WroteAt;
    ghost var e := Encoder(step0, result0, state.stepcount);
    match step0
    case StepA =>
      result := (fragment & 0xFC) >> 2;
      assert Emitted(e, fragment) == [EncodeValue(result)];
      codechar := Put(codeOut, before, at, text, pos, EncodeValue(result));
      result := (fragment & 0x03) << 4;
      step := StepB;
    case StepB =>
      result := result0 | ((fragment & 0xF0) >> 4);
      assert Emitted(e, fragment) == [EncodeValue(result)];
      codechar := Put(codeOut, before, at, text, pos, EncodeValue(result));
      result := (fragment & 0x0F) << 2;
      step := StepC;
    case StepC =>
      codechar, result := LastOfGroup(fragment, codeOut, before, at, text, pos, result0, state);
      step := StepA;
  }

  /** The third byte of a group completes two characters. */
  method LastOfGroup(fragment: byte, codeOut: array<byte>, ghost before: seq<byte>, ghost at: nat,
                     ghost text: seq<byte>, pos: nat, result0: byte, state: EncodeState)
    returns (codechar: nat, result: byte)
    requires WroteAt(before, codeOut[..], at, text, 0) && pos == at + |text|
    requires pos + |Emitted(Encoder(StepC, result0, state.stepcount), fragment)| <= codeOut.Length
    modifies codeOut, state`stepcount
    ensures var e := Encoder(StepC, result0, old(state.stepcount));
            && Encoder(StepA, result, state.stepcount) == Advanced(e, fragment)
            && WroteAt(before, codeOut[..], at, text + Emitted(e, fragment), 0)
            && codechar == at + |text + Emitted(e, fragment)|
  {
    hide EncodeValue, WroteAt;
    result := result0 | ((fragment & 0xC0) >> 6);
    ghost var x, y := EncodeValue(result), EncodeValue(fragment & 0x3F);
    assert Emitted(Encoder(StepC, result0, state.stepcount), fragment) == [x, y] + LineEnd(state.stepcount);
    hide Emitted, LineEnd;
    codechar := Put(codeOut, before, at, text, pos, EncodeValue(result));
    result := fragment & 0x3F;
    codechar := Put(codeOut, before, at, text + [x], codechar, EncodeValue(result));
    codechar := EndGroup(codeOut, before, at, text, x, y, codechar, state);
  }

  lemma LongerText(text: seq<byte>, x: byte, y: byte, end: seq<byte>)
    ensures text + [x] + [y] + end == text + ([x, y] + end)
  {
  }

  /** The line count, and the newline after every eighteen groups. */
  method EndGroup(codeOut: array<byte>, ghost before: seq<byte>, ghost at: nat, ghost text: seq<byte>, ghost x: byte,
                  ghost y: byte, pos: nat, state: EncodeState)
    returns (codechar: nat)
    requires WroteAt(before, codeOut[..], at, text + [x] + [y], 0) && pos == at + |text| + 2
    requires pos + |LineEnd(state.stepcount)| <= codeOut.Length
    modifies codeOut, state`stepcount
    ensures var end := LineEnd(old(state.stepcount));
            WroteAt(before, codeOut[..], at, text + ([x, y] + end), 0) && codechar == pos + |end|
    ensures state.stepcount == if old(state.stepcount) + 1 == LineGroups then 0 else old(state.stepcount) + 1
  {
    hide WroteAt;
    codechar := pos;
    LongerText(text, x, y, LineEnd(state.stepcount));
    state.stepcount := state.stepcount + 1;
    if state.stepcount == LineGroups {
      codechar := Put(codeOut, before, at, text + [x] + [y], codechar, NewLine);
      state.stepcount := 0;
    } else {
      assert text + [x] + [y] + [] == text + [x] + [y];
    }
  }

  /** base64_encode_block: encodes `plain` into `codeOut` from `at` on, resuming where the state says. */
  method EncodeBlock(plain: seq<byte>, codeOut: array<byte>, at: nat, state: EncodeState) returns (len: nat)
    requires at + |EncodeOut(state.View(), plain)| <= codeOut.Length
    modifies codeOut, state
    ensures len == |EncodeOut(old(state.View()), plain)|
    ensures WroteAt(old(codeOut[..]), codeOut[..], at, EncodeOut(old(state.View()), plain), 0)
    ensures state.View() == EncodeAfter(old(state.View()), plain)
  {
    ghost var before, e0 := codeOut[..], state.View();
    ghost var all, text := EncodeOut(e0, plain), [];
    WroteNothing(before, at, 0);
    var i, codechar, step, result := 0, at, state.step, state.result;
    assert plain[0..] == plain;
    hide WroteAt, Emitted, Advanced;
    while i < |plain|
      invariant i <= |plain| && codechar == at + |text|
      invariant WroteAt(before, codeOut[..], at, text, 0)
      invariant text + EncodeOut(Encoder(step, result, state.stepcount), plain[i..]) == all
      invariant EncodeAfter(Encoder(step, result, state.stepcount), plain[i..]) == EncodeAfter(e0, plain)
    {
      ghost var e, rest := Encoder(step, result, state.stepcount), plain[i..];
      EncodeTurn(e, rest, text, all);
      ThreePieces(text, Emitted(e, rest[0]), EncodeOut(Advanced(e, rest[0]), rest[1..]), all);
      var fragment := plain[i];
      codechar, step, result := EncodeChar(fragment, codeOut, before, at, text, codechar, step, result, state);
      text := text + Emitted(e, fragment);
      i := i + 1;
      assert rest[1..] == plain[i..];
    }
    assert plain[i..] == [];
    assert text == all;
    state.result, state.step := result, step;
    len := codechar - at;
  }

  /** base64_encode_blockend: the padding of the last group, and a terminating zero. */
  method EncodeBlockEnd(codeOut: array<byte>, at: nat, state: EncodeState) returns (len: nat)
    requires at + |Ending(state.View())| < codeOut.Length
    modifies codeOut
    ensures len == |Ending(state.View())|
    ensures WroteAt(old(codeOut[..]), codeOut[..], at, Ending(state.View()) + [0], 0)
  {
    ghost var before := codeOut[..];
    WroteNothing(before, at, 0);
    hide WroteAt, EncodeValue;
    var codechar := at;
    ghost var c := [EncodeValue(state.result)];
    match state.step {
      case StepA =>
      case StepB =>
        codechar := Put(codeOut, before, at, [], codechar, EncodeValue(state.result));
        codechar := Put(codeOut, before, at, [] + c, codechar, Pad);
        codechar := Put(codeOut, before, at, [] + c + [Pad], codechar, Pad);
        assert [] + c + [Pad] + [Pad] == Ending(state.View());
      case StepC =>
        codechar := Put(codeOut, before, at, [], codechar, EncodeValue(state.result));
        codechar := Put(codeOut, before, at, [] + c, codechar, Pad);
        assert [] + c + [Pad] == Ending(state.View());
    }
    len := codechar - at;
    var _ := Put(codeOut, before, at, Ending(state.View()), codechar, 0);
  }

  /** String(buffer): the characters up to the first zero. */
  function CString(buffer: seq<byte>): seq<byte> {
    if buffer == [] || buffer[0] == 0 then [] else [buffer[0]] + CString(buffer[1..])
  }

  predicate NoZero(text: seq<byte>) { text == [] || (text[0] != 0 && NoZero(text[1..])) }

  lemma {:induction false} CStringStops(text: seq<byte>, rest: seq<byte>)
    requires NoZero(text)
    ensures CString(text + [0] + rest) == text
  {
    if text == [] {
      assert (text + [0] + rest)[0] == 0;
    } else {
      assert (text + [0] + rest)[1..] == text[1..] + [0] + rest;
      CStringStops(text[1..], rest);
    }
  }

  lemma {:induction false} NoZeroAppend(p: seq<byte>, q: seq<byte>)
    requires NoZero(p) && NoZero(q)
    ensures NoZero(p + q)
  {
    if p == [] {
      assert p + q == q;
    } else {
      assert (p + q)[1..] == p[1..] + q;
      NoZeroAppend(p[1..], q);
    }
  }

  lemma EmittedNoZero(e: Encoder, fragment: byte)
    ensures NoZero(Emitted(e, fragment)) && NoZero(Ending(e))
  {
    hide EncodeValue;
    forall v: byte ensures EncodeValue(v) != 0 { ValueNotZero(v); }
    forall x: byte ensures x != 0 ==> NoZero([x]) { assert [x][1..] == []; }
    forall x: byte, y: byte ensures x != 0 && y != 0 ==> NoZero([x, y]) { assert [x, y][1..] == [y]; }
    forall x: byte, y: byte, z: byte ensures x != 0 && y != 0 && z != 0 ==> NoZero([x, y, z]) {
      assert [x, y, z][1..] == [y, z];
    }
    if e.step.StepC? {
      var x, y := EncodeValue(e.result | ((fragment & 0xC0) >> 6)), EncodeValue(fragment & 0x3F);
      NoZeroAppend([x, y], LineEnd(e.stepcount));
    }
  }

  lemma ValueNotZero(v: byte)
    ensures EncodeValue(v) != 0
  {
  }

  lemma {:induction false} EncodedNoZero(e: Encoder, b: seq<byte>)
    ensures NoZero(EncodeOut(e, b)) && NoZero(Ending(EncodeAfter(e, b)))
    decreases |b|
  {
    hide Emitted, Advanced;
    if b == [] {
      EmittedNoZero(e, 0);
    } else {
      EmittedNoZero(e, b[0]);
      EncodedNoZero(Advanced(e, b[0]), b[1..]);
      NoZeroAppend(Emitted(e, b[0]), EncodeOut(Advanced(e, b[0]), b[1..]));
    }
  }

  lemma TwoWrites(before: seq<byte>, mid: seq<byte>, now: seq<byte>, x: seq<byte>, y: seq<byte>)
    requires WroteAt(before, mid, 0, x, 0) && WroteAt(mid, now, |x|, y, 0)
    ensures now == x + y + now[|x| + |y|..]
  {
    assert now[..|x|] == mid[..|x|] == x;
  }

  const Fail: seq<byte> := [45, 70, 65, 73, 76, 45]   // "-FAIL-"

  /** Body and ending are the text, which fits with its terminator and holds no zero. */
  lemma EncodeParts(data: seq<byte>)
    requires AllocationFits(|data|)
    ensures var body, end := EncodeOut(FreshEncoder, data), Ending(EncodeAfter(FreshEncoder, data));
            && body + end == Text(data) && |body| + |end| + 1 <= Allocated(|data|)
            && NoZero(body) && NoZero(end)
  {
    EncoderMeetsRfc(FreshEncoder, data);
    AllocationFitsExactly(data);
    EncodedNoZero(FreshEncoder, data);
  }

  /** base64::encode, for the lengths whose text fits the buffer it allocates. */
  method Encode(data: seq<byte>, gotBuffer: bool) returns (text: seq<byte>)
    requires AllocationFits(|data|)
    ensures text == if gotBuffer then Text(data) else Fail
  {
    hide WroteAt, EncodeOut, EncodeAfter, Ending, Text, NoZero, Allocated, AllocationFits;
    if !gotBuffer { return Fail; }
    var size := Allocated(|data|);
    var buffer := new byte[size];
    ghost var before := buffer[..];
    var state := new EncodeState();
    EncodeParts(data);
    ghost var body, end := EncodeOut(FreshEncoder, data), Ending(EncodeAfter(FreshEncoder, data));
    var len := EncodeBlock(data, buffer, 0, state);
    ghost var mid := buffer[..];
    len := EncodeBlockEnd(buffer, len, state);
    TwoWrites(before, mid, buffer[..], body, end + [0]);
    ghost var tail := buffer[|body| + |end + [0]|..];
    assert body + (end + [0]) + tail == body + end + [0] + tail;
    NoZeroAppend(body, end);
    CStringStops(body + end, tail);
    text := CString(buffer[..]);
  }

  // ---------------------------------------------------------------- decoding

  /** Saved between calls so that decoding can be resumed. */
  class DecodeState {
    var step: DecodeStep
    var plainchar: byte

    /** In step a the saved byte is whatever the output buffer held, and is never used. */
    function View(): Decoder
      reads this
    {
      if step.Step_a? then FreshDecoder else Decoder(step, plainchar)
    }

    /** base64_init_decodestate */
    constructor ()
      ensures View() == FreshDecoder
    {
      step, plainchar := Step_a, 0;
    }
  }

  /** `*plainchar++ |= low` */
  method CompleteByte(plainOut: array<byte>, ghost before: seq<byte>, ghost at: nat, ghost text: seq<byte>, pos: nat,
                      low: byte)
    returns (next: nat)
    requires WroteAt(before, plainOut[..], at, text, 1) && pos == at + |text| && pos + 1 < plainOut.Length
    modifies plainOut
    ensures WroteAt(before, plainOut[..], at, text + [old(plainOut[pos]) | low], 1) && next == pos + 1
  {
    ghost var now := plainOut[..];
    plainOut[pos] := plainOut[pos] | low;
    assert plainOut[..] == now[pos := now[pos] | low];
    ScratchWritten(before, now, at, text, plainOut[pos]);
    ScratchKept(before, plainOut[..], at, text);
    next := pos + 1;
  }

  /** `*plainchar = bits` */
  method StartByte(plainOut: array<byte>, ghost before: seq<byte>, ghost at: nat, ghost text: seq<byte>, pos: nat,
                   bits: byte)
    requires WroteAt(before, plainOut[..], at, text, 1) && pos == at + |text|
    modifies plainOut
    ensures WroteAt(before, plainOut[..], at, text, 1) && plainOut[pos] == bits
  {
    ghost var now := plainOut[..];
    plainOut[pos] := bits;
    assert plainOut[..] == now[pos := bits];
    ScratchWritten(before, now, at, text, bits);
  }

  /** The cell under construction holds the decoder's pending bits. */
  ghost predicate Pending(d: Decoder, now: seq<byte>, pos: nat) {
    (d.step.Step_a? && d == FreshDecoder) || (!d.step.Step_a? && pos < |now| && now[pos] == d.plain)
  }

  /** `*plainchar++ |= low; *plainchar = bits` */
  method NextByte(plainOut: array<byte>, ghost before: seq<byte>, ghost at: nat, ghost text: seq<byte>, pos: nat,
                  low: byte, bits: byte, ghost yielded: seq<byte>)
    returns (next: nat)
    requires WroteAt(before, plainOut[..], at, text, 1) && pos == at + |text| && pos + 1 < plainOut.Length
    requires yielded == [plainOut[pos] | low]
    modifies plainOut
    ensures WroteAt(before, plainOut[..], at, text + yielded, 1) && next == pos + 1 && plainOut[next] == bits
  {
    hide WroteAt;
    next := CompleteByte(plainOut, before, at, text, pos, low);
    StartByte(plainOut, before, at, text + yielded, next, bits);
  }

  /** One turn of the source's switch on a character of the alphabet. */
  method DecodeChar(c: byte, plainOut: array<byte>, ghost before: seq<byte>, ghost at: nat, ghost text: seq<byte>,
                    pos: nat, step: DecodeStep, ghost d: Decoder)
    returns (plainchar: nat, next: DecodeStep)
    requires WroteAt(before, plainOut[..], at, text, 1) && pos == at + |text|
    requires pos + |Yielded(d, c)| < plainOut.Length
    requires !Skipped(c) && step == d.step && Pending(d, plainOut[..], pos)
    modifies plainOut
    ensures WroteAt(before, plainOut[..], at, text + Yielded(d, c), 1) && plainchar == pos + |Yielded(d, c)|
    ensures next == Moved(d, c).step && Pending(Moved(d, c), plainOut[..], plainchar)
  {
    var fragment := DecodeValue(c);
    ghost var yielded := Yielded(d, c);
    hide WroteAt, DecodeValue, LowBits;
    next := NextStep(step);
    if step.Step_a? {
      hide HighBits;
      StartByte(plainOut, before, at, text, pos, HighBits(step, fragment));
      assert text + yielded == text;
      plainchar := pos;
    } else if step.Step_d? {
      plainchar := CompleteByte(plainOut, before, at, text, pos, LowBits(step, fragment));
    } else {
      hide HighBits;
      plainchar := NextByte(plainOut, before, at, text, pos, LowBits(step, fragment), HighBits(step, fragment),
        yielded);
    }
  }

  lemma DecodeTurn(d: Decoder, rest: seq<byte>, text: seq<byte>, all: seq<byte>)
    requires rest != [] && text + DecodeOut(d, rest) == all
    ensures text + Yielded(d, rest[0]) + DecodeOut(Moved(d, rest[0]), rest[1..]) == all
    ensures DecodeAfter(d, rest) == DecodeAfter(Moved(d, rest[0]), rest[1..])
    ensures Skipped(rest[0]) ==> Moved(d, rest[0]) == d && text + Yielded(d, rest[0]) == text
  {
  }

  /** base64_decode_block: decodes `code` into `plainOut` from `at` on, resuming where the state says.
      The cell after the decoded bytes is used to build the next byte. */
  method DecodeBlock(code: seq<byte>, plainOut: array<byte>, at: nat, state: DecodeState) returns (len: nat)
    requires Brace !in code && at + |DecodeOut(state.View(), code)| < plainOut.Length
    modifies plainOut, state
    ensures len == |DecodeOut(old(state.View()), code)|
    ensures WroteAt(old(plainOut[..]), plainOut[..], at, DecodeOut(old(state.View()), code), 1)
    ensures state.View() == DecodeAfter(old(state.View()), code)
  {
    ghost var before, d := plainOut[..], state.View();
    ghost var d0, all, text := d, DecodeOut(d, code), [];
    WroteNothing(before, at, 1);
    hide WroteAt, Yielded, Moved, DecodeValue;
    var i, plainchar, step := 0, at, state.step;
    StartByte(plainOut, before, at, text, plainchar, state.plainchar);
    assert code[0..] == code;
    while i < |code|
      invariant i <= |code| && plainchar == at + |text| < plainOut.Length
      invariant WroteAt(before, plainOut[..], at, text, 1)
      invariant step == d.step && Pending(d, plainOut[..], plainchar)
      invariant text + DecodeOut(d, code[i..]) == all
      invariant DecodeAfter(d, code[i..]) == DecodeAfter(d0, code)
    {
      ghost var rest := code[i..];
      DecodeTurn(d, rest, text, all);
      ThreePieces(text, Yielded(d, rest[0]), DecodeOut(Moved(d, rest[0]), rest[1..]), all);
      var c := code[i];
      i := i + 1;
      assert rest[0] == c && rest[1..] == code[i..];
      if !Skipped(c) {
        plainchar, step := DecodeChar(c, plainOut, before, at, text, plainchar, step, d);
        d, text := Moved(d, c), text + Yielded(d, c);
      }
    }
    assert code[i..] == [] && text == all;
    state.step, state.plainchar := step, plainOut[plainchar];
    len := plainchar - at;
  }

  /** base64_decode_chars: one call from a fresh state, with a terminating zero if anything was decoded. */
  method DecodeChars(code: seq<byte>, plainOut: array<byte>) returns (len: nat)
    requires Brace !in code && |DecodeOut(FreshDecoder, code)| < plainOut.Length
    modifies plainOut
    ensures len == |DecodeOut(FreshDecoder, code)| && plainOut[..len] == DecodeOut(FreshDecoder, code)
    ensures len > 0 ==> plainOut[len] == 0
    ensures forall k :: len < k < plainOut.Length ==> plainOut[k] == old(plainOut[k])
  {
    ghost var before := plainOut[..];
    var state := new DecodeState();
    len := DecodeBlock(code, plainOut, 0, state);
    ghost var mid := plainOut[..];
    assert mid[len + 1..] == before[len + 1..];
    forall k | len < k < plainOut.Length ensures plainOut[k] == before[k] {
      assert mid[len + 1..][k - len - 1] == mid[k] && before[len + 1..][k - len - 1] == before[k];
    }
    assert mid[0..len] == mid[..len];
    if len > 0 {
      plainOut[len] := 0;
      assert plainOut[..len] == mid[..len];
    }
  }
}
