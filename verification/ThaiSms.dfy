/** sms.cpp: Thai and ASCII text to the UCS-2 hex the modem takes, and back through TIS-620 to UTF-8.
  Text is kept as character codes. */
module ThaiSms {
  import opened IntBytes

  // ---------------------------------------------------------------- messages

  /** A character of a message: LF, CR, 0x10 to 0x7F, or Thai U+0E00 to U+0E5F. */
  datatype Symbol = Ascii(b: byte) | Thai(low: byte) {
    predicate Valid() {
      match this
      case Ascii(b) => b == 0x0A || b == 0x0D || 0x10 <= b <= 0x7F
      case Thai(low) => low <= 0x5F
    }
  }

  predicate AllValid(m: seq<Symbol>) { m == [] || (m[0].Valid() && AllValid(m[1..])) }

  predicate HasThai(m: seq<Symbol>) { m != [] && (m[0].Thai? || HasThai(m[1..])) }

  /** UTF-8, as in section 3 of RFC 3629: three bytes for the code points 0x0E00 to 0x0E5F. */
  function Utf8(s: Symbol): seq<byte>
    requires s.Valid()
  {
    match s
    case Ascii(b) => [b]
    case Thai(low) =>
      var point := 0x0E00 + low;
      [0xE0 + point / 0x1000, 0x80 + point / 0x40 % 0x40, 0x80 + point % 0x40]
  }

  function Utf8All(m: seq<Symbol>): seq<byte>
    requires AllValid(m)
  {
    if m == [] then [] else Utf8(m[0]) + Utf8All(m[1..])
  }

  function Digit(d: nat): byte
    requires d < 16
  {
    if d < 10 then 0x30 + d else 0x37 + d
  }

  /** The code point as four upper-case hex digits. */
  function Hex(s: Symbol): (h: seq<byte>)
    requires s.Valid()
    ensures |h| == 4
  {
    match s
    case Ascii(b) => [0x30, 0x30, Digit(b / 16), Digit(b % 16)]
    case Thai(low) => [0x30, 0x45, Digit(low / 16), Digit(low % 16)]
  }

  function HexAll(m: seq<Symbol>): (h: seq<byte>)
    requires AllValid(m)
    ensures |h| == 4 * |m|
  {
    if m == [] then [] else Hex(m[0]) + HexAll(m[1..])
  }

  /** The character at `i`; String's operator[] gives zero past the end. */
  function CharAt(s: seq<byte>, i: nat): byte { if i < |s| then s[i] else 0 }

  // ---------------------------------------------------------------- sending

  /** String(c, HEX) in upper case: no leading zero. */
  function HexOf(c: byte): seq<byte> { if c < 16 then [Digit(c)] else [Digit(c / 16), Digit(c % 16)] }

  /** The bytes of character `s` stand at `i`. */
  predicate StandsAt(data: seq<byte>, i: nat, s: Symbol) {
    match s
    case Ascii(b) => i < |data| && data[i] == b
    case Thai(low) =>
      && i + 3 <= |data| && data[i] == 0xE0 && data[i + 1] == (if low < 0x40 then 0xB8 else 0xB9)
      && data[i + 2] == if low < 0x40 then 0x80 + low else 0x40 + low
  }

  /** The bytes of the next character of the rest of the message. */
  lemma NextSymbol(data: seq<byte>, i: nat, m: seq<Symbol>)
    requires i <= |data| && AllValid(m) && data[i..] == Utf8All(m)
    ensures m == [] <==> i == |data|
    ensures m != [] ==> m[0].Valid() && StandsAt(data, i, m[0]) && CharAt(data, i) != 0
    ensures m != [] ==> var n := i + if m[0].Ascii? then 1 else 3; n <= |data| && data[n..] == Utf8All(m[1..])
  {
    if m != [] {
      var u, rest := Utf8(m[0]), Utf8All(m[1..]);
      assert data[i..] == u + rest;
      assert data[i..][|u|..] == data[i + |u|..] && (u + rest)[|u|..] == rest;
      assert forall k :: 0 <= k < |u| ==> data[i + k] == data[i..][k] == u[k];
      if m[0].Thai? { ThaiBytes(m[0].low); }
    }
  }

  lemma ThaiBytes(low: byte)
    requires low <= 0x5F
    ensures Utf8(Thai(low)) == [0xE0, if low < 0x40 then 0xB8 else 0xB9, if low < 0x40 then 0x80 + low else 0x40 + low]
  {
  }

  /** What is printed for the low byte of a Thai character. */
  method PrintLow(c: byte, out0: seq<byte>) returns (out: seq<byte>)
    ensures out == out0 + [Digit(c / 16), Digit(c % 16)]
  {
    out := out0;
    if c <= 0x0F { out := out + [0x30]; }
    out := out + HexOf(c);
  }

  lemma HexParts(s: Symbol)
    requires s.Valid()
    ensures match s
            case Ascii(b) => Hex(s) == [0x30, 0x30] + [Digit(b / 16), Digit(b % 16)]
                             && (b < 16 ==> b == 0x0A || b == 0x0D) && Digit(0) == 0x30
            case Thai(low) => Hex(s) == [0x30, 0x45] + [Digit(low / 16), Digit(low % 16)]
  {
  }

  /** One turn of the loop of SMS::Send.  The index has eight bits. */
  method SendCharacter(data: seq<byte>, i0: nat, ghost s: Symbol) returns (out: seq<byte>, i: nat)
    requires s.Valid() && StandsAt(data, i0, s) && |data| <= 255
    ensures out == Hex(s) && i == i0 + if s.Ascii? then 1 else 3
  {
    hide Digit, HexOf, Hex;
    HexParts(s);
    SomeDigits(data[i0]);
    i := i0;
    var c := data[i];
    if c == 0xE0 {
      out := [0x30, 0x45];
      i := (i + 1) % 256;
      c := data[i];
      i := (i + 1) % 256;
      c := if c == 0xB8 then (data[i] - 0x80) % 256 else (data[i] - 0x40) % 256;
      assert c == s.low;
      out := PrintLow(c, out);
    } else {
      out := [0x30, 0x30];
      if c == 0x0A {
        out := out + [0x30, 0x41];
      } else if c == 0x0D {
        out := out + [0x30, 0x44];
      } else {
        out := out + HexOf(c);
      }
    }
    i := (i + 1) % 256;
  }

  lemma SomeDigits(c: byte)
    ensures Digit(0) == 0x30 && Digit(10) == 0x41 && Digit(13) == 0x44
            && (c >= 16 ==> HexOf(c) == [Digit(c / 16), Digit(c % 16)])
  {
  }

  /** SMS::Send: the hex digits that go to the modem. */
  method Send(data: seq<byte>, ghost m: seq<Symbol>) returns (out: seq<byte>)
    requires AllValid(m) && data == Utf8All(m) && |data| <= 255
    ensures out == HexAll(m)
  {
    hide Utf8All, HexAll, Utf8, AllValid, Hex, StandsAt;
    var i := 0;
    out := [];
    ghost var k := 0;
    assert data[0..] == data && m[0..] == m;
    NothingSent(m);
    while CharAt(data, i) != 0
      invariant i <= |data| && k <= |m| && AllValid(m[k..])
      invariant data[i..] == Utf8All(m[k..])
      invariant out + HexAll(m[k..]) == HexAll(m)
      decreases |data| - i
    {
      ghost var rest := m[k..];
      NextSymbol(data, i, rest);
      SendNext(out, rest);
      assert rest[1..] == m[k + 1..];
      var digits;
      digits, i := SendCharacter(data, i, rest[0]);
      out := out + digits;
      k := k + 1;
    }
    NoZero(data, i, m[k..]);
    assert out + [] == out;
  }

  lemma NothingSent(m: seq<Symbol>)
    requires AllValid(m)
    ensures [] + HexAll(m) == HexAll(m) && AllValid(m[0..])
  {
    assert m[0..] == m;
  }

  lemma SendNext(out: seq<byte>, m: seq<Symbol>)
    requires AllValid(m) && m != []
    ensures AllValid(m[1..]) && m[0].Valid() && out + HexAll(m) == out + Hex(m[0]) + HexAll(m[1..])
  {
    assert out + (Hex(m[0]) + HexAll(m[1..])) == out + Hex(m[0]) + HexAll(m[1..]);
  }

  lemma NoZero(data: seq<byte>, i: nat, m: seq<Symbol>)
    requires i <= |data| && AllValid(m) && data[i..] == Utf8All(m) && CharAt(data, i) == 0
    ensures m == [] && HexAll(m) == []
  {
    NextSymbol(data, i, m);
  }

  // ---------------------------------------------------------------- receiving

  function HexValue(h: byte): int { if h >= 0x41 then h - 0x30 - 0x07 else h - 0x30 }

  lemma DigitBack(d: nat)
    requires d < 16
    ensures HexValue(Digit(d)) == d && Digit(d) != 0 && (d < 10 ==> Digit(d) == 0x30 + d)
  {
  }

  /** The TIS-620 code of a character. */
  function Tis(s: Symbol): byte
    requires s.Valid()
  {
    match s case Ascii(b) => b case Thai(low) => 0xA0 + low
  }

  function TisAll(m: seq<Symbol>): (t: seq<byte>)
    requires AllValid(m)
    ensures |t| == |m|
  {
    if m == [] then [] else [Tis(m[0])] + TisAll(m[1..])
  }

  lemma HexHead(m: seq<Symbol>)
    requires AllValid(m)
    ensures |HexAll(m)| == 4 * |m|
    ensures m != [] ==> && m[0].Valid() && AllValid(m[1..]) && HexAll(m)[..4] == Hex(m[0])
                        && HexAll(m)[4..] == HexAll(m[1..])
  {
  }

  lemma HexPart(data: seq<byte>, m: seq<Symbol>, k: nat)
    requires AllValid(m) && data == HexAll(m) && k <= |m|
    ensures AllValid(m[k..]) && data[4 * k..] == HexAll(m[k..])
    ensures k < |m| ==> m[k].Valid() && 4 * k + 4 <= |data| && data[4 * k..4 * k + 4] == Hex(m[k])
    decreases k
  {
    hide HexAll, Hex, AllValid;
    HexHead(m);
    if k == 0 {
      assert m[0..] == m && data[0..] == data;
    } else {
      var tail := data[4..];
      HexPart(tail, m[1..], k - 1);
      assert m[1..][k - 1..] == m[k..] && tail[4 * (k - 1)..] == data[4 * k..];
      if k < |m| { assert tail[4 * (k - 1)..4 * (k - 1) + 4] == data[4 * k..4 * k + 4]; }
    }
  }

  /** The digits of character `k`. */
  lemma HexDigits(data: seq<byte>, m: seq<Symbol>, k: nat)
    requires AllValid(m) && data == HexAll(m) && k < |m|
    ensures 4 * k + 4 <= |data| && m[k].Valid()
    ensures var i, s := 4 * k, m[k];
            && data[i] == 0x30 && data[i + 1] == (if s.Thai? then 0x45 else 0x30)
            && data[i + 2] == Digit((if s.Thai? then s.low else s.b) / 16)
            && data[i + 3] == Digit((if s.Thai? then s.low else s.b) % 16)
            && data[i + 2] != 0
            && !(s.Ascii? && data[i + 2] == 0x30 && data[i + 3] == 0x45)
  {
    HexPart(data, m, k);
    var i := 4 * k;
    var h := data[i..i + 4];
    assert h[0] == data[i] && h[1] == data[i + 1] && h[2] == data[i + 2] && h[3] == data[i + 3];
  }

  /** Some character of the first `k` is Thai. */
  ghost predicate ThaiBefore(m: seq<Symbol>, k: nat)
    requires k <= |m|
  {
    exists j :: 0 <= j < k && m[j].Thai?
  }

  lemma {:induction false} ThaiIff(m: seq<Symbol>)
    ensures ThaiBefore(m, |m|) <==> HasThai(m)
  {
    if m != [] {
      ThaiIff(m[1..]);
      if HasThai(m[1..]) {
        var j :| 0 <= j < |m[1..]| && m[1..][j].Thai?;
        assert m[j + 1].Thai?;
      }
      if ThaiBefore(m, |m|) {
        var j :| 0 <= j < |m| && m[j].Thai?;
        if j > 0 { assert m[1..][j - 1].Thai?; }
      }
    }
  }

  /** Some pair of digits before place `i` starts a Thai character. */
  ghost predicate ThaiPairBefore(m: seq<Symbol>, i: nat) { (i + 2) / 4 <= |m| && ThaiBefore(m, (i + 2) / 4) }

  lemma PairsAtEnds(m: seq<Symbol>)
    ensures !ThaiPairBefore(m, 0) && ThaiPairBefore(m, 4 * |m|) == HasThai(m)
  {
    ThaiIff(m);
    assert (4 * |m| + 2) / 4 == |m|;
  }

  /** A pair at `i` reads 0E exactly if it starts a Thai character. */
  lemma PairAt(data: seq<byte>, m: seq<Symbol>, i: nat)
    requires AllValid(m) && data == HexAll(m) && i < |data| && i % 2 == 0
    ensures i + 2 <= |data| && data[i] != 0
    ensures ThaiPairBefore(m, i + 2) == (ThaiPairBefore(m, i) || (data[i] == 0x30 && data[i + 1] == 0x45))
  {
    hide HexAll, Hex, AllValid;
    var k := i / 4;
    HexDigits(data, m, k);
    if i == 4 * k {
      DigitBack(0);
      assert (i + 2) / 4 == k && (i + 4) / 4 == k + 1;
      assert m[k].Thai? <==> data[i] == 0x30 && data[i + 1] == 0x45;
    } else {
      assert i == 4 * k + 2 && (i + 2) / 4 == k + 1 && (i + 4) / 4 == k + 1;
      if m[k].Thai? { assert ThaiBefore(m, k + 1); }
    }
  }

  /** The first pass: are there Thai pairs, and the other pairs. */
  method FindThai(data: seq<byte>, ghost m: seq<Symbol>) returns (flag: bool, output: seq<byte>)
    requires AllValid(m) && data == HexAll(m)
    ensures flag == HasThai(m)
    ensures !flag ==> output == data
  {
    hide HexAll, Hex, AllValid, Digit, HasThai, ThaiPairBefore;
    var i := 0;
    flag, output := false, [];
    PairsAtEnds(m);
    while CharAt(data, i) != 0
      invariant i <= |data| == 4 * |m| && i % 2 == 0
      invariant flag == ThaiPairBefore(m, i)
      invariant !flag ==> output == data[..i]
      decreases |data| - i
    {
      PairAt(data, m, i);
      if data[i] == 0x30 && CharAt(data, i + 1) == 0x45 {
        flag := true;
      } else {
        output := output + [data[i]] + [CharAt(data, i + 1)];
      }
      assert data[..i + 2] == data[..i] + [data[i]] + [data[i + 1]];
      i := i + 2;
    }
    if i < |data| { PairAt(data, m, i); }
    assert data[..|data|] == data;
  }

  lemma {:induction false} TisSnoc(m: seq<Symbol>, k: nat)
    requires AllValid(m) && k < |m|
    ensures AllValid(m[..k]) && AllValid(m[..k + 1]) && m[k].Valid()
    ensures TisAll(m[..k + 1]) == TisAll(m[..k]) + [Tis(m[k])]
    decreases k
  {
    hide Tis;
    if k == 0 {
      assert m[..1] == [m[0]] && [m[0]][1..] == [] && m[..0] == [];
    } else {
      TisSnoc(m[1..], k - 1);
      assert m[..k][1..] == m[1..][..k - 1] && m[..k + 1][1..] == m[1..][..k];
    }
  }

  /** The two low digits make the code; both terms fit a byte. */
  lemma CodeOfDigits(s: Symbol)
    requires s.Valid()
    ensures var low := if s.Thai? then s.low else s.b;
            var high := 16 * (Digit(low / 16) - 0x30) + if s.Thai? then 0xA0 else 0;
            && Digit(low / 16) >= 0x30 && 0 <= high < 256 && high % 16 == 0 && 0 <= HexValue(Digit(low % 16)) < 16
            && OrLow(high, HexValue(Digit(low % 16))) == Tis(s)
  {
    hide Digit, HexValue;
    var low := if s.Thai? then s.low else s.b;
    DigitBack(low / 16);
    DigitBack(low % 16);
  }

  /** The code of one character from its four digits. */
  method DecodeDigits(data: seq<byte>, i: nat, ghost m: seq<Symbol>) returns (c: byte, known: bool)
    requires AllValid(m) && data == HexAll(m) && i % 4 == 0 && i < |data|
    ensures known && m[i / 4].Valid() && c == Tis(m[i / 4])
  {
    hide HexAll, Hex, AllValid, Digit, HexValue, Tis, OrLow;
    HexDigits(data, m, i / 4);
    assert 4 * (i / 4) == i;
    CodeOfDigits(m[i / 4]);
    c, known := 0, false;
    if data[i] == 0x30 && data[i + 1] == 0x30 {
      c := OrLow(16 * (data[i + 2] - 0x30) % 256, HexValue(data[i + 3]));
      known := true;
    }
    if data[i] == 0x30 && data[i + 1] == 0x45 {
      c := OrLow((16 * (data[i + 2] - 0x30) + 0xA0) % 256, HexValue(data[i + 3]));
      known := true;
    }
  }

  /** `c |= d` for a byte whose low four bits are zero. */
  function OrLow(c: byte, d: int): byte
    requires c % 16 == 0 && 0 <= d < 16
  {
    c + d
  }

  /** What the first conversion leaves of the digits of `m`. */
  function Codes(m: seq<Symbol>): seq<byte>
    requires AllValid(m)
  {
    if HasThai(m) then TisAll(m) else HexAll(m)
  }

  /** ConvertStrUnicodeToTIS620: with Thai text the codes; without it, the digits themselves. */
  method ToTis620(data: seq<byte>, ghost m: seq<Symbol>) returns (output: seq<byte>)
    requires AllValid(m) && data == HexAll(m)
    ensures output == Codes(m)
  {
    hide HexAll, Hex, AllValid, Tis, TisAll;
    var flag;
    flag, output := FindThai(data, m);
    if !flag { return; }
    output := [];
    var i := 0;
    assert m[..0] == [] && TisAll([]) == [] && AllValid([]) by { NoCodes(); }
    while CharAt(data, i) != 0
      invariant i <= |data| == 4 * |m| && i % 4 == 0
      invariant AllValid(m[..i / 4]) && output == TisAll(m[..i / 4])
      decreases |data| - i
    {
      var c, known := DecodeDigits(data, i, m);
      if known { output := output + [c]; }
      TisSnoc(m, i / 4);
      i := i + 4;
    }
    if i < |data| { HexDigits(data, m, i / 4); }
    assert m[..|m|] == m;
  }

  lemma NoCodes()
    ensures AllValid([]) && TisAll([]) == []
  {
  }

  /** The UTF-8 bytes made from one TIS-620 code; anything below 0xA0 is kept. */
  function Utf8OfTis(c: byte): seq<byte> {
    if c < 0xA0 then [c] else [0xE0, if c >= 0xE0 then 0xB9 else 0xB8, if c >= 0xE0 then c - 0x60 else c - 0x20]
  }

  function Utf8OfTisAll(t: seq<byte>): seq<byte> { if t == [] then [] else Utf8OfTis(t[0]) + Utf8OfTisAll(t[1..]) }

  lemma TisBack(s: Symbol)
    requires s.Valid()
    ensures Utf8OfTis(Tis(s)) == Utf8(s) && Tis(s) != 0
  {
    if s.Thai? { ThaiBytes(s.low); }
  }

  lemma {:induction false} TisAllBack(m: seq<Symbol>)
    requires AllValid(m)
    ensures Utf8OfTisAll(TisAll(m)) == Utf8All(m) && 0 !in TisAll(m)
  {
    hide Tis, Utf8, Utf8OfTis;
    if m != [] {
      TisBack(m[0]);
      TisAllBack(m[1..]);
    }
  }

  predicate AllSmall(t: seq<byte>) { t == [] || (0 < t[0] < 0xA0 && AllSmall(t[1..])) }

  lemma {:induction false} SmallKept(t: seq<byte>)
    requires AllSmall(t)
    ensures Utf8OfTisAll(t) == t && 0 !in t
  {
    if t != [] {
      SmallKept(t[1..]);
      assert t == [t[0]] + t[1..];
    }
  }

  lemma {:induction false} HexSmall(m: seq<Symbol>)
    requires AllValid(m)
    ensures AllSmall(HexAll(m))
  {
    if m != [] {
      HexSmall(m[1..]);
      var h, rest := Hex(m[0]), HexAll(m[1..]);
      var all := h + rest;
      assert all[1..][1..][1..][1..] == rest;
      assert all[1..][0] == h[1] && all[1..][1..][0] == h[2] && all[1..][1..][1..][0] == h[3];
      assert AllSmall(all[1..][1..][1..]) && AllSmall(all[1..][1..]) && AllSmall(all[1..]);
    }
  }

  /** What the receiver makes of the digits of `m`. */
  function Received(m: seq<Symbol>): seq<byte>
    requires AllValid(m)
  {
    if HasThai(m) then Utf8All(m) else HexAll(m)
  }

  lemma AtEnd(s: seq<byte>, i: nat)
    requires 0 !in s && i <= |s| && CharAt(s, i) == 0
    ensures i == |s|
  {
  }

  lemma Associates(a: seq<byte>, b: seq<byte>, c: seq<byte>)
    ensures a + (b + c) == a + b + c
  {
  }

  /** The three bytes of a Thai code, or the one of any other. */
  method AppendUtf8(c: byte, out0: seq<byte>) returns (out: seq<byte>)
    ensures out == out0 + Utf8OfTis(c)
  {
    if c >= 0xA0 {
      out := out0 + [0xE0];
      if c >= 0xE0 {
        out := out + [0xB9] + [c - 0x60];
      } else {
        out := out + [0xB8] + [c - 0x20];
      }
    } else {
      out := out0 + [c];
    }
  }

  /** ConvertStrUnicodeToUTF8 */
  method ToUtf8(data: seq<byte>, ghost m: seq<Symbol>) returns (out: seq<byte>)
    requires AllValid(m) && data == HexAll(m)
    ensures out == Received(m)
  {
    hide HexAll, AllValid, TisAll, Utf8All, Utf8OfTis, AllSmall;
    var dat := ToTis620(data, m);
    if HasThai(m) {
      TisAllBack(m);
    } else {
      HexSmall(m);
      SmallKept(data);
    }
    var i := 0;
    out := [];
    assert dat[0..] == dat;
    while CharAt(dat, i) != 0
      invariant i <= |dat| && out + Utf8OfTisAll(dat[i..]) == Received(m)
      decreases |dat| - i
    {
      var c := dat[i];
      assert dat[i..][0] == c && dat[i..][1..] == dat[i + 1..];
      Associates(out, Utf8OfTis(c), Utf8OfTisAll(dat[i + 1..]));
      out := AppendUtf8(c, out);
      i := i + 1;
    }
    AtEnd(dat, i);
    assert dat[|dat|..] == [];
  }

  // ---------------------------------------------------------------- the round trip

  lemma {:induction false} NoThaiLength(m: seq<Symbol>)
    requires AllValid(m) && !HasThai(m)
    ensures |Utf8All(m)| == |m|
  {
    if m != [] { NoThaiLength(m[1..]); }
  }

  /** A message comes back as it was sent exactly if it holds a Thai character, or nothing: plain ASCII
      comes back as its hex digits. */
  lemma RoundTripExactly(m: seq<Symbol>)
    requires AllValid(m)
    ensures Received(m) == Utf8All(m) <==> HasThai(m) || m == []
  {
    hide HexAll;
    if !HasThai(m) { NoThaiLength(m); }
    if m == [] { assert HexAll(m) == []; }
  }

  /** Sent and received. */
  method ThereAndBack(data: seq<byte>, ghost m: seq<Symbol>) returns (back: seq<byte>)
    requires AllValid(m) && data == Utf8All(m) && |data| <= 255
    ensures back == data <==> HasThai(m) || m == []
  {
    hide HexAll, Utf8All, AllValid, Received;
    var hex := Send(data, m);
    back := ToUtf8(hex, m);
    RoundTripExactly(m);
  }

  predicate HasAscii(m: seq<Symbol>) { m != [] && (m[0].Ascii? || HasAscii(m[1..])) }

  lemma {:induction false} LengthOfUtf8(m: seq<Symbol>)
    requires AllValid(m)
    ensures |Utf8All(m)| <= 3 * |m| && (|Utf8All(m)| == 3 * |m| <==> !HasAscii(m))
    ensures HasAscii(m) ==> |Utf8All(m)| + 2 <= 3 * |m|
  {
    if m != [] { LengthOfUtf8(m[1..]); }
  }

  lemma {:induction false} NoThaiIsAscii(m: seq<Symbol>)
    requires !HasThai(m)
    ensures HasAscii(m) <==> m != []
  {
  }

  /** The receiver's buffer has three cells for each byte of the first conversion: its terminating zero
      fits exactly if some character is ASCII.  All-Thai messages and the empty one overrun it. */
  lemma TerminatorFitsExactly(m: seq<Symbol>)
    requires AllValid(m)
    ensures |Received(m)| + 1 <= 3 * |Codes(m)| <==> HasAscii(m)
  {
    hide HexAll;
    LengthOfUtf8(m);
    if !HasThai(m) { NoThaiIsAscii(m); }
  }

  // ---------------------------------------------------------------- code points

  /** The Unicode code point of a character. */
  function CodePoint(s: Symbol): nat { match s case Ascii(b) => b case Thai(low) => 0x0E00 + low }

  /** The value of an upper-case hex digit. */
  function DigitValue(c: byte): int
  {
    if '0' as int <= c <= '9' as int then c - '0' as int
    else if 'A' as int <= c <= 'F' as int then c - 'A' as int + 10
    else -1
  }

  /** The UTF-8 bytes stand for the code point. */
  lemma Utf8OfPoint(s: Symbol)
    requires s.Valid()
    ensures var u, p := Utf8(s), CodePoint(s);
            if p < 0x80 then u == [p]
            else |u| == 3 && u[0] / 16 == 0xE && u[1] / 64 == u[2] / 64 == 2
                 && p == 0x1000 * (u[0] % 16) as int + 0x40 * (u[1] % 64) as int + u[2] % 64
  {
    if s.Thai? { ThaiBytes(s.low); }
  }

  lemma DigitStands(d: nat)
    requires d < 16
    ensures DigitValue(Digit(d)) == d
  {
  }

  /** So do the hex digits, and the TIS-620 code. */
  lemma CodesOfPoint(s: Symbol)
    requires s.Valid()
    ensures var h := Hex(s);
            && |h| == 4 && (forall i :: 0 <= i < 4 ==> DigitValue(h[i]) >= 0)
            && CodePoint(s) == 0x1000 * DigitValue(h[0]) + 0x100 * DigitValue(h[1])
                               + 0x10 * DigitValue(h[2]) + DigitValue(h[3])
    ensures Tis(s) == if CodePoint(s) < 0x80 then CodePoint(s) else CodePoint(s) - 0x0E00 + 0xA0
  {
    var low: nat := if s.Thai? then s.low else s.b;
    assert Digit(0) == 0x30 && Digit(14) == 0x45;
    hide DigitValue, Digit;
    DigitStands(0);
    DigitStands(14);
    DigitStands(low / 16);
    DigitStands(low % 16);
    assert low == 16 * (low / 16) + low % 16;
  }

  /** KO KAI is sent as 0E01, is A1 in TIS-620, and E0 B8 81 in UTF-8. */
  lemma KoKai()
    ensures var s := Thai(1);
            Hex(s) == [0x30, 0x45, 0x30, 0x31] && Tis(s) == 0xA1 && Utf8(s) == [0xE0, 0xB8, 0x81]
  {
  }
}
