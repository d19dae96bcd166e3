/** SLIP framing (RFC 1055, section "PROTOCOL") as esptool.py writes and reads it. */
module Slip {
  import opened IntBytes

  const End: byte := 0xC0
  const Esc: byte := 0xDB
  const EscEnd: byte := 0xDC
  const EscEsc: byte := 0xDD

  // ---------------------------------------------------------------- writing

  /** bytes.replace for a pattern of one byte. */
  function Replace(s: seq<byte>, find: byte, with: seq<byte>): seq<byte> {
    if s == [] then [] else (if s[0] == find then with else [s[0]]) + Replace(s[1..], find, with)
  }

  /** ESPLoader.write: two replacements one after the other, between two delimiters. */
  function Write(packet: seq<byte>): seq<byte> {
    [End] + Replace(Replace(packet, Esc, [Esc, EscEsc]), End, [Esc, EscEnd]) + [End]
  }

  function EscapeByte(b: byte): seq<byte> {
    if b == End then [Esc, EscEnd] else if b == Esc then [Esc, EscEsc] else [b]
  }

  /** The standard's escaping, byte by byte. */
  function Escaped(packet: seq<byte>): seq<byte> {
    if packet == [] then [] else EscapeByte(packet[0]) + Escaped(packet[1..])
  }

  lemma {:induction false} ReplaceAppend(p: seq<byte>, q: seq<byte>, find: byte, with: seq<byte>)
    ensures Replace(p + q, find, with) == Replace(p, find, with) + Replace(q, find, with)
    decreases |p|
  {
    if p == [] {
      assert p + q == q;
    } else {
      assert (p + q)[1..] == p[1..] + q;
      ReplaceAppend(p[1..], q, find, with);
    }
  }

  lemma ReplaceShort(x: byte, y: byte, find: byte, with: seq<byte>)
    requires y != find
    ensures Replace([x], find, with) == if x == find then with else [x]
    ensures Replace([x, y], find, with) == (if x == find then with else [x]) + [y]
  {
    assert [x][1..] == [] && [x, y][1..] == [y] && [y][1..] == [];
    assert Replace([y], find, with) == [y] + [];
    assert with + [] == with;
  }

  lemma EscapeFirst(b: byte)
    ensures Replace(if b == Esc then [Esc, EscEsc] else [b], End, [Esc, EscEnd]) == EscapeByte(b)
  {
    hide Replace;
    ReplaceShort(b, EscEsc, End, [Esc, EscEnd]);
  }

  lemma ReplaceStep(s: seq<byte>, find: byte, with: seq<byte>)
    requires s != []
    ensures Replace(s, find, with) == (if s[0] == find then with else [s[0]]) + Replace(s[1..], find, with)
  {
  }

  /** The order of the two replacements is right: the second never touches what the first wrote. */
  lemma {:induction false} WriteEscapes(packet: seq<byte>)
    ensures Replace(Replace(packet, Esc, [Esc, EscEsc]), End, [Esc, EscEnd]) == Escaped(packet)
  {
    hide EscapeByte;
    if packet == [] {
      assert Replace([], End, [Esc, EscEnd]) == [];
    } else {
      hide Replace;
      var first := if packet[0] == Esc then [Esc, EscEsc] else [packet[0]];
      ReplaceStep(packet, Esc, [Esc, EscEsc]);
      ReplaceAppend(first, Replace(packet[1..], Esc, [Esc, EscEsc]), End, [Esc, EscEnd]);
      EscapeFirst(packet[0]);
      WriteEscapes(packet[1..]);
    }
  }

  /** The delimiter never occurs inside a frame. */
  lemma {:induction false} NoDelimiterInside(packet: seq<byte>)
    ensures End !in Escaped(packet)
  {
    if packet != [] { NoDelimiterInside(packet[1..]); }
  }

  /** Packets written one after the other. */
  function Stream(packets: seq<seq<byte>>): seq<byte> {
    if packets == [] then [] else Write(packets[0]) + Stream(packets[1..])
  }

  lemma {:induction false} StreamAppend(p: seq<seq<byte>>, q: seq<seq<byte>>)
    ensures Stream(p + q) == Stream(p) + Stream(q)
    decreases |p|
  {
    hide Write;
    if p == [] {
      assert p + q == q;
    } else {
      assert (p + q)[1..] == p[1..] + q;
      StreamAppend(p[1..], q);
    }
  }

  // ---------------------------------------------------------------- reading, as a machine

  datatype Error = TimedOut(header: bool) | InvalidHead(b: byte) | InvalidEscape(b: byte)

  /** What the reader is waiting for; after an exception the generator yields nothing more. */
  datatype Reader = Header | Content(partial: seq<byte>) | InEscape(partial: seq<byte>) | Raised(error: Error)

  function Advance(r: Reader, b: byte): Reader {
    match r
    case Header => if b == End then Content([]) else Raised(InvalidHead(b))
    case InEscape(p) =>
      if b == EscEnd then Content(p + [End]) else if b == EscEsc then Content(p + [Esc]) else Raised(InvalidEscape(b))
    case Content(p) => if b == Esc then InEscape(p) else if b == End then Header else Content(p + [b])
    case Raised(_) => r
  }

  function Yielded(r: Reader, b: byte): seq<seq<byte>> { if r.Content? && b == End then [r.partial] else [] }

  function Read(r: Reader, input: seq<byte>): seq<seq<byte>>
    decreases |input|
  {
    if input == [] then [] else Yielded(r, input[0]) + Read(Advance(r, input[0]), input[1..])
  }

  function After(r: Reader, input: seq<byte>): Reader
    decreases |input|
  {
    if input == [] then r else After(Advance(r, input[0]), input[1..])
  }

  lemma {:induction false} ReadSplit(r: Reader, p: seq<byte>, q: seq<byte>)
    ensures Read(r, p + q) == Read(r, p) + Read(After(r, p), q)
    ensures After(r, p + q) == After(After(r, p), q)
    decreases |p|
  {
    hide Advance, Yielded;
    if p == [] {
      assert p + q == q;
    } else {
      assert (p + q)[1..] == p[1..] + q;
      ReadSplit(Advance(r, p[0]), p[1..], q);
    }
  }

  lemma ReadOne(r: Reader, b: byte)
    ensures Read(r, [b]) == Yielded(r, b) && After(r, [b]) == Advance(r, b)
  {
    assert [b][1..] == [];
    assert Read(r, [b]) == Yielded(r, b) + [];
  }

  // ---------------------------------------------------------------- what is written is what is read

  lemma ReadEscapedByte(p: seq<byte>, b: byte)
    ensures Read(Content(p), EscapeByte(b)) == [] && After(Content(p), EscapeByte(b)) == Content(p + [b])
  {
    ReadOne(Content(p), b);
    ReadOne(Content(p), Esc);
    ReadOne(InEscape(p), EscEnd);
    ReadOne(InEscape(p), EscEsc);
    ReadSplit(Content(p), [Esc], [EscEnd]);
    ReadSplit(Content(p), [Esc], [EscEsc]);
    assert [Esc] + [EscEnd] == [Esc, EscEnd] && [Esc] + [EscEsc] == [Esc, EscEsc];
  }

  lemma {:induction false} ReadEscaped(p: seq<byte>, packet: seq<byte>)
    ensures Read(Content(p), Escaped(packet)) == [] && After(Content(p), Escaped(packet)) == Content(p + packet)
    decreases |packet|
  {
    hide EscapeByte, Advance, Yielded;
    if packet == [] {
      assert p + packet == p;
    } else {
      ReadEscapedByte(p, packet[0]);
      ReadSplit(Content(p), EscapeByte(packet[0]), Escaped(packet[1..]));
      ReadEscaped(p + [packet[0]], packet[1..]);
      assert p + [packet[0]] + packet[1..] == p + packet;
    }
  }

  lemma ReadPacket(packet: seq<byte>)
    ensures Read(Header, Write(packet)) == [packet] && After(Header, Write(packet)) == Header
  {
    WriteEscapes(packet);
    ReadOne(Header, End);
    ReadSplit(Header, [End], Escaped(packet));
    ReadEscaped([], packet);
    assert [] + packet == packet;
    ReadOne(Content(packet), End);
    ReadSplit(Header, [End] + Escaped(packet), [End]);
  }

  /** Every list of packets is read back as written, in order, without an error. */
  lemma {:induction false} ReadStream(packets: seq<seq<byte>>)
    ensures Read(Header, Stream(packets)) == packets && After(Header, Stream(packets)) == Header
  {
    hide Write;
    if packets != [] {
      ReadPacket(packets[0]);
      ReadSplit(Header, Write(packets[0]), Stream(packets[1..]));
      ReadStream(packets[1..]);
      assert [packets[0]] + packets[1..] == packets;
    }
  }

  /** The bytes of the packet under way. */
  function Pending(r: Reader): seq<byte>
    requires !r.Raised?
  {
    match r
    case Header => []
    case Content(p) => [End] + Escaped(p)
    case InEscape(p) => [End] + Escaped(p) + [Esc]
  }

  lemma {:induction false} EscapedAppend(p: seq<byte>, q: seq<byte>)
    ensures Escaped(p + q) == Escaped(p) + Escaped(q)
    decreases |p|
  {
    hide EscapeByte;
    if p == [] {
      assert p + q == q;
    } else {
      assert (p + q)[1..] == p[1..] + q;
      EscapedAppend(p[1..], q);
    }
  }

  lemma EscapedOne(b: byte)
    ensures Escaped([b]) == EscapeByte(b)
  {
    assert [b][1..] == [];
    assert EscapeByte(b) + [] == EscapeByte(b);
  }

  lemma StreamOne(packet: seq<byte>)
    ensures Stream([packet]) == [End] + Escaped(packet) + [End]
  {
    WriteEscapes(packet);
    assert [packet][1..] == [];
    assert Stream([packet]) == Write(packet) + [];
  }

  /** One byte keeps the account: the bytes read are the packets yielded, written out, and the pending bytes. */
  lemma StepAccounts(r: Reader, b: byte)
    requires !r.Raised? && !Advance(r, b).Raised?
    ensures Pending(r) + [b] == Stream(Yielded(r, b)) + Pending(Advance(r, b))
  {
    hide Escaped, Stream;
    assert Stream([]) == [] && Escaped([]) == [] by { EmptyStream(); }
    if r.Content? {
      StreamOne(r.partial);
      EscapedAppend(r.partial, [b]);
      EscapedOne(b);
    } else if r.InEscape? {
      var c := if b == EscEnd then End else Esc;
      EscapedAppend(r.partial, [c]);
      EscapedOne(c);
    }
  }

  lemma EmptyStream()
    ensures Stream([]) == [] && Escaped([]) == []
  {
  }

  /** Whatever is read without an error is exactly the packets yielded, written out, and the pending bytes. */
  lemma {:induction false} ReadAccounts(r: Reader, input: seq<byte>)
    requires !r.Raised? && !After(r, input).Raised?
    ensures Pending(r) + input == Stream(Read(r, input)) + Pending(After(r, input))
    decreases |input|
  {
    hide Advance, Yielded, Stream, Pending;
    if input == [] {
      EmptyStream();
      assert Pending(r) + [] == [] + Pending(r);
    } else {
      var b, rest := input[0], input[1..];
      var next := Advance(r, b);
      if next.Raised? {
        StaysRaised(next, rest);
        assert false;
      }
      StepAccounts(r, b);
      ReadAccounts(next, rest);
      StreamAppend(Yielded(r, b), Read(next, rest));
      assert Pending(r) + input == Pending(r) + [b] + rest;
      Reassociate(Stream(Yielded(r, b)), Pending(next), rest, Stream(Read(next, rest)), Pending(After(next, rest)));
    }
  }

  lemma Reassociate(a: seq<byte>, b: seq<byte>, c: seq<byte>, d: seq<byte>, e: seq<byte>)
    requires b + c == d + e
    ensures a + b + c == a + d + e
  {
    assert a + b + c == a + (b + c) && a + d + e == a + (d + e);
  }

  lemma {:induction false} StaysRaised(r: Reader, input: seq<byte>)
    requires r.Raised?
    ensures After(r, input) == r
    decreases |input|
  {
    if input != [] { StaysRaised(r, input[1..]); }
  }

  /** The reader ends between packets exactly on the streams a writer can produce, and they determine the packets. */
  lemma AcceptsExactlyStreams(input: seq<byte>)
    ensures After(Header, input) == Header <==> exists packets :: input == Stream(packets)
    ensures After(Header, input) == Header ==> input == Stream(Read(Header, input))
  {
    hide Stream, Read, After;
    if After(Header, input) == Header {
      ReadAccounts(Header, input);
      var packets := Read(Header, input);
      assert [] + input == input && Stream(packets) + [] == Stream(packets);
    } else if exists packets :: input == Stream(packets) {
      var packets :| input == Stream(packets);
      ReadStream(packets);
      assert false;
    }
  }

  // ---------------------------------------------------------------- the generator

  class SlipReader {
    var waiting: bool           // partial_packet is None
    var partialPacket: seq<byte>
    var inEscape: bool
    var failed: bool            // an exception has ended the generator
    var error: Error

    ghost predicate Valid()
      reads this
    {
      waiting ==> !inEscape
    }

    ghost function View(): Reader
      reads this
    {
      if failed then Raised(error)
      else if waiting then Header
      else if inEscape then InEscape(partialPacket)
      else Content(partialPacket)
    }

    constructor ()
      ensures Valid() && View() == Header
    {
      waiting, partialPacket, inEscape, failed, error := true, [], false, false, TimedOut(true);
    }

    /** What the loop does with one byte. */
    method Take(b: byte) returns (yielded: seq<seq<byte>>)
      requires Valid() && !failed
      modifies this
      ensures Valid()
      ensures yielded == Yielded(old(View()), b) && View() == Advance(old(View()), b)
    {
      yielded := [];
      if waiting {
        if b == End {
          waiting, partialPacket := false, [];
        } else {
          failed, error := true, InvalidHead(b);
        }
      } else if inEscape {
        inEscape := false;
        if b == EscEnd {
          partialPacket := partialPacket + [End];
        } else if b == EscEsc {
          partialPacket := partialPacket + [Esc];
        } else {
          failed, error := true, InvalidEscape(b);
        }
      } else if b == Esc {
        inEscape := true;
      } else if b == End {
        yielded := [partialPacket];
        waiting := true;
      } else {
        partialPacket := partialPacket + [b];
      }
    }

    /** One read from the port: nothing is a timeout, anything else is taken byte by byte. */
    method Feed(readBytes: seq<byte>) returns (packets: seq<seq<byte>>)
      requires Valid() && !failed
      modifies this
      ensures Valid()
      ensures readBytes == [] ==> packets == [] && View() == Raised(TimedOut(old(waiting)))
      ensures readBytes != [] ==> packets == Read(old(View()), readBytes) && View() == After(old(View()), readBytes)
    {
      hide Advance, Yielded;
      packets := [];
      if readBytes == [] {
        failed, error := true, TimedOut(waiting);
        return;
      }
      ghost var r := View();
      assert readBytes[0..] == readBytes;
      for i := 0 to |readBytes|
        invariant Valid() && !failed
        invariant packets + Read(View(), readBytes[i..]) == Read(r, readBytes)
        invariant After(View(), readBytes[i..]) == After(r, readBytes)
      {
        ghost var rest := readBytes[i..];
        assert rest[0] == readBytes[i] && rest[1..] == readBytes[i + 1..];
        var yielded := Take(readBytes[i]);
        packets := packets + yielded;
        if failed {
          NothingMore(View(), rest[1..]);
          StaysRaised(View(), rest[1..]);
          return;
        }
      }
      assert readBytes[|readBytes|..] == [];
    }
  }

  lemma {:induction false} NothingMore(r: Reader, input: seq<byte>)
    requires r.Raised?
    ensures Read(r, input) == []
    decreases |input|
  {
    if input != [] { NothingMore(r, input[1..]); }
  }

  function Concat(chunks: seq<seq<byte>>): seq<byte> {
    if chunks == [] then [] else chunks[0] + Concat(chunks[1..])
  }

  /** A written stream delivered in any nonempty chunks is yielded as exactly the packets written. */
  method ReadChunks(chunks: seq<seq<byte>>, ghost packets: seq<seq<byte>>)
    returns (yielded: seq<seq<byte>>, reader: SlipReader)
    requires forall i :: 0 <= i < |chunks| ==> chunks[i] != []
    requires Concat(chunks) == Stream(packets)
    ensures yielded == packets && fresh(reader) && reader.View() == Header
  {
    hide Stream, Read, After;
    reader := new SlipReader();
    yielded := [];
    ReadStream(packets);
    assert chunks[0..] == chunks;
    for i := 0 to |chunks|
      invariant fresh(reader) && reader.Valid() && (After(reader.View(), Concat(chunks[i..])) == Header)
      invariant yielded + Read(reader.View(), Concat(chunks[i..])) == packets
    {
      ghost var r, rest := reader.View(), chunks[i..];
      assert rest[0] == chunks[i] && rest[1..] == chunks[i + 1..];
      ReadSplit(r, chunks[i], Concat(rest[1..]));
      if reader.failed { StaysRaised(r, Concat(rest)); assert false; }
      var more := reader.Feed(chunks[i]);
      yielded := yielded + more;
    }
    assert chunks[|chunks|..] == [];
    NothingRead(reader.View());
  }

  lemma NothingRead(r: Reader)
    ensures Read(r, []) == [] && After(r, []) == r
  {
  }

  // ---------------------------------------------------------------- the standard's own bytes

  /** The four special bytes of RFC 1055 at work. */
  lemma FrameExample()
    ensures Write([0x01, 0xC0, 0xDB, 0x02]) == [0xC0, 0x01, 0xDB, 0xDC, 0xDB, 0xDD, 0x02, 0xC0]
  {
    var p: seq<byte> := [0x01, 0xC0, 0xDB, 0x02];
    WriteEscapes(p);
    assert p[1..] == [0xC0, 0xDB, 0x02] && p[1..][1..] == [0xDB, 0x02] && p[1..][1..][1..] == [0x02];
    assert p[1..][1..][1..][1..] == [];
  }

  /** A packet without special bytes is written as it is. */
  lemma {:induction false} PlainEscaped(packet: seq<byte>)
    requires 0xC0 !in packet && 0xDB !in packet
    ensures Escaped(packet) == packet
  {
    if packet != [] {
      PlainEscaped(packet[1..]);
      assert packet == [packet[0]] + packet[1..];
    }
  }

  lemma PlainWritten(packet: seq<byte>)
    requires 0xC0 !in packet && 0xDB !in packet
    ensures Write(packet) == [0xC0] + packet + [0xC0]
  {
    WriteEscapes(packet);
    PlainEscaped(packet);
  }

  /** What the reader raises, and when. */
  lemma RaisedExactly(r: Reader, b: byte)
    requires !r.Raised?
    ensures Advance(r, b) == Raised(InvalidHead(b)) <==> r.Header? && b != 0xC0
    ensures Advance(r, b) == Raised(InvalidEscape(b)) <==> r.InEscape? && b != 0xDC && b != 0xDD
    ensures Advance(r, b).Raised? ==> Advance(r, b).error == InvalidHead(b) || Advance(r, b).error == InvalidEscape(b)
  {
  }
}
