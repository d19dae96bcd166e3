/** What one Modbus RTU transaction of ModbusMeter.cpp accepts, as a decision on the bytes that arrive. */
module ModbusSpec {
  import opened BitwiseXor
  import opened IntBytes
  import opened Crc16

  const Success: byte := 0x00
  const InvalidSlaveID: byte := 0xE0
  const InvalidFunction: byte := 0xE1
  const ResponseTimedOut: byte := 0xE2
  const InvalidCRC: byte := 0xE3

  const ResponseTimeout := 500   // milliseconds

  /** One call of uart_read_bytes, and the milliseconds since the request when it returns.  A call that
      delivers nothing has blocked for 1000 ticks, which is past the response timeout. */
  datatype Attempt = Got(b: byte, elapsed: nat) | Nothing

  type Line = nat -> Attempt

  predicate OnTime(a: Attempt) { a.Got? && a.elapsed <= ResponseTimeout }

  /** The first `n` attempts all deliver a byte before the timeout. */
  predicate InTime(line: Line, n: nat) { forall i :: 0 <= i < n ==> OnTime(line(i)) }

  function ByteAt(line: Line, i: nat): byte {
    match line(i) case Got(b, _) => b case Nothing => 0
  }

  function Bytes(line: Line, n: nat): (s: seq<byte>)
    ensures |s| == n
  {
    seq(n, i requires 0 <= i < n => ByteAt(line, i))
  }

  predicate ReadsBits(fn: byte) { fn == 0x01 || fn == 0x02 }

  predicate ReadsRegisters(fn: byte) { fn == 0x03 || fn == 0x04 || fn == 0x17 }

  predicate Writes(fn: byte) { fn == 0x05 || fn == 0x0F || fn == 0x06 || fn == 0x10 }

  /** The bytes still to come once five have been read, if `left` are expected so far. */
  function LeftAfterHeader(fn: byte, count: byte, left: nat): nat {
    if ReadsBits(fn) || ReadsRegisters(fn) then count
    else if Writes(fn) then 3
    else if fn == 0x16 then 5
    else left
  }

  /** Eight bytes are expected at first, so three are left after the header. */
  function Remaining(fn: byte, count: byte): nat { LeftAfterHeader(fn, count, 3) }

  function Total(fn: byte, line: Line): (n: nat)
    ensures n >= 5
  {
    5 + Remaining(fn, ByteAt(line, 2))
  }

  /** The last two bytes are the CRC of the others, low byte first. */
  predicate CrcHolds(frame: seq<byte>)
    requires |frame| >= 2
  {
    var crc := Crc(Initial, frame[..|frame| - 2]);
    frame[|frame| - 2] == LowByte(crc) && frame[|frame| - 1] == HighByte(crc)
  }

  function Request(slave: byte, fn: byte, start: word, qty: word): (s: seq<byte>)
    ensures |s| == 8
  {
    var body := [slave, fn, HighByte(start), LowByte(start), HighByte(qty), LowByte(qty)];
    var crc := Crc(Initial, body);
    body + [LowByte(crc), HighByte(crc)]
  }

  /** An exception reply as it stands in the buffer: if the fifth byte never came, the request's is still there. */
  function ExceptionFrame(line: Line, stale: byte): seq<byte> {
    Bytes(line, 4) + [if line(4).Got? then line(4).b else stale]
  }

  /** How the receive loop ends. */
  function ReceiveStatus(slave: byte, fn: byte, line: Line): byte {
    if !InTime(line, 4) then ResponseTimedOut
    else if ByteAt(line, 0) != slave then InvalidSlaveID
    else if ByteAt(line, 1) % 128 != fn then InvalidFunction
    else if ByteAt(line, 1) >= 128 then ByteAt(line, 2)
    else if !InTime(line, Total(fn, line)) then ResponseTimedOut
    else Success
  }

  /** The status of a transaction.  The byte counter has eight bits: a frame of 256 bytes or more leaves
      it below five, and then its CRC is not looked at. */
  function Result(slave: byte, fn: byte, line: Line, stale: byte): byte {
    var status := ReceiveStatus(slave, fn, line);
    if status != Success then status
    else if ByteAt(line, 1) >= 128 then (if CrcHolds(ExceptionFrame(line, stale)) then Success else InvalidCRC)
    else if Total(fn, line) > 255 || CrcHolds(Bytes(line, Total(fn, line))) then Success
    else InvalidCRC
  }

  function Word(high: byte, low: byte): word { 256 * (high as int) + low }

  /** The response words after an accepted frame: registers high byte first, bits low byte first with
      an odd last byte on its own. */
  function Disassembled(fn: byte, frame: seq<byte>, before: seq<word>): (after: seq<word>)
    requires |frame| >= 5 && |frame| == 5 + Remaining(fn, frame[2])
    ensures |after| == |before|
  {
    var count := frame[2];
    seq(|before|, i requires 0 <= i < |before| =>
      if ReadsRegisters(fn) && i < count / 2 then Word(frame[2 * i + 3], frame[2 * i + 4])
      else if ReadsBits(fn) && i < count / 2 then Word(frame[2 * i + 4], frame[2 * i + 3])
      else if ReadsBits(fn) && count % 2 == 1 && i == count / 2 then frame[2 * i + 3]
      else before[i])
  }

  // ---------------------------------------------------------------- what acceptance means

  lemma CrcHoldsIffZero(frame: seq<byte>)
    requires |frame| >= 2
    ensures CrcHolds(frame) <==> Crc(Initial, frame) == 0
  {
    var n := |frame|;
    assert frame == frame[..n - 2] + [frame[n - 2], frame[n - 1]];
    AppendedCrc(Initial, frame[..n - 2], frame[n - 2], frame[n - 1]);
  }

  /** The eight bytes that ask `slave` for function `fn` at `start`: address and quantity with the high byte first,
      and a CRC that makes the whole CRC zero. */
  ghost predicate Asks(frame: seq<byte>, slave: byte, fn: byte, start: word, qty: word) {
    && |frame| == 8 && frame[0] == slave && frame[1] == fn
    && 256 * (frame[2] as int) + frame[3] == start && 256 * (frame[4] as int) + frame[5] == qty
    && Crc(0xFFFF, frame) == 0
  }

  lemma RequestAsks(slave: byte, fn: byte, start: word, qty: word)
    ensures Asks(Request(slave, fn, start, qty), slave, fn, start, qty)
  {
    hide Crc;
    RequestIsValid(slave, fn, start, qty);
  }

  /** There is only one such frame. */
  lemma OneRequest(f: seq<byte>, slave: byte, fn: byte, start: word, qty: word)
    requires Asks(f, slave, fn, start, qty)
    ensures f == Request(slave, fn, start, qty)
  {
    hide Crc;
    var body := [slave, fn, HighByte(start), LowByte(start), HighByte(qty), LowByte(qty)];
    assert f == body + [f[6], f[7]];
    AppendedCrc(Initial, body, f[6], f[7]);
  }

  /** The firmware's read of six registers at 0x000E from slave 1. */
  lemma RequestExample()
    ensures Request(0x01, 0x03, 0x000E, 6) == [0x01, 0x03, 0x00, 0x0E, 0x00, 0x06, 0xA4, 0x0B]
  {
    hide Crc;
    CrcExample();
  }

  /** How many bytes a reply has, by function code. */
  lemma LengthByFunction(fn: byte, line: Line)
    ensures fn in {0x01, 0x02, 0x03, 0x04, 0x17} ==> Total(fn, line) == 5 + ByteAt(line, 2)
    ensures fn == 0x16 ==> Total(fn, line) == 10
    ensures fn !in {0x01, 0x02, 0x03, 0x04, 0x17, 0x16} ==> Total(fn, line) == 8
  {
  }

  /** The byte of attempt `i` has come within half a second of the request. */
  predicate CameInTime(line: Line, i: nat) { line(i).Got? && line(i).elapsed <= 500 }

  /** Which error is reported when: no answer in time first, then the slave, then the function, then the slave's
      exception code, then a reply that breaks off, and the CRC last. */
  lemma ErrorsExactly(slave: byte, fn: byte, line: Line, stale: byte)
    ensures var result, heard := Result(slave, fn, line, stale), forall i :: 0 <= i < 4 ==> CameInTime(line, i);
            var b0, b1, b2 := ByteAt(line, 0) as int, ByteAt(line, 1) as int, ByteAt(line, 2);
            && (!heard ==> result == 0xE2)
            && (heard && b0 != slave ==> result == 0xE0)
            && (heard && b0 == slave && b1 != fn && b1 != fn + 128 ==> result == 0xE1)
            && (heard && b0 == slave && b1 == fn + 128 && b2 != 0 ==> result == b2)
            && (heard && b0 == slave && b1 == fn + 128 && b2 == 0 ==> result in {0x00, 0xE3})
            && (heard && b0 == slave && b1 == fn < 128 ==>
                  result == if exists i :: 0 <= i < Total(fn, line) && !CameInTime(line, i) then 0xE2
                            else if Total(fn, line) > 255 || Crc(0xFFFF, Bytes(line, Total(fn, line))) == 0 then 0x00
                            else 0xE3)
  {
    hide Crc, Total;
    InTimeIs(line, 4);
    InTimeIs(line, Total(fn, line));
    CrcHoldsIffZero(Bytes(line, Total(fn, line)));
  }

  lemma InTimeIs(line: Line, n: nat)
    ensures InTime(line, n) <==> forall i :: 0 <= i < n ==> CameInTime(line, i)
  {
    if InTime(line, n) {
      forall i | 0 <= i < n ensures CameInTime(line, i) { assert OnTime(line(i)); }
    }
    if forall i :: 0 <= i < n ==> CameInTime(line, i) {
      forall i | 0 <= i < n ensures OnTime(line(i)) { assert CameInTime(line, i); }
    }
  }

  /** A slave that checks the request the same way finds it valid. */
  lemma RequestIsValid(slave: byte, fn: byte, start: word, qty: word)
    ensures Crc(Initial, Request(slave, fn, start, qty)) == 0
  {
    var body := [slave, fn, HighByte(start), LowByte(start), HighByte(qty), LowByte(qty)];
    var crc := Crc(Initial, body);
    AppendedCrc(Initial, body, LowByte(crc), HighByte(crc));
  }

  /** A regular reply: slave, requested function, and a frame of exactly the announced length with CRC zero. */
  predicate RegularReply(slave: byte, fn: byte, line: Line) {
    && InTime(line, Total(fn, line)) && ByteAt(line, 0) == slave && ByteAt(line, 1) == fn
    && (Total(fn, line) <= 255 ==> Crc(Initial, Bytes(line, Total(fn, line))) == 0)
  }

  /** An exception reply whose code is zero. */
  predicate EmptyException(slave: byte, fn: byte, line: Line, stale: byte) {
    && InTime(line, 4) && ByteAt(line, 0) == slave && ByteAt(line, 1) == fn + 128 && ByteAt(line, 2) == 0
    && Crc(Initial, ExceptionFrame(line, stale)) == 0
  }

  /** Success is reported exactly for regular replies and for exceptions with code zero. */
  lemma AcceptedExactly(slave: byte, fn: byte, line: Line, stale: byte)
    ensures Result(slave, fn, line, stale) == Success
        <==> fn < 128 && (RegularReply(slave, fn, line) || EmptyException(slave, fn, line, stale))
  {
    hide Crc;
    CrcHoldsIffZero(ExceptionFrame(line, stale));
    CrcHoldsIffZero(Bytes(line, Total(fn, line)));
    if RegularReply(slave, fn, line) { assert InTime(line, 4); }
  }

  /** A line that delivers the bytes in time, and zeros after them. */
  function Sending(bytes: seq<byte>): Line {
    (i: nat) => Got(if i < |bytes| then bytes[i] else 0, ResponseTimeout)
  }

  /** A slave can report an exception with code zero, and it passes for success. */
  lemma CodeZeroAccepted(slave: byte, fn: byte, stale: byte)
    requires fn < 128
    ensures var line := Sending(Framed([slave, fn + 128, 0]));
            EmptyException(slave, fn, line, stale) && Result(slave, fn, line, stale) == Success
  {
    hide Crc;
    var body: seq<byte> := [slave, fn + 128, 0];
    var line := Sending(Framed(body));
    AppendedCrc(Initial, body, LowByte(Crc(Initial, body)), HighByte(Crc(Initial, body)));
    assert ExceptionFrame(line, stale) == Framed(body);
    AcceptedExactly(slave, fn, line, stale);
  }

  /** Two hundred and fifty-six bytes: 251 announced, all zero, and a wrong CRC. */
  function WrongCrcFrame(slave: byte, fn: byte): (frame: seq<byte>)
    ensures |frame| == 256
  {
    var body := [slave, fn, 251] + seq(251, _ => 0);
    body + [(LowByte(Crc(Initial, body)) + 1) % 256, 0]
  }

  /** Its CRC is not looked at. */
  lemma WrongCrcAccepted(slave: byte, fn: byte, stale: byte)
    requires Counted(fn)
    ensures var frame := WrongCrcFrame(slave, fn);
            !CrcHolds(frame) && Result(slave, fn, Sending(frame), stale) == Success
  {
    hide Crc;
    var frame := WrongCrcFrame(slave, fn);
    var body := [slave, fn, 251] + seq(251, _ => 0);
    assert frame[..|frame| - 2] == body;
    assert frame[0] == slave && frame[1] == fn && frame[2] == 251;
    AcceptedExactly(slave, fn, Sending(frame), stale);
  }

  /** An accepted regular reply whose CRC is looked at: byte counts up to 250, and all replies to writes. */
  predicate AcceptedReply(slave: byte, fn: byte, line: Line, stale: byte) {
    Result(slave, fn, line, stale) == Success && ByteAt(line, 1) < 128 && Total(fn, line) <= 255
  }

  /** Damage to an accepted reply that leaves its announced length alone (always so for replies to writes), as a
      burst of at most sixteen bits or as an odd number of bits, is always reported as an error. */
  lemma DamageIsReported(slave: byte, fn: byte, line: Line, damaged: Line, stale: byte, burst: nat, k: nat)
    requires AcceptedReply(slave, fn, line, stale) && Total(fn, damaged) == Total(fn, line)
    requires var n := Total(fn, line);
             || BitErrors(Bytes(line, n), Bytes(damaged, n)) % 2 == 1
             || (0 < burst < 65536 && Difference(Bytes(line, n), Bytes(damaged, n)) == Shl(burst, k))
    ensures Result(slave, fn, damaged, stale) != Success
         || (ByteAt(damaged, 1) == fn + 128 && ByteAt(damaged, 2) == 0)
  {
    hide Crc, BitErrors, Difference, Shl;
    AcceptedExactly(slave, fn, line, stale);
    AcceptedExactly(slave, fn, damaged, stale);
    var n := Total(fn, line);
    if BitErrors(Bytes(line, n), Bytes(damaged, n)) % 2 == 1 {
      OddErrorsDetected(Initial, Bytes(line, n), Bytes(damaged, n));
    } else {
      BurstDetected(Initial, Bytes(line, n), Bytes(damaged, n), burst, k);
    }
  }

  predicate Counted(fn: byte) { ReadsBits(fn) || ReadsRegisters(fn) }

  /** Replies to writes announce the same length whatever their bytes are. */
  lemma LengthIsFixed(fn: byte, line: Line, damaged: Line)
    ensures !Counted(fn) ==> Total(fn, damaged) == Total(fn, line)
    ensures Counted(fn) ==> (Total(fn, damaged) == Total(fn, line) <==> ByteAt(damaged, 2) == ByteAt(line, 2))
  {
  }

  /** `short` with another byte count, zeros after it, and a CRC. */
  function Longer(fn: byte, short: Line, count: byte, crc: word): Line
    requires Counted(fn)
  {
    (i: nat) =>
      if i == 2 then Got(count, ResponseTimeout)
      else if i < Total(fn, short) then short(i)
      else if i == 3 + count then Got(LowByte(crc), ResponseTimeout)
      else if i == 4 + count then Got(HighByte(crc), ResponseTimeout)
      else Got(0, ResponseTimeout)
  }

  /** The hypothesis on the length is needed: every accepted reply to a read is what damage to its byte count alone
      makes of some longer accepted reply, whatever the two counts are.  Counts such as
      2 and 6 differ in a single bit. */
  lemma CountDamagePasses(slave: byte, fn: byte, short: Line, stale: byte, count: byte) returns (line: Line)
    requires AcceptedReply(slave, fn, short, stale) && Counted(fn) && ByteAt(short, 2) + 2 <= count <= 250
    ensures AcceptedReply(slave, fn, line, stale) && ByteAt(line, 2) == count
    ensures forall i: nat :: i != 2 && i < Total(fn, short) ==> line(i) == short(i)
  {
    hide Crc;
    AcceptedExactly(slave, fn, short, stale);
    var body := Bytes(Longer(fn, short, count, 0), 3 + count);
    var crc := Crc(Initial, body);
    line := Longer(fn, short, count, crc);
    assert Bytes(line, 5 + count) == body + [LowByte(crc), HighByte(crc)];
    AppendedCrc(Initial, body, LowByte(crc), HighByte(crc));
    AcceptedExactly(slave, fn, line, stale);
  }

  // ---------------------------------------------------------------- replies of a slave

  function Framed(body: seq<byte>): seq<byte> { body + [LowByte(Crc(Initial, body)), HighByte(Crc(Initial, body))] }

  function WordBytes(ws: seq<word>): (b: seq<byte>)
    ensures |b| == 2 * |ws|
  {
    seq(2 * |ws|, i requires 0 <= i < 2 * |ws| => if i % 2 == 0 then HighByte(ws[i / 2]) else LowByte(ws[i / 2]))
  }

  /** Registers go over the wire with the high byte first. */
  lemma WordBytesValue(ws: seq<word>, i: nat)
    requires i < |ws|
    ensures 256 * (WordBytes(ws)[2 * i] as int) + WordBytes(ws)[2 * i + 1] == ws[i]
  {
  }

  /** The reply to a read: slave, function, byte count, data, CRC. */
  function ReadReply(slave: byte, fn: byte, data: seq<byte>): seq<byte>
    requires |data| <= 250
  {
    Framed([slave, fn, |data|] + data)
  }

  /** The line delivers the reply in time. */
  predicate Delivers(line: Line, reply: seq<byte>) { InTime(line, |reply|) && Bytes(line, |reply|) == reply }

  lemma ReplyAccepted(slave: byte, fn: byte, data: seq<byte>, line: Line, stale: byte)
    requires Counted(fn) && |data| <= 250 && Delivers(line, ReadReply(slave, fn, data))
    ensures Result(slave, fn, line, stale) == Success && ByteAt(line, 1) == fn
    ensures Total(fn, line) == |data| + 5 && ByteAt(line, 2) == |data|
    ensures forall i :: 0 <= i < |data| ==> Bytes(line, Total(fn, line))[i + 3] == data[i]
  {
    hide Crc;
    var body := [slave, fn, |data|] + data;
    var reply := ReadReply(slave, fn, data);
    AppendedCrc(Initial, body, LowByte(Crc(Initial, body)), HighByte(Crc(Initial, body)));
    assert reply[0] == slave && reply[1] == fn && reply[2] == |data|;
    assert ByteAt(line, 0) == reply[0] && ByteAt(line, 1) == reply[1] && ByteAt(line, 2) == reply[2];
    AcceptedExactly(slave, fn, line, stale);
  }

  lemma WordBack(w: word)
    ensures Word(HighByte(w), LowByte(w)) == w
  {
  }

  lemma RegisterWords(fn: byte, frame: seq<byte>, ws: seq<word>, before: seq<word>)
    requires ReadsRegisters(fn) && |ws| <= 125 && |ws| <= |before| && |frame| == 5 + 2 * |ws| && frame[2] == 2 * |ws|
    requires forall i :: 0 <= i < 2 * |ws| ==> frame[i + 3] == WordBytes(ws)[i]
    ensures Disassembled(fn, frame, before) == ws + before[|ws|..]
  {
    forall i | 0 <= i < |ws| ensures Word(frame[2 * i + 3], frame[2 * i + 4]) == ws[i] {
      assert frame[2 * i + 3] == WordBytes(ws)[2 * i] && frame[2 * i + 1 + 3] == WordBytes(ws)[2 * i + 1];
      WordBack(ws[i]);
    }
    assert forall i :: 0 <= i < |ws| ==> Disassembled(fn, frame, before)[i] == ws[i];
  }

  /** Registers a slave sends are the response words, in order; words beyond them are left as they were. */
  lemma RegistersReadBack(slave: byte, fn: byte, ws: seq<word>, line: Line, stale: byte, before: seq<word>)
    requires ReadsRegisters(fn) && |ws| <= 125 && |ws| <= |before|
    requires Delivers(line, ReadReply(slave, fn, WordBytes(ws)))
    ensures Result(slave, fn, line, stale) == Success
    ensures Disassembled(fn, Bytes(line, Total(fn, line)), before) == ws + before[|ws|..]
  {
    hide Crc, ReadReply, Delivers, Result, Disassembled, WordBytes;
    ReplyAccepted(slave, fn, WordBytes(ws), line, stale);
    var frame := Bytes(line, Total(fn, line));
    assert frame[2] == |WordBytes(ws)|;
    RegisterWords(fn, frame, ws, before);
  }

  /** Words that the reply does not reach stay, and replies to writes reach none. */
  lemma OtherWordsStay(fn: byte, frame: seq<byte>, before: seq<word>, i: nat)
    requires |frame| >= 5 && |frame| == 5 + Remaining(fn, frame[2]) && i < |before|
    requires !Counted(fn) || (frame[2] + 1) / 2 <= i
    ensures Disassembled(fn, frame, before)[i] == before[i]
  {
  }

  /** Bit `j` of a number. */
  function BitOf(w: nat, j: nat): nat { if j == 0 then w % 2 else BitOf(w / 2, j - 1) }

  lemma {:induction false} BitsOfWord(low: nat, high: nat, n: nat, j: nat)
    requires low < Pow2(n)
    ensures BitOf(Pow2(n) * high + low, j) == if j < n then BitOf(low, j) else BitOf(high, j - n)
    decreases n, j
  {
    if n > 0 {
      var w := Pow2(n) * high + low;
      Halves(high, low, Pow2(n - 1));
      if j > 0 {
        BitsOfWord(low / 2, high, n - 1, j - 1);
        assert BitOf(w, j) == BitOf(w / 2, j - 1);
      }
    }
  }

  lemma Halves(high: nat, low: nat, p: nat)
    ensures (2 * p * high + low) / 2 == p * high + low / 2 && (2 * p * high + low) % 2 == low % 2
  {
    assert 2 * p * high == 2 * (p * high);
  }

  /** Two data bytes make a word, low byte first; an odd last byte is a word of its own. */
  function Paired(data: seq<byte>, i: nat): word
    requires 2 * i < |data|
  {
    if 2 * i + 1 < |data| then Word(data[2 * i + 1], data[2 * i]) else data[2 * i]
  }

  lemma BitWord(fn: byte, frame: seq<byte>, data: seq<byte>, before: seq<word>, i: nat)
    requires ReadsBits(fn) && |frame| == 5 + |data| && frame[2] == |data| <= 250 && 2 * i < |data| && i < |before|
    requires forall j :: 0 <= j < |data| ==> frame[j + 3] == data[j]
    ensures Disassembled(fn, frame, before)[i] == Paired(data, i)
  {
    assert frame[2 * i + 3] == data[2 * i];
    if i < |data| / 2 { assert frame[2 * i + 1 + 3] == data[2 * i + 1]; }
  }

  lemma CoilOfPair(data: seq<byte>, k: nat)
    requires k < 8 * |data|
    ensures BitOf(Paired(data, k / 16), k % 16) == BitOf(data[k / 8], k % 8)
  {
    hide BitOf;
    var i := k / 16;
    SixteenBits();
    if 2 * i + 1 < |data| { BitsOfWord(data[2 * i], data[2 * i + 1], 8, k % 16); }
  }

  /** Coil `k` of the data bytes, eight to a byte from the lowest bit, is bit `k % 16` of response word `k / 16`. */
  lemma BitsReadBack(slave: byte, fn: byte, data: seq<byte>, line: Line, stale: byte, before: seq<word>, k: nat)
    requires ReadsBits(fn) && |data| <= 250 && |before| >= 125 && k < 8 * |data|
    requires Delivers(line, ReadReply(slave, fn, data))
    ensures Result(slave, fn, line, stale) == Success
    ensures var after := Disassembled(fn, Bytes(line, Total(fn, line)), before);
            BitOf(after[k / 16], k % 16) == BitOf(data[k / 8], k % 8)
  {
    hide Crc, ReadReply, Delivers, Result, Disassembled, Paired, BitOf;
    ReplyAccepted(slave, fn, data, line, stale);
    var frame := Bytes(line, Total(fn, line));
    assert frame[2] == |data|;
    BitWord(fn, frame, data, before, k / 16);
    CoilOfPair(data, k);
  }
}
