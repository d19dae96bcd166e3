/** ModbusMeter: one request, the receive loop with its 8-bit counters, the CRC check and the response words. */
module Modbus {
  import opened IntBytes
  import opened Crc16
  import opened ModbusSpec

  const MaxBufferSize := 128   // ku8MaxBufferSize

  /** The CRC loop over the first `n` bytes of the buffer. */
  method CrcOf(adu: array<byte>, n: nat) returns (crc: word)
    requires n <= adu.Length
    ensures crc == Crc(Initial, adu[..n])
  {
    hide Update;
    crc := Initial;
    assert adu[..n][0..] == adu[..n];
    for i := 0 to n
      invariant Crc(crc, adu[..n][i..]) == Crc(Initial, adu[..n])
    {
      assert adu[..n][i..][0] == adu[i] && adu[..n][i..][1..] == adu[..n][i + 1..];
      crc := Crc16Update(crc, adu[i]);
    }
    assert adu[..n][n..] == [];
  }

  /** The state of the receive loop after `k` bytes, all on time, with `left` still to come. */
  ghost predicate Receiving(slave: byte, fn: byte, line: Line, k: nat, size: nat, left: nat, adu: seq<byte>,
                            stale: byte) {
    && |adu| == 256 && InTime(line, k) && k <= 260 && size == k % 256
    && (k <= 255 ==> adu[..k] == Bytes(line, k))
    && if k < 5 then left == 8 - k && adu[4] == stale
       else ByteAt(line, 0) == slave && ByteAt(line, 1) == fn < 128 && k + left == Total(fn, line)
  }

  lemma NothingReceived(slave: byte, fn: byte, line: Line, adu: seq<byte>)
    requires |adu| == 256
    ensures Receiving(slave, fn, line, 0, 0, 8, adu, adu[4])
  {
  }

  lemma ByteReceived(slave: byte, fn: byte, line: Line, k: nat, size: nat, left: nat, adu: seq<byte>, stale: byte)
    requires Receiving(slave, fn, line, k, size, left, adu, stale) && left > 0 && OnTime(line(k)) && k != 4
    ensures k < 260 && Receiving(slave, fn, line, k + 1, (size + 1) % 256, left - 1, adu[size := line(k).b], stale)
  {
    StoredBytes(line, k, adu, size);
    hide Bytes;
  }

  /** Storing byte `k` extends the bytes in the buffer, as long as the counter has not wrapped. */
  lemma StoredBytes(line: Line, k: nat, adu: seq<byte>, size: nat)
    requires |adu| == 256 && size == k % 256 && OnTime(line(k))
    requires k <= 254 ==> adu[..k] == Bytes(line, k)
    ensures k <= 254 ==> adu[size := line(k).b][..k + 1] == Bytes(line, k + 1)
  {
  }

  lemma LateByte(line: Line, k: nat, n: nat)
    requires k < n && !OnTime(line(k))
    ensures !InTime(line, n)
  {
  }

  lemma TooLate(slave: byte, fn: byte, line: Line, k: nat, size: nat, left: nat, adu: seq<byte>, stale: byte)
    requires Receiving(slave, fn, line, k, size, left, adu, stale) && left > 0 && !OnTime(line(k)) && k != 4
    ensures ReceiveStatus(slave, fn, line) == ResponseTimedOut
  {
    hide Bytes;
    if k < 4 {
      LateByte(line, k, 4);
    } else {
      assert InTime(line, 4);
      LateByte(line, k, Total(fn, line));
    }
  }

  /** What the fifth attempt leaves in the buffer. */
  function FifthStored(line: Line, adu: seq<byte>): seq<byte>
    requires |adu| == 256
  {
    if line(4).Got? then adu[4 := line(4).b] else adu
  }

  lemma FifthByte(slave: byte, fn: byte, line: Line, left: nat, adu: seq<byte>, stale: byte)
    requires Receiving(slave, fn, line, 4, 4, left, adu, stale)
    ensures var now := FifthStored(line, adu);
            && now[0] == ByteAt(line, 0) && now[1] == ByteAt(line, 1) && now[2] == ByteAt(line, 2)
            && now[..5] == ExceptionFrame(line, stale) && InTime(line, 4)
  {
    assert adu[..4][0] == adu[0] && adu[..4][1] == adu[1] && adu[..4][2] == adu[2];
  }

  lemma HeaderPassed(slave: byte, fn: byte, line: Line, left: nat, adu: seq<byte>, stale: byte)
    requires Receiving(slave, fn, line, 4, 4, left, adu, stale) && OnTime(line(4))
    requires ByteAt(line, 0) == slave && ByteAt(line, 1) == fn < 128
    ensures Receiving(slave, fn, line, 5, 5, Remaining(fn, ByteAt(line, 2)), FifthStored(line, adu), stale)
  {
    StoredBytes(line, 4, adu, 4);
  }

  /** The checks and the switch at the fifth byte. */
  method CheckHeader(slave: byte, fn: byte, adu: array<byte>, left: nat)
    returns (status: byte, done: bool, newLeft: nat)
    requires adu.Length == 256
    ensures done <==> adu[0] != slave || adu[1] % 128 != fn || adu[1] >= 128
    ensures done ==> status == if adu[0] != slave then InvalidSlaveID
                               else if adu[1] % 128 != fn then InvalidFunction else adu[2]
    ensures !done ==> status == Success && newLeft == LeftAfterHeader(adu[1], adu[2], left)
  {
    newLeft := left;
    if adu[0] != slave { return InvalidSlaveID, true, newLeft; }
    if adu[1] % 128 != fn { return InvalidFunction, true, newLeft; }
    if adu[1] >= 128 { return adu[2], true, newLeft; }
    if ReadsBits(adu[1]) || ReadsRegisters(adu[1]) {
      newLeft := adu[2];
    } else if Writes(adu[1]) {
      newLeft := 3;
    } else if adu[1] == 0x16 {
      newLeft := 5;
    }
    return Success, false, newLeft;
  }

  /** One turn of the receive loop: store into the next cell and advance the counter, byte or no byte;
      at five, check the header; then look at the clock. */
  method ReceiveTurn(slave: byte, fn: byte, adu: array<byte>, line: Line, k: nat, size0: nat, left0: nat,
                     ghost stale: byte)
    returns (status: byte, stop: bool, size: nat, left: nat)
    requires adu.Length == 256 && Receiving(slave, fn, line, k, size0, left0, adu[..], stale) && left0 > 0
    modifies adu
    ensures size == (size0 + 1) % 256
    ensures stop ==> status == ReceiveStatus(slave, fn, line)
    ensures stop && status == Success ==> size == 5 && ByteAt(line, 1) >= 128 && adu[..5] == ExceptionFrame(line, stale)
    ensures !stop && status != Success ==> status == ReceiveStatus(slave, fn, line)
    ensures !stop && status == Success ==>
              && Receiving(slave, fn, line, k + 1, size, left, adu[..], stale)
              && (k >= 5 ==> left < left0)
  {
    hide Bytes, ExceptionFrame;
    ghost var before := adu[..];
    left := left0;
    var attempt := line(k);
    if attempt.Got? {
      adu[size0] := attempt.b;
      left := left - 1;
    }
    size := (size0 + 1) % 256;
    status, stop := Success, false;
    if k == 4 {
      assert adu[..] == FifthStored(line, before);
      FifthByte(slave, fn, line, left0, before, stale);
    } else {
      if OnTime(attempt) {
        ByteReceived(slave, fn, line, k, size0, left0, before, stale);
        assert adu[..] == before[size0 := attempt.b];
      } else {
        TooLate(slave, fn, line, k, size0, left0, before, stale);
      }
    }
    if size == 5 {
      status, stop, left := CheckHeader(slave, fn, adu, left);
      if stop { return; }
      if OnTime(attempt) {
        HeaderPassed(slave, fn, line, left0, before, stale);
      } else {
        LateByte(line, 4, Total(fn, line));
      }
    }
    if !OnTime(attempt) { status := ResponseTimedOut; }
  }

  /** The receive loop. */
  method Receive(slave: byte, fn: byte, adu: array<byte>, line: Line) returns (status: byte, size: nat)
    requires adu.Length == 256
    modifies adu
    ensures status == ReceiveStatus(slave, fn, line)
    ensures status == Success && ByteAt(line, 1) >= 128 ==> size == 5 && adu[..5] == ExceptionFrame(line, old(adu[4]))
    ensures status == Success && ByteAt(line, 1) < 128 ==> size == Total(fn, line) % 256
    ensures status == Success && ByteAt(line, 1) < 128 && Total(fn, line) <= 255 ==> adu[..size] == Bytes(line, size)
  {
    var left, k, stop := 8, 0, false;
    status, size := Success, 0;
    ghost var stale := adu[4];
    NothingReceived(slave, fn, line, adu[..]);
    while left > 0 && status == Success
      invariant status == Success ==> Receiving(slave, fn, line, k, size, left, adu[..], stale)
      invariant status != Success ==> status == ReceiveStatus(slave, fn, line)
      decreases if status == Success then 1 else 0, if k < 5 then 5 - k else 0, left
    {
      status, stop, size, left := ReceiveTurn(slave, fn, adu, line, k, size, left, stale);
      if stop { return; }
      k := k + 1;
    }
    if status == Success { assert InTime(line, 4) && InTime(line, Total(fn, line)); }
  }

  /** The CRC check: made only if the counter stands at five or more. */
  method VerifyCrc(adu: array<byte>, size: nat) returns (status: byte)
    requires adu.Length == 256 && size < 256
    ensures status == if size < 5 || CrcHolds(adu[..size]) then Success else InvalidCRC
  {
    hide Crc16.Crc;
    status := Success;
    if size >= 5 {
      var crc := CrcOf(adu, size - 2);
      assert adu[..size][..size - 2] == adu[..size - 2];
      if LowByte(crc) != adu[size - 2] || HighByte(crc) != adu[size - 1] { status := InvalidCRC; }
    }
  }

  /** Builds the request in the buffer; its eight bytes are then written to the wire. */
  method BuildRequest(slave: byte, fn: byte, start: word, qty: word, adu: array<byte>)
    requires adu.Length == 256
    modifies adu
    ensures adu[..8] == Request(slave, fn, start, qty)
  {
    adu[0], adu[1] := slave, fn;
    adu[2], adu[3] := HighByte(start), LowByte(start);
    adu[4], adu[5] := HighByte(qty), LowByte(qty);
    assert adu[..6] == [slave, fn, HighByte(start), LowByte(start), HighByte(qty), LowByte(qty)];
    var crc := CrcOf(adu, 6);
    adu[6], adu[7], adu[8] := LowByte(crc), HighByte(crc), 0;
  }

  /** masterTransaction up to the response words: request, reply, CRC. */
  method SendAndReceive(slave: byte, fn: byte, start: word, qty: word, line: Line)
    returns (status: byte, adu: array<byte>, sent: seq<byte>)
    ensures fresh(adu) && adu.Length == 256
    ensures sent == Request(slave, fn, start, qty) && Asks(sent, slave, fn, start, qty)
    ensures status == Result(slave, fn, line, HighByte(qty))
    ensures status == Success && ByteAt(line, 1) >= 128 ==> adu[1] >= 128
    ensures status == Success && ByteAt(line, 1) < 128 && Total(fn, line) <= 255 ==>
              adu[..Total(fn, line)] == Bytes(line, Total(fn, line))
  {
    hide Crc16.Crc, Asks;
    adu := new byte[256];
    BuildRequest(slave, fn, start, qty, adu);
    sent := adu[..8];
    assert Asks(sent, slave, fn, start, qty) by { RequestAsks(slave, fn, start, qty); }
    assert adu[4] == sent[4] == HighByte(qty);
    var size;
    status, size := Receive(slave, fn, adu, line);
    if status == Success {
      status := VerifyCrc(adu, size);
      if ByteAt(line, 1) >= 128 { assert adu[..5][1] == adu[1]; }
    }
  }

  /** Response word `i`, read off the buffer. */
  lemma WordOfFrame(fn: byte, adu: seq<byte>, before: seq<word>, i: nat)
    requires |adu| == 256 && |before| == MaxBufferSize && ((ReadsBits(fn) || ReadsRegisters(fn)) ==> adu[2] <= 250)
    ensures i < MaxBufferSize ==>
              Disassembled(fn, adu[..5 + Remaining(fn, adu[2])], before)[i]
              == if ReadsRegisters(fn) && i < adu[2] / 2 then Word(adu[2 * i + 3], adu[2 * i + 4])
                 else if ReadsBits(fn) && i < adu[2] / 2 then Word(adu[2 * i + 4], adu[2 * i + 3])
                 else if ReadsBits(fn) && adu[2] % 2 == 1 && i == adu[2] / 2 then adu[2 * i + 3]
                 else before[i]
  {
  }

  class ModbusMeter {
    const responseBuffer: array<word>

    ghost predicate Valid() { responseBuffer.Length == MaxBufferSize }

    constructor ()
      ensures Valid() && fresh(responseBuffer)
    {
      responseBuffer := new word[MaxBufferSize];
    }

    /** getResponseBuffer */
    function GetResponseBuffer(index: byte): (w: word)
      requires Valid()
      reads responseBuffer
      ensures index >= MaxBufferSize ==> w == 0xFFFF
    {
      if index < MaxBufferSize then responseBuffer[index] else 0xFFFF
    }

    /** After a transaction that brought the registers `ws`, the getter gives them, what was there before behind
        them, and 0xFFFF outside the buffer. */
    lemma ResponseWord(slave: byte, fn: byte, ws: seq<word>, line: Line, stale: byte, before: seq<word>, index: byte)
      requires Valid() && |before| == MaxBufferSize && ReadsRegisters(fn) && |ws| <= 125
      requires Delivers(line, ReadReply(slave, fn, WordBytes(ws)))
      // as MasterTransaction leaves it
      requires responseBuffer[..] == Disassembled(fn, Bytes(line, Total(fn, line)), before)
      ensures Result(slave, fn, line, stale) == Success
      ensures GetResponseBuffer(index)
           == if index < |ws| then ws[index] else if index < MaxBufferSize then before[index] else 0xFFFF
    {
      hide Delivers, ReadReply, Result, Disassembled;
      RegistersReadBack(slave, fn, ws, line, stale, before);
      if index < MaxBufferSize { assert responseBuffer[index] == responseBuffer[..][index]; }
    }

    /** The switch that turns the accepted frame into response words. */
    method Disassemble(fn: byte, adu: array<byte>)
      requires Valid() && adu.Length == 256
      requires (ReadsBits(fn) || ReadsRegisters(fn)) ==> adu[2] <= 250
      modifies responseBuffer
      ensures responseBuffer[..] == Disassembled(fn, adu[..5 + Remaining(fn, adu[2])], old(responseBuffer[..]))
    {
      hide Disassembled;
      ghost var before := responseBuffer[..];
      ghost var after := Disassembled(fn, adu[..5 + Remaining(fn, adu[2])], before);
      var i := 0;
      if ReadsBits(fn) {
        while i < adu[2] / 2
          invariant i <= adu[2] / 2
          invariant forall j :: 0 <= j < MaxBufferSize ==> responseBuffer[j] == if j < i then after[j] else before[j]
        {
          WordOfFrame(fn, adu[..], before, i);
          if i < MaxBufferSize { responseBuffer[i] := Word(adu[2 * i + 4], adu[2 * i + 3]); }
          i := i + 1;
        }
        if adu[2] % 2 == 1 {
          WordOfFrame(fn, adu[..], before, i);
          if i < MaxBufferSize { responseBuffer[i] := adu[2 * i + 3]; }
        }
      } else if ReadsRegisters(fn) {
        while i < adu[2] / 2
          invariant i <= adu[2] / 2
          invariant forall j :: 0 <= j < MaxBufferSize ==> responseBuffer[j] == if j < i then after[j] else before[j]
        {
          WordOfFrame(fn, adu[..], before, i);
          if i < MaxBufferSize { responseBuffer[i] := Word(adu[2 * i + 3], adu[2 * i + 4]); }
          i := i + 1;
        }
      }
      ghost var filled := if ReadsBits(fn) && adu[2] % 2 == 1 then i + 1 else i;
      forall j | filled <= j < MaxBufferSize ensures after[j] == before[j] { WordOfFrame(fn, adu[..], before, j); }
      assert responseBuffer[..] == after;
    }

    /** masterTransaction, for replies whose byte count the standard allows. */
    method MasterTransaction(slave: byte, start: word, qty: word, fn: byte, line: Line)
      returns (status: byte, sent: seq<byte>)
      requires Valid() && ((ReadsBits(fn) || ReadsRegisters(fn)) ==> ByteAt(line, 2) <= 250)
      modifies responseBuffer
      ensures sent == Request(slave, fn, start, qty) && Asks(sent, slave, fn, start, qty)
      ensures status == Result(slave, fn, line, HighByte(qty))
      ensures responseBuffer[..] == if status == Success && ByteAt(line, 1) < 128
                                    then Disassembled(fn, Bytes(line, Total(fn, line)), old(responseBuffer[..]))
                                    else old(responseBuffer[..])
    {
      hide Disassembled, Crc16.Crc, Request, Asks;
      var adu;
      status, adu, sent := SendAndReceive(slave, fn, start, qty, line);
      if status == Success {
        if adu[1] < 128 {
          ghost var n := Total(fn, line);
          assert adu[..n][1] == adu[1] && adu[..n][2] == adu[2] && adu[1] == fn;
          Disassemble(adu[1], adu);
        }
      }
    }
  }
}
