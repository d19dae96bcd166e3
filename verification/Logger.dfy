/** The meter tasks of main.cpp: the global indices, their NVRAM copies and the two record buffers. */
module Logger {
  import opened BitBytes
  import opened FlashDevice
  import opened FlashMeter
  import opened RecordLog

  function EncodeAll(readings: seq<Reading>): (recs: seq<Record>)
    ensures |recs| == |readings|
  {
    seq(|readings|, i requires 0 <= i < |readings| => Encode(readings[i]))
  }

  /** A buffer filled record by record holds the encoded readings. */
  lemma FilledBuffer(d: seq<byte>, readings: seq<Reading>)
    requires |d| == RecordBytes * |readings|
    requires forall i :: 0 <= i < |readings| ==> Chunk(d, i) == Encode(readings[i])
    ensures Chunks(d) == EncodeAll(readings)
  {
  }

  lemma SentStep(M: nat, slots: seq<Record>, r: nat, i: nat, recs: seq<Record>)
    requires M > 0 && |slots| == M && i < |recs| && recs == ReadRange(M, slots, r, |recs|)
    ensures Sent(M, slots, r, i + 1) == Sent(M, slots, r, i) + {(r + i, recs[i])}
  {
    hide Phys;
  }

  lemma ChunkOfPrefix(buff: seq<byte>, n: nat, k: nat)
    requires k < n && RecordBytes * n <= |buff|
    ensures Chunk(buff[..RecordBytes * n], k) == Chunk(buff, k)
  {
  }

  lemma SentNothing(M: nat, slots: seq<Record>, r: nat)
    requires M > 0 && |slots| == M
    ensures Sent(M, slots, r, 0) == {}
  {
  }

  lemma SentAll(M: nat, slots: seq<Record>, r: nat, n: nat)
    requires M > 0 && |slots| == M
    ensures Sent(M, slots, r, n) == set i | 0 <= i < n :: (r + i, ReadRange(M, slots, r, n)[i])
  {
    hide Phys;
    var recs := ReadRange(M, slots, r, n);
    forall x | x in Sent(M, slots, r, n) ensures x in (set i | 0 <= i < n :: (r + i, recs[i])) {
      assert x == (r + (x.0 - r), recs[x.0 - r]);
    }
  }

  lemma EncodedWord(reading: Reading, k: nat)
    requires k < 12
    ensures forall j :: 0 <= j < 4 ==> Encode(reading)[4 * k + j] == ByteOf(reading[k], j)
  {
    forall j | 0 <= j < 4 ensures Encode(reading)[4 * k + j] == ByteOf(reading[k], j) {
      assert (4 * k + j) / 4 == k && (4 * k + j) % 4 == j;
    }
  }

  lemma EncodedZero(reading: Reading, i: nat)
    requires 48 <= i < RecordBytes
    ensures Encode(reading)[i] == 0
  {
  }

  lemma EncodeAllAt(readings: seq<Reading>, i: nat)
    requires i < |readings|
    ensures |EncodeAll(readings)| == |readings| && EncodeAll(readings)[i] == Encode(readings[i])
  {
  }

  class MeterLogger {
    const meter: SPIFlashMeter
    const wBuff: array<byte>
    const rBuff: array<byte>
    var wIndex: nat
    var rIndex: nat
    var fErrorCnt: nat
    // RTC NVRAM, kept across restarts
    var nvMarker: byte
    var nvWIndex: nat
    var nvRIndex: nat
    // history since the last index reset
    ghost var logged: map<nat, Record>
    ghost var accepted: set<(nat, Record)>
    ghost var frontier: nat

    ghost predicate Valid()
      reads this, meter
    {
      && meter.Valid() && nvMarker == 0x55
      && wBuff.Length == rBuff.Length == RecordBytes * MaxMeter
      && wBuff != rBuff && wBuff != meter.flash.cells && rBuff != meter.flash.cells
    }

    ghost function View(): State
      requires meter.Valid()
      reads this, meter, meter.flash.cells
    {
      State(meter.Contents(), wIndex, rIndex, fErrorCnt, nvMarker == 0x55, nvWIndex, nvRIndex,
            logged, accepted, frontier)
    }

    constructor (flashMeter: SPIFlashMeter)
      ensures meter == flashMeter && fresh(wBuff) && fresh(rBuff) && wBuff != rBuff
      ensures wBuff.Length == rBuff.Length == RecordBytes * MaxMeter && nvMarker == 0
    {
      meter := flashMeter;
      wBuff, rBuff := new byte[RecordBytes * MaxMeter], new byte[RecordBytes * MaxMeter];
      wIndex, rIndex, fErrorCnt := 0, 0, 0;
      nvMarker, nvWIndex, nvRIndex := 0, 0, 0;
      logged, accepted, frontier := map[], {}, 0;
    }

    /** setup(): RAM starts at zero; marked NVRAM gives the indices back, unmarked NVRAM is marked and takes them.
        A power cut after the marker is followed by another setup(). */
    method Setup(cut: BootCut)
      requires meter.Valid()
      modifies this
      ensures View() == AfterBoot(old(View()), cut)
      decreases if nvMarker == 0x55 then 0 else 1
    {
      hide FlashMeter.Slots;
      wIndex, rIndex, fErrorCnt := 0, 0, 0;
      if nvMarker != 0x55 {
        if cut.BeforeMarker? { return; }
        nvMarker := 0x55;
        logged, accepted, frontier := map[], {}, 0;
        if cut.AfterMarker? { Setup(Completed); return; }
        nvWIndex := wIndex;
        if cut.BetweenIndices? { Setup(Completed); return; }
        nvRIndex := rIndex;
      } else {
        wIndex := nvWIndex;
        rIndex := nvRIndex;
      }
    }

    /** One meter's reading into `wBuff`: twelve words, low byte first, then zeros to the end of the record. */
    method FillRecord(at: nat, reading: Reading)
      requires at % RecordBytes == 0 && at + RecordBytes <= wBuff.Length
      modifies wBuff
      ensures wBuff[at..at + RecordBytes] == Encode(reading)
      ensures forall j :: 0 <= j < wBuff.Length && !(at <= j < at + RecordBytes) ==> wBuff[j] == old(wBuff[j])
    {
      hide Encode, ByteOf;
      ghost var rec := Encode(reading);
      var index := at;
      for k := 0 to 12
        invariant index == at + 4 * k
        invariant forall j :: at <= j < index ==> wBuff[j] == rec[j - at]
        invariant forall j :: 0 <= j < wBuff.Length && !(at <= j < at + RecordBytes) ==> wBuff[j] == old(wBuff[j])
      {
        EncodedWord(reading, k);
        wBuff[index], wBuff[index + 1] := ByteOf(reading[k], 0), ByteOf(reading[k], 1);
        wBuff[index + 2], wBuff[index + 3] := ByteOf(reading[k], 2), ByteOf(reading[k], 3);
        index := index + 4;
      }
      FillZeros(at, index, reading);
    }

    /** The loop that pads the record, up to the next multiple of 64. */
    method FillZeros(ghost at: nat, start: nat, ghost reading: Reading)
      requires at % RecordBytes == 0 && at + RecordBytes <= wBuff.Length && start == at + 48
      requires forall j :: at <= j < start ==> wBuff[j] == Encode(reading)[j - at]
      modifies wBuff
      ensures wBuff[at..at + RecordBytes] == Encode(reading)
      ensures forall j :: 0 <= j < wBuff.Length && !(at <= j < at + RecordBytes) ==> wBuff[j] == old(wBuff[j])
    {
      hide Encode;
      ghost var rec := Encode(reading);
      var index := start;
      while index % RecordBytes > 0
        invariant at + 48 <= index <= at + RecordBytes
        invariant forall j :: at <= j < index ==> wBuff[j] == rec[j - at]
        invariant forall j :: 0 <= j < wBuff.Length && !(at <= j < at + RecordBytes) ==> wBuff[j] == old(wBuff[j])
        decreases at + RecordBytes - index
      {
        EncodedZero(reading, index - at);
        wBuff[index] := 0;
        index := index + 1;
      }
    }

    /** The records of all meters, one after the other. */
    method FillBuffer(readings: seq<Reading>)
      requires |readings| <= MaxMeter && wBuff.Length == RecordBytes * MaxMeter
      modifies wBuff
      ensures Chunks(wBuff[..RecordBytes * |readings|]) == EncodeAll(readings)
    {
      hide Encode, EncodeAll;
      for i := 0 to |readings|
        invariant forall k :: 0 <= k < i ==> Chunk(wBuff[..], k) == Encode(readings[k])
      {
        ghost var filled := wBuff[..];
        FillRecord(RecordBytes * i, readings[i]);
        forall k | 0 <= k <= i ensures Chunk(wBuff[..], k) == Encode(readings[k]) {
          if k < i { assert Chunk(wBuff[..], k) == Chunk(filled, k); }
        }
      }
      var d := wBuff[..RecordBytes * |readings|];
      forall k | 0 <= k < |readings| ensures Chunk(d, k) == Encode(readings[k]) {
        ChunkOfPrefix(wBuff[..], |readings|, k);
      }
      FilledBuffer(d, readings);
    }

    /** The index bookkeeping once the flash has answered: advance, or count the error and perhaps skip a sector. */
    method StoreIndices(ghost recs: seq<Record>, n: nat, ok: bool, cut: Cut)
      requires Valid() && n == |recs|
      modifies this
      ensures Valid()
      ensures View() == AfterWrite(old(View()), recs, ok, cut)
    {
      hide FlashMeter.Slots, LoggedBatch;
      if ok {
        if cut.BeforeStore? { Setup(Completed); return; }
        logged := logged + LoggedBatch(wIndex, recs);
        fErrorCnt := 0;
        wIndex := wIndex + n;
        nvWIndex := wIndex;
      } else {
        fErrorCnt := (fErrorCnt + 1) % 256;
        if fErrorCnt >= FlashErrorMax && wIndex == rIndex {
          if cut.BeforeStore? { Setup(Completed); return; }
          fErrorCnt := 0;
          wIndex := (wIndex / 64 + 1) * 64;
          rIndex := wIndex;
          nvRIndex := rIndex;
          if cut.BetweenStores? { Setup(Completed); return; }
          nvWIndex := wIndex;
          frontier := Max(frontier, wIndex);
        } else if cut.BeforeStore? {
          Setup(Completed);
        }
      }
    }

    /** meterToFlash(): encode, write, then account for the outcome. */
    method MeterToFlash(readings: seq<Reading>, faults: Faults, cut: Cut) returns (ok: bool)
      requires Valid() && |readings| <= MaxMeter
      modifies this, wBuff, meter.flash.cells
      ensures Valid()
      ensures LogStep(meter.maxRecord, old(View()), EncodeAll(readings), faults.Healthy(), ok, cut, View())
    {
      var n := |readings|;
      FillBuffer(readings);
      ok := meter.WriteMeterData(wIndex, wBuff[..RecordBytes * n], faults);
      frontier := Max(frontier, Boundary(wIndex + n));
      StoreIndices(EncodeAll(readings), n, ok, cut);
    }

    /** The loop over the records read, one request each, until one is refused. */
    method PostEach(ghost records: seq<Record>, num: nat, replies: nat -> bool) returns (done: bool)
      requires Valid() && |records| == num && records == ReadRange(meter.maxRecord, meter.Contents(), rIndex, num)
      modifies `accepted
      ensures var c := AcceptedCount(replies, 0, num);
              && (done <==> c == num)
              && accepted == old(accepted) + Sent(meter.maxRecord, meter.Contents(), rIndex, c)
    {
      hide Sent, ReadRange;
      ghost var slots := meter.Contents();
      SentNothing(meter.maxRecord, slots, rIndex);
      for i := 0 to num
        invariant accepted == old(accepted) + Sent(meter.maxRecord, slots, rIndex, i)
        invariant AcceptedCount(replies, 0, num) == AcceptedCount(replies, i, num)
      {
        if !replies(i) { return false; }
        SentStep(meter.maxRecord, slots, rIndex, i, records);
        accepted := accepted + {(rIndex + i, records[i])};
      }
      return true;
    }

    /** flashMeterToPost(num): one request a record, up to the first refusal. */
    method FlashMeterToPost(num: nat, firstOk: bool, secondOk: bool, replies: nat -> bool, cut: Cut)
      returns (readOk: bool)
      requires Valid() && num <= MaxMeter
      modifies this, rBuff
      ensures Valid()
      ensures View() == if readOk then Posted(meter.maxRecord, old(View()), num, AcceptedCount(replies, 0, num), cut)
              else old(View())
      ensures readOk && cut.NoCut? && (forall i :: 0 <= i < num ==> replies(i)) ==>
                rIndex == nvRIndex == old(rIndex) + num
      ensures !readOk || (exists i :: 0 <= i < num && !replies(i)) ==>
                rIndex == old(rIndex) && nvRIndex == old(nvRIndex)
      ensures firstOk && secondOk ==> readOk
    {
      hide Chunks, Sent, Slots, ReadRange;
      readOk := meter.ReadMeterData(rIndex, rBuff, num, firstOk, secondOk);
      if !readOk { return; }
      var done := PostEach(Chunks(rBuff[..RecordBytes * num]), num, replies);
      if !done { return; }
      if cut.BeforeStore? { Setup(Completed); return; }
      rIndex := rIndex + num;
      nvRIndex := rIndex;
    }

    /** flashMeterToBatchPost(num): all records in one request. */
    method FlashMeterToBatchPost(num: nat, firstOk: bool, secondOk: bool, reply: bool, cut: Cut) returns (readOk: bool)
      requires Valid() && 0 < num <= MaxMeter
      modifies this, rBuff
      ensures Valid()
      ensures View() == if readOk then Posted(meter.maxRecord, old(View()), num, if reply then num else 0, cut)
              else old(View())
      ensures readOk && cut.NoCut? && reply ==> rIndex == nvRIndex == old(rIndex) + num
      ensures !readOk || !reply ==> rIndex == old(rIndex) && nvRIndex == old(nvRIndex)
      ensures firstOk && secondOk ==> readOk
    {
      hide Sent, ReadRange, Slots;
      readOk := meter.ReadMeterData(rIndex, rBuff, num, firstOk, secondOk);
      if !readOk { return; }
      if !reply {
        SentNothing(meter.maxRecord, meter.Contents(), rIndex);
        return;
      }
      ghost var records := Chunks(rBuff[..RecordBytes * num]);
      SentAll(meter.maxRecord, meter.Contents(), rIndex, num);
      accepted := accepted + set i | 0 <= i < num :: (rIndex + i, records[i]);
      if cut.BeforeStore? { Setup(Completed); return; }
      rIndex := rIndex + num;
      nvRIndex := rIndex;
    }

    /** ReadFlashMeterToPost_Task(), with the network up: the configured batch size 0 means single posts.
        A larger batch than the read buffer holds is fine as long as no more records are waiting. */
    method PostTask(batch: nat, firstOk: bool, secondOk: bool, replies: nat -> bool, cut: Cut) returns (readOk: bool)
      requires Valid() && (batch <= MaxMeter || wIndex <= rIndex + MaxMeter)
      modifies this, rBuff
      ensures Valid()
      ensures View() == AfterPost(meter.maxRecord, old(View()),
                                  if batch == 0 then 6 else batch, batch == 0, readOk, replies, cut)
      ensures readOk && cut.NoCut? && (forall i :: replies(i)) && old(rIndex) < old(wIndex) ==>
                rIndex == nvRIndex == old(rIndex) + Min(old(wIndex) - old(rIndex), if batch == 0 then 6 else batch)
      ensures firstOk && secondOk ==> readOk
    {
      hide Posted;
      readOk := true;
      if rIndex < wIndex {
        var numPost := wIndex - rIndex;
        if batch == 0 {
          if numPost > MaxPost { numPost := MaxPost; }
          readOk := FlashMeterToPost(numPost, firstOk, secondOk, replies, cut);
        } else {
          if numPost > batch { numPost := batch; }
          readOk := FlashMeterToBatchPost(numPost, firstOk, secondOk, replies(0), cut);
        }
      }
    }

    /** The server's index reset: both indices to zero, stored one after the other, then a restart. */
    method ServerReset(cut: Cut)
      requires Valid()
      modifies this
      ensures Valid()
      ensures View() == AfterReset(old(View()), cut)
    {
      wIndex, rIndex := 0, 0;
      if cut.BeforeStore? { Setup(Completed); return; }
      nvWIndex := wIndex;
      logged, accepted, frontier := map[], {}, 0;
      if cut.BetweenStores? { Setup(Completed); return; }
      nvRIndex := rIndex;
      Setup(Completed);
    }
  }
}
