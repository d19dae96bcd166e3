/** SPIFlashMeter: records at logical indices, laid out over the flash behind an 8192-byte reserve. */
module FlashMeter {
  import opened BitBytes
  import opened FlashDevice
  import opened LogSafety
  import opened RecordLog
  import opened Splicing

  const ReserveBytes := 8192

  /** The record in slot `p` of the flash contents. */
  function Slot(mem: seq<byte>, p: nat): Record
    requires ReserveBytes + RecordBytes * p + RecordBytes <= |mem|
  {
    mem[ReserveBytes + RecordBytes * p..ReserveBytes + RecordBytes * p + RecordBytes]
  }

  function Slots(mem: seq<byte>, M: nat): (s: seq<Record>)
    requires ReserveBytes + RecordBytes * M <= |mem|
    ensures |s| == M
  {
    seq(M, p requires 0 <= p < M => Slot(mem, p))
  }

  /** Record `i` of a buffer of whole records. */
  function Chunk(d: seq<byte>, i: nat): Record
    requires RecordBytes * i + RecordBytes <= |d|
  {
    d[RecordBytes * i..RecordBytes * i + RecordBytes]
  }

  function Chunks(d: seq<byte>): (recs: seq<Record>)
    requires |d| % RecordBytes == 0
    ensures |recs| == |d| / RecordBytes
  {
    seq(|d| / RecordBytes, i requires 0 <= i < |d| / RecordBytes => Chunk(d, i))
  }

  /** Replacing whole records replaces exactly those slots. */
  lemma SpliceSlot(mem: seq<byte>, q: nat, d: seq<byte>, p: nat)
    requires |d| % RecordBytes == 0
    requires ReserveBytes + RecordBytes * q + |d| <= |mem| && ReserveBytes + RecordBytes * p + RecordBytes <= |mem|
    ensures Slot(Splice(mem, ReserveBytes + RecordBytes * q, d), p)
         == if q <= p < q + |d| / RecordBytes then Chunk(d, p - q) else Slot(mem, p)
  {
    SpliceElements(mem, ReserveBytes + RecordBytes * q, d);
  }

  lemma ChunkOfSlots(mem: seq<byte>, q: nat, n: nat, i: nat)
    requires i < n && ReserveBytes + RecordBytes * q + RecordBytes * n <= |mem|
    ensures var at := ReserveBytes + RecordBytes * q; Chunk(mem[at..at + RecordBytes * n], i) == Slot(mem, q + i)
  {
    var at := ReserveBytes + RecordBytes * q;
    var range := mem[at..at + RecordBytes * n];
    forall j | 0 <= j < RecordBytes ensures Chunk(range, i)[j] == Slot(mem, q + i)[j] {
      assert Chunk(range, i)[j] == range[RecordBytes * i + j] == mem[at + RecordBytes * i + j];
    }
  }

  /** A range reads back as `d` exactly when every slot in it holds its record of `d`. */
  lemma ReadBackSlots(mem: seq<byte>, q: nat, d: seq<byte>)
    requires |d| % RecordBytes == 0 && ReserveBytes + RecordBytes * q + |d| <= |mem|
    ensures var at := ReserveBytes + RecordBytes * q;
            mem[at..at + |d|] == d <==> forall p :: q <= p < q + |d| / RecordBytes ==> Slot(mem, p) == Chunk(d, p - q)
  {
    var at, n := ReserveBytes + RecordBytes * q, |d| / RecordBytes;
    if forall p :: q <= p < q + n ==> Slot(mem, p) == Chunk(d, p - q) {
      forall j | 0 <= j < |d| ensures mem[at + j] == d[j] {
        var p := q + j / RecordBytes;
        var r := j % RecordBytes;
        assert Slot(mem, p)[r] == mem[at + j] && Chunk(d, p - q)[r] == d[j];
      }
    } else {
      var p :| q <= p < q + n && Slot(mem, p) != Chunk(d, p - q);
      ChunkOfSlots(mem, q, n, p - q);
    }
  }

  /** Programming the records `recs` from slot `q` on. */
  ghost predicate Programs(q: nat, recs: seq<Record>, before: seq<Record>, after: seq<Record>, healthy: bool) {
    && |before| == |after| && q + |recs| <= |after|
    && (forall p :: 0 <= p < |after| && !(q <= p < q + |recs|) ==> after[p] == before[p])
    && (healthy ==> forall p :: q <= p < q + |recs| ==> after[p] == Masked(before[p], recs[p - q]))
  }

  /** The slots from `q` on hold `recs`. */
  ghost predicate Holds(q: nat, recs: seq<Record>, s: seq<Record>) {
    q + |recs| <= |s| && forall p :: q <= p < q + |recs| ==> s[p] == recs[p - q]
  }

  /** Erasing the sectors that a batch of `n` opens. */
  ghost predicate Erases(M: nat, index: nat, n: nat, before: seq<Record>, after: seq<Record>, healthy: bool)
    requires M > 0
  {
    && |before| == |after| == M
    && (forall p :: 0 <= p < M && !Wiped(M, index, n, p) ==> after[p] == before[p])
    && (healthy ==> forall p :: 0 <= p < M && Wiped(M, index, n, p) ==> after[p] == Blank())
  }

  lemma HoldsIffReadBack(mem: seq<byte>, M: nat, q: nat, d: seq<byte>)
    requires |d| % RecordBytes == 0 && q + |d| / RecordBytes <= M && |mem| == ReserveBytes + RecordBytes * M
    ensures var at := ReserveBytes + RecordBytes * q; mem[at..at + |d|] == d <==> Holds(q, Chunks(d), Slots(mem, M))
  {
    ReadBackSlots(mem, q, d);
    if Holds(q, Chunks(d), Slots(mem, M)) {
      forall p | q <= p < q + |d| / RecordBytes ensures Slot(mem, p) == Chunk(d, p - q) {
        assert Slots(mem, M)[p] == Chunks(d)[p - q];
      }
    }
  }

  lemma MaskedChunk(cells: seq<byte>, d: seq<byte>, i: nat)
    requires |cells| == |d| && RecordBytes * i + RecordBytes <= |d|
    ensures Chunk(Programmed(cells, d, Healthy), i) == Masked(Chunk(cells, i), Chunk(d, i))
  {
    var out := Programmed(cells, d, Healthy);
    forall j | 0 <= j < RecordBytes ensures Chunk(out, i)[j] == Masked(Chunk(cells, i), Chunk(d, i))[j] {
      assert Chunk(out, i)[j] == out[RecordBytes * i + j];
    }
  }

  lemma ProgramSlot(mem: seq<byte>, q: nat, d: seq<byte>, outcome: Outcome, p: nat)
    requires |d| % RecordBytes == 0 && ReserveBytes + RecordBytes * q + |d| <= |mem|
             && ReserveBytes + RecordBytes * p + RecordBytes <= |mem|
    ensures var at := ReserveBytes + RecordBytes * q;
            var rec := Slot(Splice(mem, at, Programmed(mem[at..at + |d|], d, outcome)), p);
            if q <= p < q + |d| / RecordBytes
            then outcome.Healthy? ==> rec == Masked(Slot(mem, p), Chunk(d, p - q))
            else rec == Slot(mem, p)
  {
    var at := ReserveBytes + RecordBytes * q;
    SpliceSlot(mem, q, Programmed(mem[at..at + |d|], d, outcome), p);
    if q <= p < q + |d| / RecordBytes && outcome.Healthy? {
      ChunkOfSlots(mem, q, |d| / RecordBytes, p - q);
      MaskedChunk(mem[at..at + |d|], d, p - q);
    }
  }

  /** The write of a buffer of whole records, as the chip does it, programs its records into slots,
      leaves the reserve alone, and reads back as written exactly when the slots hold the records. */
  lemma ProgramSlots(mem: seq<byte>, mem': seq<byte>, M: nat, q: nat, d: seq<byte>, outcome: Outcome, ok: bool)
    requires |d| % RecordBytes == 0 && q + |d| / RecordBytes <= M && |mem| == ReserveBytes + RecordBytes * M
    requires Written(mem, mem', ReserveBytes + RecordBytes * q, d, outcome, ok)
    ensures Programs(q, Chunks(d), Slots(mem, M), Slots(mem', M), outcome.Healthy?)
    ensures ok <==> Holds(q, Chunks(d), Slots(mem', M))
    ensures mem'[..ReserveBytes] == mem[..ReserveBytes]
  {
    forall p | 0 <= p < M
      ensures if q <= p < q + |d| / RecordBytes
              then outcome.Healthy? ==> Slot(mem', p) == Masked(Slot(mem, p), Chunk(d, p - q))
                  else Slot(mem', p) == Slot(mem, p)
    {
      ProgramSlot(mem, q, d, outcome, p);
    }
    HoldsIffReadBack(mem', M, q, d);
  }

  /** Where the flash misbehaves during one batch: at the erase before record `i`, or at either write. */
  datatype Faults = Faults(erase: nat -> Outcome, first: Outcome, second: Outcome) {
    ghost predicate Healthy() { (forall i :: erase(i).Healthy?) && first.Healthy? && second.Healthy? }
  }

  /** The byte address of a sector boundary is the base of a sector of the chip. */
  lemma SectorAddress(M: nat, k: nat)
    requires Geometry(M) && k % SectorRecords == 0
    ensures Phys(M, k) + SectorRecords <= M
    ensures var addr := ReserveBytes + RecordBytes * Phys(M, k);
            addr / SectorBytes * SectorBytes == addr && addr + SectorBytes <= ReserveBytes + RecordBytes * M
    ensures (ReserveBytes + RecordBytes * M) % SectorBytes == 0
  {
    AlignedPhys(M, k);
  }

  lemma SameSector(P: nat, p: nat)
    requires P % SectorRecords == 0
    ensures P / SectorRecords == p / SectorRecords <==> P <= p < P + SectorRecords
  {
  }

  lemma ErasedSlot(mem: seq<byte>, P: nat, outcome: Outcome, p: nat)
    requires P % SectorRecords == 0
    requires ReserveBytes + RecordBytes * P + SectorBytes <= |mem|
             && ReserveBytes + RecordBytes * p + RecordBytes <= |mem|
    ensures var rec := Slot(Splice(mem, ReserveBytes + RecordBytes * P, ErasedSector(outcome)), p);
            if P / SectorRecords == p / SectorRecords then outcome.Healthy? ==> rec == Blank() else rec == Slot(mem, p)
  {
    SameSector(P, p);
    SpliceSlot(mem, P, ErasedSector(outcome), p);
  }

  /** The erase loop has reached record `i`, which opens a sector: erasing there wipes its 64 slots. */
  lemma EraseSlots(mem: seq<byte>, mem': seq<byte>, M: nat, index: nat, i: nat, outcome: Outcome, before: seq<Record>,
                   healthy: bool)
    requires Geometry(M) && |mem| == ReserveBytes + RecordBytes * M && i < MaxMeter && (index + i) % SectorRecords == 0
    requires Erases(M, index, i, before, Slots(mem, M), healthy) && (healthy ==> outcome.Healthy?)
    requires var base := ReserveBytes + RecordBytes * Phys(M, index + i);
             base + SectorBytes <= |mem| && mem' == Splice(mem, base, ErasedSector(outcome))
    ensures mem'[..ReserveBytes] == mem[..ReserveBytes]
    ensures Erases(M, index, i + 1, before, Slots(mem', M), healthy)
  {
    var P := Phys(M, index + i);
    AlignedPhys(M, index + i);
    FirstBoundary(index, i);
    forall p | 0 <= p < M
      ensures if P / SectorRecords == p / SectorRecords then outcome.Healthy? ==> Slot(mem', p) == Blank()
              else Slot(mem', p) == Slot(mem, p)
    {
      ErasedSlot(mem, P, outcome, p);
    }
  }

  lemma NothingErasedYet(M: nat, index: nat, before: seq<Record>, healthy: bool)
    requires M > 0 && |before| == M
    ensures Erases(M, index, 0, before, before, healthy)
  {
  }

  /** The erase loop has reached record `i`, which opens no sector. */
  lemma NothingErased(M: nat, index: nat, i: nat, before: seq<Record>, after: seq<Record>, healthy: bool)
    requires Geometry(M) && i < MaxMeter && (index + i) % SectorRecords != 0
             && Erases(M, index, i, before, after, healthy)
    ensures Erases(M, index, i + 1, before, after, healthy)
  {
    FirstBoundary(index, i);
  }

  /** Among the indices of a batch only the first boundary opens a sector. */
  lemma FirstBoundary(index: nat, i: nat)
    requires i < MaxMeter
    ensures (index + i) % SectorRecords == 0 <==> Boundary(index) == index + i
  {
  }

  /** Position in a batch that starts at slot `a` of the record that belongs in slot `p`. */
  function Position(M: nat, a: nat, p: nat): nat
    requires a < M && p < M
  {
    if p >= a then p - a else p + M - a
  }

  /** Every slot holds its record of the batch, if it has one. */
  ghost predicate BatchHolds(M: nat, a: nat, recs: seq<Record>, s: seq<Record>)
    requires a < M && |s| == M
  {
    forall p :: 0 <= p < M && Position(M, a, p) < |recs| ==> s[p] == recs[Position(M, a, p)]
  }

  lemma CutChunks(d: seq<byte>, k: nat)
    requires |d| % RecordBytes == 0 && k <= |d| / RecordBytes
    ensures Chunks(d[..RecordBytes * k]) == Chunks(d)[..k] && Chunks(d[RecordBytes * k..]) == Chunks(d)[k..]
  {
    forall i | 0 <= i < k ensures Chunks(d[..RecordBytes * k])[i] == Chunks(d)[i] {
      assert Chunk(d[..RecordBytes * k], i) == Chunk(d, i);
    }
    forall i | 0 <= i < |d| / RecordBytes - k ensures Chunks(d[RecordBytes * k..])[i] == Chunks(d)[k + i] {
      assert Chunk(d[RecordBytes * k..], i) == Chunk(d, k + i);
    }
  }

  /** The records of a batch are where `Phys` puts them exactly when every slot holds the record at its position. */
  lemma BatchPositions(M: nat, index: nat, recs: seq<Record>, s: seq<Record>)
    requires Geometry(M) && |s| == M && |recs| <= MaxMeter
    ensures (forall i :: 0 <= i < |recs| ==> s[Phys(M, index + i)] == recs[i])
       <==> BatchHolds(M, Phys(M, index), recs, s)
  {
    var a := Phys(M, index);
    if forall i :: 0 <= i < |recs| ==> s[Phys(M, index + i)] == recs[i] {
      forall p | 0 <= p < M && Position(M, a, p) < |recs| ensures s[p] == recs[Position(M, a, p)] {
        AddPhys(M, index, Position(M, a, p));
        assert s[Phys(M, index + Position(M, a, p))] == recs[Position(M, a, p)];
      }
    } else {
      var i :| 0 <= i < |recs| && s[Phys(M, index + i)] != recs[i];
      AddPhys(M, index, i);
      assert Position(M, a, Phys(M, index + i)) == i;
    }
  }

  /** The slots after erasing and programming, position by position. */
  ghost predicate BatchSlots(M: nat, a: nat, recs: seq<Record>, before: seq<Record>, after: seq<Record>, healthy: bool)
    requires a < M
  {
    && |before| == |after| == M
    && (forall p :: 0 <= p < M && Position(M, a, p) >= |recs| ==> after[p] == before[p])
    && (healthy ==> forall p :: 0 <= p < M && Position(M, a, p) < |recs| ==>
          after[p] == Masked(before[p], recs[Position(M, a, p)]))
  }

  lemma BatchFromSlots(M: nat, index: nat, recs: seq<Record>, before: seq<Record>, erased: seq<Record>,
                       after: seq<Record>, ok: bool, healthy: bool)
    requires Geometry(M) && |recs| <= MaxMeter
    requires Erases(M, index, |recs|, before, erased, healthy)
    requires BatchSlots(M, Phys(M, index), recs, erased, after, healthy)
    requires ok <==> BatchHolds(M, Phys(M, index), recs, after)
    ensures BatchWrite(M, index, recs, before, after, ok, healthy)
  {
    BatchPositions(M, index, recs, after);
    forall i | 0 <= i < |recs| && healthy
      ensures var p := Phys(M, index + i);
              after[p] == Masked(if Wiped(M, index, |recs|, p) then Blank() else before[p], recs[i])
    {
      AddPhys(M, index, i);
      assert Position(M, Phys(M, index), Phys(M, index + i)) == i;
    }
  }

  /** A batch programmed in one piece. */
  lemma OnePieceBatch(M: nat, a: nat, recs: seq<Record>, before: seq<Record>, after: seq<Record>, healthy: bool)
    requires a < M && |before| == M && |recs| <= M && Programs(a, recs, before, after, healthy)
    ensures BatchSlots(M, a, recs, before, after, healthy)
    ensures Holds(a, recs, after) <==> BatchHolds(M, a, recs, after)
  {
  }

  /** A batch programmed in two pieces around the end of the flash. */
  lemma TwoPieceBatch(M: nat, a: nat, recs: seq<Record>, head: seq<Record>, tail: seq<Record>,
                      before: seq<Record>, half: seq<Record>, after: seq<Record>, healthy: bool)
    requires a < M && |before| == M && |recs| <= M < a + |recs|
    requires head == recs[..M - a] && tail == recs[M - a..]
    requires Programs(a, head, before, half, healthy) && Programs(0, tail, half, after, healthy)
    ensures BatchSlots(M, a, recs, before, after, healthy)
    ensures Holds(a, head, half) && Holds(0, tail, after) <==> BatchHolds(M, a, recs, after)
  {
  }

  lemma AroundBatch(M: nat, a: nat, d: seq<byte>, head: seq<byte>, tail: seq<byte>,
                    mem: seq<byte>, half: seq<byte>, mem': seq<byte>, faults: Faults, ok1: bool, ok2: bool)
    requires a < M && |d| % RecordBytes == 0 && M - a < |d| / RecordBytes <= M
             && |mem| == ReserveBytes + RecordBytes * M
    requires head == d[..RecordBytes * (M - a)] && tail == d[RecordBytes * (M - a)..]
    requires Written(mem, half, ReserveBytes + RecordBytes * a, head, faults.first, ok1)
    requires Written(half, mem', ReserveBytes, tail, faults.second, ok2)
    ensures BatchSlots(M, a, Chunks(d), Slots(mem, M), Slots(mem', M), faults.Healthy())
    ensures ok1 && ok2 <==> BatchHolds(M, a, Chunks(d), Slots(mem', M))
    ensures mem'[..ReserveBytes] == mem[..ReserveBytes]
  {
    CutChunks(d, M - a);
    ProgramSlots(mem, half, M, a, head, faults.first, ok1);
    ProgramSlots(half, mem', M, 0, tail, faults.second, ok2);
    TwoPieceBatch(M, a, Chunks(d), Chunks(head), Chunks(tail), Slots(mem, M), Slots(half, M), Slots(mem', M),
        faults.Healthy());
  }

  /** The records at logical indices `index` to `index + n - 1`. */
  function ReadRange(M: nat, slots: seq<Record>, index: nat, n: nat): (recs: seq<Record>)
    requires M > 0 && |slots| == M
    ensures |recs| == n
  {
    seq(n, i requires 0 <= i < n => slots[Phys(M, index + i)])
  }

  lemma ReadOnePiece(M: nat, mem: seq<byte>, index: nat, n: nat)
    requires Geometry(M) && |mem| == ReserveBytes + RecordBytes * M && Phys(M, index) + n <= M
    ensures var at := ReserveBytes + RecordBytes * Phys(M, index);
            Chunks(mem[at..at + RecordBytes * n]) == ReadRange(M, Slots(mem, M), index, n)
  {
    var at := ReserveBytes + RecordBytes * Phys(M, index);
    var d := mem[at..at + RecordBytes * n];
    forall i | 0 <= i < n ensures Chunks(d)[i] == ReadRange(M, Slots(mem, M), index, n)[i] {
      ChunkOfSlots(mem, Phys(M, index), n, i);
      AddPhys(M, index, i);
    }
  }

  lemma ChunksAppend(head: seq<byte>, tail: seq<byte>)
    requires |head| % RecordBytes == 0 && |tail| % RecordBytes == 0
    ensures |head + tail| % RecordBytes == 0 && Chunks(head + tail) == Chunks(head) + Chunks(tail)
  {
    var d, k := head + tail, |head| / RecordBytes;
    CutChunks(d, k);
    assert d[..RecordBytes * k] == head && d[RecordBytes * k..] == tail;
  }

  /** `k` slots up to the last one and the rest from the first are a range of logical indices. */
  lemma RangeAround(M: nat, slots: seq<Record>, index: nat, n: nat, k: nat)
    requires M > 0 && |slots| == M && Phys(M, index) + k == M && k <= n <= M
    ensures slots[Phys(M, index)..] + slots[..n - k] == ReadRange(M, slots, index, n)
  {
    hide Phys;
    forall i | 0 <= i < n ensures (slots[Phys(M, index)..] + slots[..n - k])[i] == ReadRange(M, slots, index, n)[i] {
      AddPhys(M, index, i);
    }
  }

  /** A read in two pieces: `k` records up to the end of the flash, the rest from its start. */
  lemma ReadTwoPieces(M: nat, mem: seq<byte>, index: nat, n: nat, k: nat, head: seq<byte>, tail: seq<byte>)
    requires Geometry(M) && |mem| == ReserveBytes + RecordBytes * M && Phys(M, index) + k == M && k <= n <= M
    requires var at := ReserveBytes + RecordBytes * Phys(M, index); head == mem[at..at + RecordBytes * k]
    requires tail == mem[ReserveBytes..ReserveBytes + RecordBytes * (n - k)]
    ensures |head + tail| % RecordBytes == 0 && Chunks(head + tail) == ReadRange(M, Slots(mem, M), index, n)
  {
    hide Phys, Chunks, Slots, ReadRange;
    RangeOfSlots(mem, M, Phys(M, index), k, head);
    RangeOfSlots(mem, M, 0, n - k, tail);
    ChunksAppend(head, tail);
    RangeAround(M, Slots(mem, M), index, n, k);
  }

  /** What two reads one after the other leave in the buffer. */
  lemma ReadAroundBuffer(M: nat, mem: seq<byte>, index: nat, n: nat, k: nat, before: seq<byte>, after: seq<byte>)
    requires Geometry(M) && |mem| == ReserveBytes + RecordBytes * M && Phys(M, index) + k == M && k <= n <= M
    requires RecordBytes * n <= |before|
    requires var at := ReserveBytes + RecordBytes * Phys(M, index);
             after == Splice(Splice(before, 0, mem[at..at + RecordBytes * k]), RecordBytes * k,
                             mem[ReserveBytes..ReserveBytes + (RecordBytes * n - RecordBytes * k)])
    ensures |after| == |before| && Chunks(after[..RecordBytes * n]) == ReadRange(M, Slots(mem, M), index, n)
  {
    hide Phys, Slots, ReadRange, Chunks, Splicing.Splice;
    var at := ReserveBytes + RecordBytes * Phys(M, index);
    var head, tail := mem[at..at + RecordBytes * k], mem[ReserveBytes..ReserveBytes + RecordBytes * (n - k)];
    SpliceTwice(before, head, tail);
    ReadTwoPieces(M, mem, index, n, k, head, tail);
  }

  /** A range of whole records, record by record. */
  lemma RangeOfSlots(mem: seq<byte>, M: nat, q: nat, n: nat, d: seq<byte>)
    requires |mem| == ReserveBytes + RecordBytes * M && q + n <= M
    requires d == mem[ReserveBytes + RecordBytes * q..ReserveBytes + RecordBytes * q + RecordBytes * n]
    ensures |d| == RecordBytes * n && Chunks(d) == Slots(mem, M)[q..q + n]
  {
    forall i | 0 <= i < n ensures Chunks(d)[i] == Slots(mem, M)[q + i] {
      ChunkOfSlots(mem, q, n, i);
    }
  }

  /** How many records of `size` bytes fit behind the reserve. */
  function RecordsIn(capacity: nat, size: nat): nat
    requires size > 0 && capacity >= ReserveBytes
  {
    (capacity - ReserveBytes) / size
  }

  /** As many as there is room for, and no more. */
  predicate FilledWith(capacity: nat, size: nat, n: nat) {
    var end := ReserveBytes + size * n;
    end <= capacity < end + size
  }

  lemma RecordsFill(capacity: nat, size: nat)
    requires size > 0 && capacity >= ReserveBytes
    ensures FilledWith(capacity, size, RecordsIn(capacity, size))
  {
    var x := capacity - ReserveBytes;
    assert x == size * (x / size) + x % size;
  }

  /** A chip of whole sectors is filled completely by records of 64 bytes. */
  lemma SectorsOfRecords(capacity: nat)
    requires capacity % SectorBytes == 0 && capacity >= ReserveBytes + 2 * SectorBytes
    ensures var n := RecordsIn(capacity, RecordBytes); Geometry(n) && capacity == ReserveBytes + RecordBytes * n
  {
  }

  class SPIFlashMeter {
    const flash: SpiFlash
    var recordSize: nat
    var maxRecord: nat

    constructor (capacity: nat)
      ensures flash.Capacity() == capacity && fresh(flash) && fresh(flash.cells)
    {
      flash := new SpiFlash(capacity);
      recordSize, maxRecord := 0, 0;
    }

    ghost predicate Valid()
      reads this
    {
      recordSize == RecordBytes && Geometry(maxRecord) && flash.cells.Length == ReserveBytes + RecordBytes * maxRecord
    }

    function Address(slot: nat): (addr: nat)
      requires Valid()
      reads this
      ensures addr == ReserveBytes + RecordBytes * slot
    {
      slot * recordSize + ReserveBytes
    }

    function SlotIndex(index: nat): (slot: nat)
      requires Valid()
      reads this
      ensures slot == Phys(maxRecord, index) && slot < maxRecord
    {
      PhysIsRemainder(maxRecord, index);
      index % maxRecord
    }

    function RecordCount(size: nat): (n: nat)
      requires Valid()
      reads this
      ensures n == size / RecordBytes
    {
      size / recordSize
    }

    ghost function Contents(): (s: seq<Record>)
      requires Valid()
      reads this, flash.cells
    {
      Slots(flash.cells[..], maxRecord)
    }

    /** Any record size; a size of 0 would divide by zero.  The rest of the class is about the size that the
        firmware passes, on a chip of whole sectors. */
    method Begin(size: nat, present: bool) returns (ok: bool)
      requires (present ==> size > 0) && flash.cells.Length >= ReserveBytes
      modifies this
      ensures ok == present && recordSize == size
      ensures if ok then FilledWith(flash.cells.Length, size, maxRecord) else maxRecord == old(maxRecord)
      ensures ok && size == RecordBytes ==>
                (flash.cells.Length % SectorBytes == 0 && flash.cells.Length >= ReserveBytes + 2 * SectorBytes ==>
                    Valid())
    {
      hide RecordsIn, FilledWith, Geometry;
      recordSize := size;
      if !present { return false; }
      var capacity := flash.Capacity();
      maxRecord := RecordsIn(capacity, size);
      RecordsFill(capacity, size);
      if size == RecordBytes && capacity % SectorBytes == 0 && capacity >= ReserveBytes + 2 * SectorBytes {
        SectorsOfRecords(capacity);
      }
      return true;
    }

    /** The erase loop: every sector whose first record is in the batch is erased, nothing else changes. */
    method EraseOpenedSectors(index: nat, numRec: nat, erase: nat -> Outcome)
      requires Valid() && numRec <= MaxMeter
      modifies flash.cells
      ensures flash.cells[..ReserveBytes] == old(flash.cells[..ReserveBytes])
      ensures Erases(maxRecord, index, numRec, old(Contents()), Contents(), forall i :: erase(i).Healthy?)
    {
      hide Wiped, Erases, Slots, Phys, Slot, Splicing.Splice, FlashDevice.ErasedSector;
      ghost var before := Contents();
      ghost var healthy := forall i :: erase(i).Healthy?;
      NothingErasedYet(maxRecord, index, before, healthy);
      for i := 0 to numRec
        invariant flash.cells[..ReserveBytes] == old(flash.cells[..ReserveBytes])
        invariant Erases(maxRecord, index, i, before, Contents(), healthy)
      {
        if (index + i) % RecordCount(SectorBytes) == 0 {
          ghost var mem := flash.cells[..];
          SectorAddress(maxRecord, index + i);
          var addr := Address(SlotIndex(index + i));
          flash.EraseSector(addr, erase(i));
          assert flash.cells[..] == Splice(mem, addr, ErasedSector(erase(i)));
          EraseSlots(mem, flash.cells[..], maxRecord, index, i, erase(i), before, healthy);
        } else {
          NothingErased(maxRecord, index, i, before, Contents(), healthy);
        }
      }
    }

    /** The write that is cut in two at the end of the flash. */
    method ProgramAround(first: nat, buff: seq<byte>, faults: Faults) returns (ok: bool)
      requires Valid() && first < maxRecord && |buff| % RecordBytes == 0
      requires maxRecord - first < |buff| / RecordBytes <= MaxMeter
      modifies flash.cells
      ensures flash.cells[..ReserveBytes] == old(flash.cells[..ReserveBytes])
      ensures BatchSlots(maxRecord, first, Chunks(buff), old(Contents()), Contents(), faults.Healthy())
      ensures ok <==> BatchHolds(maxRecord, first, Chunks(buff), Contents())
    {
      hide BatchSlots, BatchHolds, Slots, Chunks, Written;
      var cut := Address(maxRecord - first) - ReserveBytes;
      ghost var mem := flash.cells[..];
      var head, tail := buff[..cut], buff[cut..];
      ok := flash.WriteByteArray(Address(first), head, faults.first);
      ghost var half, ok1 := flash.cells[..], ok;
      var res := flash.WriteByteArray(ReserveBytes, tail, faults.second);
      ok := ok && res;
      AroundBatch(maxRecord, first, buff, head, tail, mem, half, flash.cells[..], faults, ok1, res);
    }

    method ProgramStraight(first: nat, buff: seq<byte>, faults: Faults) returns (ok: bool)
      requires Valid() && first < maxRecord && |buff| % RecordBytes == 0 && |buff| / RecordBytes <= MaxMeter
      requires first + |buff| / RecordBytes <= maxRecord
      modifies flash.cells
      ensures flash.cells[..ReserveBytes] == old(flash.cells[..ReserveBytes])
      ensures BatchSlots(maxRecord, first, Chunks(buff), old(Contents()), Contents(), faults.Healthy())
      ensures ok <==> BatchHolds(maxRecord, first, Chunks(buff), Contents())
    {
      ghost var mem := flash.cells[..];
      ok := flash.WriteByteArray(Address(first), buff, faults.first);
      ProgramSlots(mem, flash.cells[..], maxRecord, first, buff, faults.first, ok);
      OnePieceBatch(maxRecord, first, Chunks(buff), Slots(mem, maxRecord), Slots(flash.cells[..], maxRecord),
          faults.Healthy());
    }

    /** Erases the sectors the batch opens, then programs it in one piece, or in two around the end of the flash. */
    method WriteMeterData(index: nat, buff: seq<byte>, faults: Faults) returns (ok: bool)
      requires Valid() && |buff| % RecordBytes == 0 && |buff| / RecordBytes <= MaxMeter
      modifies flash.cells
      ensures flash.cells[..ReserveBytes] == old(flash.cells[..ReserveBytes])
      ensures BatchWrite(maxRecord, index, Chunks(buff), old(Contents()), Contents(), ok, faults.Healthy())
    {
      var first, numRec := SlotIndex(index), RecordCount(|buff|);
      ghost var before := Contents();
      EraseOpenedSectors(index, numRec, faults.erase);
      ghost var erased := Contents();
      if first < maxRecord && first + numRec > maxRecord {
        ok := ProgramAround(first, buff, faults);
      } else {
        ok := ProgramStraight(first, buff, faults);
      }
      BatchFromSlots(maxRecord, index, Chunks(buff), before, erased, Contents(), ok, faults.Healthy());
    }

    /** Reads `num` records at logical index `index`, in one piece or in two around the end of the flash. */
    method ReadMeterData(index: nat, buff: array<byte>, num: nat, firstOk: bool, secondOk: bool) returns (ok: bool)
      requires Valid() && num <= MaxMeter && RecordBytes * num <= buff.Length && buff != flash.cells
      modifies buff
      ensures ok ==> Chunks(buff[..RecordBytes * num]) == ReadRange(maxRecord, Contents(), index, num)
      ensures firstOk && secondOk ==> ok
    {
      hide Slots, Chunks, ReadRange, Phys, Splicing.Splice;
      var first := SlotIndex(index);
      ghost var mem := flash.cells[..];
      if first < maxRecord && first + num > maxRecord {
        ok := ReadAround(index, first, buff, num, firstOk, secondOk);
      } else {
        SpliceOnce(buff[..], mem[Address(first)..Address(first) + RecordBytes * num]);
        ok := flash.ReadByteArray(Address(first), buff, 0, RecordBytes * num, firstOk);
        if ok {
          ReadOnePiece(maxRecord, mem, index, num);
        }
      }
    }

    /** The read that is cut in two at the end of the flash. */
    method ReadAround(ghost index: nat, first: nat, buff: array<byte>, num: nat, firstOk: bool, secondOk: bool)
      returns (ok: bool)
      requires Valid() && num <= MaxMeter && RecordBytes * num <= buff.Length && buff != flash.cells
      requires first == Phys(maxRecord, index) && maxRecord < first + num
      modifies buff
      ensures ok ==> Chunks(buff[..RecordBytes * num]) == ReadRange(maxRecord, Contents(), index, num)
      ensures firstOk && secondOk ==> ok
    {
      hide Slots, Chunks, ReadRange, Phys, Splicing.Splice;
      ghost var mem := flash.cells[..];
      var cut := Address(maxRecord - first) - ReserveBytes;
      ghost var k, before := maxRecord - first, buff[..];
      ok := flash.ReadByteArray(Address(first), buff, 0, cut, firstOk);
      var res := flash.ReadByteArray(ReserveBytes, buff, cut, RecordBytes * num - cut, secondOk);
      ok := ok && res;
      if ok { ReadAroundBuffer(maxRecord, mem, index, num, k, before, buff[..]); }
    }
  }

  // ---------------------------------------------------------------- where the records are

  /** The record of logical index `k` stands in 64 bytes behind the 8192-byte reserve, by laps. */
  lemma RecordPlace(mem: seq<byte>, M: nat, k: nat)
    requires M > 0 && |mem| == 8192 + 64 * M
    ensures var p := k % M;
            && 8192 + 64 * p + 64 <= |mem|
            && Slots(mem, M)[Phys(M, k)] == mem[8192 + 64 * p..8192 + 64 * p + 64]
  {
    hide Phys;
    PhysIsRemainder(M, k);
  }

  /** A successful read, byte by byte. */
  lemma ReadBytes(mem: seq<byte>, M: nat, r: nat, n: nat, d: seq<byte>, i: nat, j: nat)
    requires M > 0 && |mem| == 8192 + 64 * M && |d| == 64 * n && Chunks(d) == ReadRange(M, Slots(mem, M), r, n)
    requires i < n && j < 64
    ensures 8192 + 64 * ((r + i) % M) + j < |mem| && d[64 * i + j] == mem[8192 + 64 * ((r + i) % M) + j]
  {
    hide Phys, Slots;
    RecordPlace(mem, M, r + i);
    assert Chunks(d)[i][j] == d[64 * i + j];
  }
}
