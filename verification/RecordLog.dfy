/** The store-and-forward record log of main.cpp, over whole runs.

  The flash is seen here as `M` slots of one 64-byte record each; logical index `k`
  lives in slot `k % M`.  `BatchWrite` is what one call of SPIFlashMeter::writeMeterData
  does to the slots (FlashMeter.dfy proves it of the byte-level code), and `Next` is one
  step of the logger (Logger.dfy proves it of the methods). */
module RecordLog {
  import opened BitBytes

  const RecordBytes := 64
  const SectorRecords := 64   // 4096-byte sector / 64-byte record
  const MaxMeter := 21        // MAXMETER
  const MaxPost := 6          // MAXPOST
  const FlashErrorMax := 3    // FLASH_ERROR_MAX

  type Record = r: seq<byte> | |r| == RecordBytes witness seq(RecordBytes, _ => 0)

  /** One meter reading: the twelve 32-bit words a record carries (id, time, ten floats). */
  type Reading = r: seq<bv32> | |r| == 12 witness seq(12, _ => 0)

  // ---------------------------------------------------------------- record layout

  function ByteOf(w: bv32, j: nat): byte
    requires j < 4
  {
    if j == 0 then (w & 0xFF) as byte
    else if j == 1 then ((w >> 8) & 0xFF) as byte
    else if j == 2 then ((w >> 16) & 0xFF) as byte
    else ((w >> 24) & 0xFF) as byte
  }

  function Join(a: byte, b: byte, c: byte, d: byte): bv32 {
    (a as bv32) | ((b as bv32) << 8) | ((c as bv32) << 16) | ((d as bv32) << 24)
  }

  function Encode(r: Reading): Record {
    seq(RecordBytes, i requires 0 <= i < RecordBytes => if i < 48 then ByteOf(r[i / 4], i % 4) else 0)
  }

  function Decode(rec: Record): Reading {
    seq(12, j requires 0 <= j < 12 => Join(rec[4 * j], rec[4 * j + 1], rec[4 * j + 2], rec[4 * j + 3]))
  }

  lemma JoinBytes(w: bv32)
    ensures Join(ByteOf(w, 0), ByteOf(w, 1), ByteOf(w, 2), ByteOf(w, 3)) == w
  {
  }

  /** What the poster reads out of a record is what the meter task put in. */
  lemma DecodeEncode(r: Reading)
    ensures Decode(Encode(r)) == r
  {
    hide Join, ByteOf;
    forall j | 0 <= j < 12 ensures Decode(Encode(r))[j] == r[j] {
      assert 4 * j / 4 == (4 * j + 1) / 4 == (4 * j + 2) / 4 == (4 * j + 3) / 4 == j;
      JoinBytes(r[j]);
    }
  }

  // ---------------------------------------------------------------- slots

  function Blank(): Record { seq(RecordBytes, _ => 0xFF) }

  /** Programming NOR flash only clears bits. */
  function Masked(cells: Record, data: Record): Record {
    seq(RecordBytes, i requires 0 <= i < RecordBytes => cells[i] & data[i])
  }

  predicate Geometry(M: nat) { M >= 2 * SectorRecords && M % SectorRecords == 0 }

  /** The slot of logical index `k`: the remainder `k % M` (LogSafety.PhysIsRemainder), counted down lap by lap so
      that proofs about laps are inductions and need no division by a variable. */
  function Phys(M: nat, k: nat): (p: nat)
    requires M > 0
    ensures p < M
  {
    if k < M then k else Phys(M, k - M)
  }

  /** Slot `p` holds one of the `n` records of a batch at `index`. */
  predicate InBatch(M: nat, index: nat, n: nat, p: nat)
    requires M > 0
  {
    var a := Phys(M, index);
    if p >= a then p - a < n else p + M - a < n
  }

  /** The first sector boundary, in logical indices, at or after `index`. */
  function Boundary(index: nat): (b: nat)
    ensures index <= b < index + SectorRecords && b % SectorRecords == 0
  {
    if index % SectorRecords == 0 then index else NextSector(index)
  }

  /** The batch starts a sector, and slot `p` lies in that sector. */
  predicate Wiped(M: nat, index: nat, n: nat, p: nat)
    requires M > 0
  {
    Boundary(index) < index + n && Phys(M, Boundary(index)) / SectorRecords == p / SectorRecords
  }

  /** The effect of writing the batch `recs` at logical index `index`. */
  ghost predicate BatchWrite(M: nat, index: nat, recs: seq<Record>, before: seq<Record>, after: seq<Record>,
                             ok: bool, healthy: bool)
  {
    && Geometry(M) && |before| == |after| == M && |recs| <= MaxMeter
    && (ok <==> forall i :: 0 <= i < |recs| ==> after[Phys(M, index + i)] == recs[i])
    && (forall p :: 0 <= p < M && !InBatch(M, index, |recs|, p) && !Wiped(M, index, |recs|, p) ==>
        after[p] == before[p])
    && (healthy ==>
          && (forall p :: 0 <= p < M && !InBatch(M, index, |recs|, p) && Wiped(M, index, |recs|, p) ==>
              after[p] == Blank())
          && (forall i :: 0 <= i < |recs| ==>
                var p := Phys(M, index + i);
                after[p] == Masked(if Wiped(M, index, |recs|, p) then Blank() else before[p], recs[i])))
  }

  // ---------------------------------------------------------------- steps

  /** The logger between two steps: flash slots, RAM indices and error counter, the marker and the index
      copies in RTC NVRAM, and the history of the run since the last index reset: what was
      logged at each index, what the server accepted, and the end of the last sector touched. */
  datatype State = State(slots: seq<Record>, w: nat, r: nat, errs: nat, marked: bool, nvW: nat, nvR: nat,
                         logged: map<nat, Record>, accepted: set<(nat, Record)>, frontier: nat)

  /** Where the power fails inside a step: never, before the first index store, or between the two. */
  datatype Cut = NoCut | BeforeStore | BetweenStores

  /** Where the power fails while setup() initialises unmarked NVRAM: never, before the marker is written,
      after it, or between the two index stores. */
  datatype BootCut = Completed | BeforeMarker | AfterMarker | BetweenIndices

  datatype Event =
    | Log(recs: seq<Record>, healthy: bool, ok: bool, cut: Cut)
    | Post(limit: nat, single: bool, readOk: bool, replies: nat -> bool, cut: Cut)
    | Boot(bootCut: BootCut)
    | ServerReset(cut: Cut)

  function Max(a: nat, b: nat): nat { if a < b then b else a }

  function Min(a: nat, b: nat): nat { if a < b then a else b }

  /** setup() on marked NVRAM: the RAM indices are reloaded and the error counter starts at zero. */
  function Restarted(s: State): State { s.(w := s.nvW, r := s.nvR, errs := 0) }

  /** setup(), and the one after it if the power fails in it.  The marker goes first, so a second setup() trusts
      whatever index copies the first has not got to. */
  function AfterBoot(s: State, cut: BootCut): State {
    if s.marked then Restarted(s) else
    var zeroed := s.(w := 0, r := 0, errs := 0);
    var begun := zeroed.(marked := true, logged := map[], accepted := {}, frontier := 0);
    match cut
    case Completed => begun.(nvW := 0, nvR := 0)
    case BeforeMarker => zeroed
    case AfterMarker => Restarted(begun)
    case BetweenIndices => Restarted(begun.(nvW := 0))
  }

  function NextSector(w: nat): (b: nat)
    ensures w < b <= w + SectorRecords && b % SectorRecords == 0
  {
    (w / SectorRecords + 1) * SectorRecords
  }

  function LoggedBatch(w: nat, recs: seq<Record>): (m: map<nat, Record>)
    ensures forall k :: k in m <==> w <= k < w + |recs|
    ensures forall k :: k in m ==> m[k] == recs[k - w]
  {
    if recs == [] then map[] else
    var last := |recs| - 1;
    LoggedBatch(w, recs[..last])[w + last := recs[last]]
  }

  /** The bookkeeping of meterToFlash once the flash has answered `ok`. */
  function AfterWrite(s: State, recs: seq<Record>, ok: bool, cut: Cut): State {
    var n := |recs|;
    if ok then
      if cut.BeforeStore? then Restarted(s)
      else s.(w := s.w + n, nvW := s.w + n, errs := 0, logged := s.logged + LoggedBatch(s.w, recs))
    else
      var errs := (s.errs + 1) % 256;
      if errs >= FlashErrorMax && s.w == s.r then
        var w' := NextSector(s.w);
        match cut
        case NoCut => s.(w := w', r := w', errs := 0, nvW := w', nvR := w', frontier := Max(s.frontier, w'))
        case BeforeStore => Restarted(s)
        case BetweenStores => Restarted(s.(nvR := w'))
      else if cut.BeforeStore? then Restarted(s)
      else s.(errs := errs)
  }

  ghost predicate LogStep(M: nat, s: State, recs: seq<Record>, healthy: bool, ok: bool, cut: Cut, s': State) {
    && |recs| <= MaxMeter
    && BatchWrite(M, s.w, recs, s.slots, s'.slots, ok, healthy)
    && s' == AfterWrite(s.(slots := s'.slots, frontier := Max(s.frontier, Boundary(s.w + |recs|))), recs, ok, cut)
  }

  function Sent(M: nat, slots: seq<Record>, r: nat, num: nat): set<(nat, Record)>
    requires M > 0 && |slots| == M
  {
    set k: nat | r <= k < r + num :: (k, slots[Phys(M, k)])
  }

  /** How many of `num` single posts get through before the first refusal. */
  function AcceptedCount(replies: nat -> bool, i: nat, num: nat): (c: nat)
    requires i <= num
    ensures i <= c <= num
    ensures forall j :: i <= j < c ==> replies(j)
    ensures c < num ==> !replies(c)
    decreases num - i
  {
    if i == num || !replies(i) then i else AcceptedCount(replies, i + 1, num)
  }

  /** How many posts of the `num` records read are accepted: one by one, or all in one request. */
  function Delivered(single: bool, replies: nat -> bool, num: nat): (c: nat)
    ensures c <= num
  {
    if single then AcceptedCount(replies, 0, num) else if replies(0) then num else 0
  }

  /** `c` of the `num` records read at the read index are accepted; the index moves only if all are. */
  function Posted(M: nat, s: State, num: nat, c: nat, cut: Cut): State
    requires M > 0 && |s.slots| == M
  {
    var s1 := s.(accepted := s.accepted + Sent(M, s.slots, s.r, c));
    if c < num then s1
    else if cut.BeforeStore? then Restarted(s1)
    else s1.(r := s.r + num, nvR := s.r + num)
  }

  function AfterPost(M: nat, s: State, limit: nat, single: bool, readOk: bool, replies: nat -> bool, cut: Cut): State
    requires M > 0 && |s.slots| == M
  {
    if s.r >= s.w || !readOk then s else
    var num := Min(s.w - s.r, limit);
    Posted(M, s, num, Delivered(single, replies, num), cut)
  }

  function AfterReset(s: State, cut: Cut): State {
    match cut
    case NoCut => Restarted(s.(nvW := 0, nvR := 0, logged := map[], accepted := {}, frontier := 0))
    case BeforeStore => Restarted(s)
    case BetweenStores => Restarted(s.(nvW := 0, logged := map[], accepted := {}, frontier := 0))
  }

  /** One step.  Nothing but setup() runs before the NVRAM is marked. */
  ghost predicate Next(M: nat, s: State, e: Event, s': State)
    requires M > 0 && |s.slots| == M
  {
    match e
    case Boot(cut) => s' == AfterBoot(s, cut)
    case Log(recs, healthy, ok, cut) => s.marked && LogStep(M, s, recs, healthy, ok, cut, s')
    case Post(limit, single, readOk, replies, cut) =>
      s.marked && s' == AfterPost(M, s, limit, single, readOk, replies, cut)
    case ServerReset(cut) => s.marked && s' == AfterReset(s, cut)
  }
}
