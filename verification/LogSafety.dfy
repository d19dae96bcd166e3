/** What every run of the logger keeps: ordered indices, no unposted record skipped or lost,
  and slots that are erased before they are programmed. */
module LogSafety {
  import opened Arithmetic
  import opened RecordLog

  // ---------------------------------------------------------------- slot arithmetic

  lemma {:induction false} PhysIsRemainder(M: nat, k: nat)
    requires M > 0
    ensures Phys(M, k) == k % M
    decreases k
  {
    if k < M {
      DivModUnique(k, M, 0, k);
    } else {
      PhysIsRemainder(M, k - M);
      DivModUnique(k, M, (k - M) / M + 1, (k - M) % M);
    }
  }

  /** Logical indices less than one lap apart never share a slot. */
  lemma {:induction false} DistinctSlots(M: nat, a: nat, b: nat)
    requires M > 0 && a < b < a + M
    ensures Phys(M, a) != Phys(M, b)
    decreases a
  {
    if a >= M { DistinctSlots(M, a - M, b - M); }
  }

  /** The slots of a batch are exactly those of its logical indices. */
  lemma BatchSlot(M: nat, index: nat, n: nat, p: nat) returns (i: nat)
    requires Geometry(M) && p < M && n <= MaxMeter && InBatch(M, index, n, p)
    ensures i < n && p == Phys(M, index + i)
  {
    var a := Phys(M, index);
    i := if p >= a then p - a else p + M - a;
    AddPhys(M, index, i);
  }

  lemma {:induction false} AddPhys(M: nat, index: nat, i: nat)
    requires i < M
    ensures Phys(M, index + i) == if Phys(M, index) + i < M then Phys(M, index) + i else Phys(M, index) + i - M
    decreases index
  {
    if index >= M { AddPhys(M, index - M, i); }
  }

  /** A sector boundary in logical indices is one in slots. */
  lemma {:induction false} AlignedPhys(M: nat, c: nat)
    requires Geometry(M) && c % SectorRecords == 0
    ensures Phys(M, c) % SectorRecords == 0
    decreases c
  {
    if c >= M { AlignedPhys(M, c - M); }
  }

  /** The slots of a wiped sector are the 64 logical indices from its boundary. */
  lemma WipedSlot(M: nat, index: nat, n: nat, p: nat) returns (j: nat)
    requires Geometry(M) && p < M && Wiped(M, index, n, p)
    ensures j < SectorRecords && p == Phys(M, Boundary(index) + j)
  {
    var c := Boundary(index);
    AlignedPhys(M, c);
    j := p - Phys(M, c);
    AddPhys(M, c, j);
  }

  lemma WipedIff(M: nat, index: nat, n: nat, j: nat)
    requires Geometry(M) && Boundary(index) < index + n && j < SectorRecords
    ensures Wiped(M, index, n, Phys(M, Boundary(index) + j))
  {
    var c := Phys(M, Boundary(index));
    AlignedPhys(M, Boundary(index));
    assert c + j < M by { assert c / SectorRecords < M / SectorRecords; }
    AddPhys(M, Boundary(index), j);
  }

  lemma NotInBatch(M: nat, index: nat, n: nat, k: nat)
    requires Geometry(M) && n <= MaxMeter && k < index && index + n <= k + M
    ensures !InBatch(M, index, n, Phys(M, k))
  {
    if InBatch(M, index, n, Phys(M, k)) {
      var i := BatchSlot(M, index, n, Phys(M, k));
      DistinctSlots(M, k, index + i);
    }
  }

  lemma NotWiped(M: nat, index: nat, n: nat, k: nat)
    requires Geometry(M) && k < index && Boundary(index) + SectorRecords <= k + M
    ensures !Wiped(M, index, n, Phys(M, k))
  {
    if Wiped(M, index, n, Phys(M, k)) {
      var j := WipedSlot(M, index, n, Phys(M, k));
      DistinctSlots(M, k, Boundary(index) + j);
    }
  }

  /** A batch moves the next sector boundary by at most one sector. */
  lemma BoundaryStep(w: nat, n: nat)
    requires n <= MaxMeter
    ensures Boundary(w + n) == if Boundary(w) < w + n then Boundary(w) + SectorRecords else Boundary(w)
  {
  }

  /** A batch touches no slot of a logical index in the lap that ends with the last sector it reaches. */
  lemma UntouchedSlot(M: nat, index: nat, recs: seq<Record>, before: seq<Record>, after: seq<Record>, ok: bool,
                      healthy: bool, k: nat)
    requires BatchWrite(M, index, recs, before, after, ok, healthy)
    requires k < index && Boundary(index + |recs|) <= k + M
    ensures after[Phys(M, k)] == before[Phys(M, k)]
  {
    BoundaryStep(index, |recs|);
    NotInBatch(M, index, |recs|, k);
    if Boundary(index) < index + |recs| { NotWiped(M, index, |recs|, k); }
  }

  // ---------------------------------------------------------------- the invariant

  /** Indices in RAM and in marked NVRAM agree, the reader is not ahead, and the frontier ends a sector.
      Nothing has happened while the NVRAM is unmarked, and it may hold anything. */
  ghost predicate Ordered(s: State) {
    && (if s.marked then s.nvW == s.w && s.nvR == s.r else s.frontier == 0)
    && s.r <= s.w <= s.frontier && s.frontier % SectorRecords == 0
  }

  /** Only indices handed out are logged and accepted, and every index waiting to be posted is logged. */
  ghost predicate Accounted(s: State) {
    && (forall k :: k in s.logged ==> k < s.w) && (forall k :: s.r <= k < s.w ==> k in s.logged)
    && (forall p :: p in s.accepted ==> p.0 < s.w)
  }

  /** Every record of the last lap is in the flash as it was logged. */
  ghost predicate Intact(M: nat, s: State)
    requires M > 0 && |s.slots| == M
  {
    forall k :: k in s.logged && s.frontier <= k + M ==> s.slots[Phys(M, k)] == s.logged[k]
  }

  /** The server has accepted a post of index `k`. */
  ghost predicate Served(s: State, k: nat) { exists v :: (k, v) in s.accepted }

  /** Kept by every step whose index stores are not torn by a power cut. */
  ghost predicate Inv(M: nat, s: State) {
    && Geometry(M) && |s.slots| == M
    && Ordered(s) && Accounted(s) && Intact(M, s)
    && forall k :: k in s.logged && k < s.r ==> Served(s, k)
  }

  /** The power fails between the two index stores of a sector skip, or of a reset that has posted something, or
      after unmarked NVRAM has got its marker and before an index copy in it other than 0 has been overwritten. */
  predicate Torn(s: State, e: Event) {
    match e
    case Boot(cut) => !s.marked && ((cut.AfterMarker? && s.nvW + s.nvR > 0) || (cut.BetweenIndices? && s.nvR > 0))
    case Log(_, _, ok, cut) => cut.BetweenStores? && !ok && (s.errs + 1) % 256 >= FlashErrorMax && s.w == s.r
    case Post(_, _, _, _, _) => false
    case ServerReset(cut) => cut.BetweenStores? && s.r > 0
  }

  /** Torn index stores that put the reader in front of the writer: all but those of a first boot that had got no
      further than the marker and found the index copies in order. */
  predicate Overtakes(s: State, e: Event) { Torn(s, e) && (e.Boot? && e.bootCut.AfterMarker? ==> s.nvW < s.nvR) }

  /** A step logs the batch only if the flash confirmed it, keeps the records before it,
      and moves the frontier past it. */
  lemma LogExtends(M: nat, s: State, recs: seq<Record>, healthy: bool, ok: bool, cut: Cut, s': State, k: nat)
    requires LogStep(M, s, recs, healthy, ok, cut, s') && k in s'.logged
    ensures s.frontier <= s'.frontier && Boundary(s.w + |recs|) <= s'.frontier
    ensures (k in s.logged && s'.logged[k] == s.logged[k])
            || (ok && s.w <= k < s.w + |recs| && s'.logged[k] == recs[k - s.w])
  {
    hide BatchWrite, Boundary, NextSector;
  }

  /** The batch write keeps every record of the last lap, and a write the flash confirms adds its own. */
  lemma LogKeepsRecords(M: nat, s: State, recs: seq<Record>, healthy: bool, ok: bool, cut: Cut, s': State, k: nat)
    requires Inv(M, s) && LogStep(M, s, recs, healthy, ok, cut, s')
    requires k in s'.logged && s'.frontier <= k + M
    ensures s'.slots[Phys(M, k)] == s'.logged[k]
  {
    hide Phys, Boundary, InBatch, Wiped, AfterWrite;
    LogExtends(M, s, recs, healthy, ok, cut, s', k);
    if k < s.w {
      UntouchedSlot(M, s.w, recs, s.slots, s'.slots, ok, healthy, k);
    } else {
      assert s'.slots[Phys(M, s.w + (k - s.w))] == recs[k - s.w];
    }
  }

  lemma LogKeepsOrder(M: nat, s: State, recs: seq<Record>, healthy: bool, ok: bool, cut: Cut, s': State)
    requires Inv(M, s) && s.marked && LogStep(M, s, recs, healthy, ok, cut, s')
    requires !Torn(s, Log(recs, healthy, ok, cut))
    ensures Ordered(s') && Accounted(s') && s'.accepted == s.accepted
    ensures s'.r == s.r || (s.r == s.w && s'.r == s'.w == NextSector(s.w))
  {
  }

  lemma LogKeepsInv(M: nat, s: State, recs: seq<Record>, healthy: bool, ok: bool, cut: Cut, s': State)
    requires Inv(M, s) && s.marked && LogStep(M, s, recs, healthy, ok, cut, s')
    requires !Torn(s, Log(recs, healthy, ok, cut))
    ensures Inv(M, s')
  {
    LogKeepsOrder(M, s, recs, healthy, ok, cut, s');
    forall k | k in s'.logged && s'.frontier <= k + M ensures s'.slots[Phys(M, k)] == s'.logged[k] {
      LogKeepsRecords(M, s, recs, healthy, ok, cut, s', k);
    }
    forall k | k in s'.logged && k < s'.r ensures Served(s', k) {
      assert k in s.logged && k < s.r ==> Served(s, k);
    }
  }

  lemma PostKeepsInv(M: nat, s: State, e: Event, s': State)
    requires Inv(M, s) && e.Post? && Next(M, s, e, s')
    ensures Inv(M, s')
  {
    forall k | k in s'.logged && k < s'.r ensures Served(s', k) {
      if k < s.r {
        assert Served(s, k);
        var v :| (k, v) in s.accepted;
        assert (k, v) in s'.accepted;
      } else {
        assert (k, s.slots[Phys(M, k)]) in s'.accepted;
      }
    }
  }

  lemma BootKeepsInv(M: nat, s: State, cut: BootCut)
    requires Inv(M, s) && !Torn(s, Boot(cut))
    ensures Inv(M, AfterBoot(s, cut))
  {
    forall k | k in s.logged && k < s.r ensures Served(AfterBoot(s, cut), k) { assert Served(s, k); }
  }

  /** One step keeps the invariant exactly if the index stores are not torn, and keeps the reader behind the writer
      exactly if they are not torn so that it overtakes. */
  lemma StepKeepsInv(M: nat, s: State, e: Event, s': State)
    requires Inv(M, s) && Next(M, s, e, s')
    ensures Inv(M, s') <==> !Torn(s, e)
    ensures s'.r <= s'.w <==> !Overtakes(s, e)
  {
    if !Torn(s, e) {
      match e
      case Log(recs, healthy, ok, cut) => LogKeepsInv(M, s, recs, healthy, ok, cut, s');
      case Post(_, _, _, _, _) => PostKeepsInv(M, s, e, s');
      case Boot(cut) => BootKeepsInv(M, s, cut);
      case ServerReset(cut) =>
        forall k | k in s'.logged && k < s'.r ensures Served(s', k) { assert Served(s, k); }
    }
  }

  /** The reader moves only over indices the server has accepted or that were never logged,
      and a post that is refused, or cannot read the flash, leaves it in place. */
  lemma ReaderPassesOnlyServed(M: nat, s: State, e: Event, s': State)
    requires Inv(M, s) && Next(M, s, e, s') && !Torn(s, e) && !e.ServerReset?
    ensures s.r <= s'.r
    ensures forall k :: k in s.logged && s.r <= k < s'.r ==> Served(s', k)
    ensures e.Post? && s'.r > s.r ==> e.readOk && e.replies(0)
    ensures e.Post? && e.single ==> forall j :: 0 <= j < s'.r - s.r ==> e.replies(j)
  {
    StepKeepsInv(M, s, e, s');
  }

  // ---------------------------------------------------------------- whole runs

  /** A new device: flash and NVRAM hold anything at all, and the NVRAM is not marked. */
  predicate Initial(M: nat, s: State) {
    && Geometry(M) && |s.slots| == M && !s.marked
    && s.w == s.r == s.errs == s.frontier == 0
    && s.logged == map[] && s.accepted == {}
  }

  ghost predicate Steps(M: nat, ss: seq<State>, es: seq<Event>) {
    && |ss| == |es| + 1 && M > 0
    && forall i :: 0 <= i < |es| ==> |ss[i].slots| == M && Next(M, ss[i], es[i], ss[i + 1])
  }

  ghost predicate Run(M: nat, ss: seq<State>, es: seq<Event>) {
    Steps(M, ss, es) && Initial(M, ss[0])
  }

  lemma {:induction false} RunKeepsInv(M: nat, ss: seq<State>, es: seq<Event>, i: nat)
    requires Run(M, ss, es) && i < |ss|
    requires forall j :: 0 <= j < i ==> !Torn(ss[j], es[j])
    ensures Inv(M, ss[i])
  {
    if i > 0 {
      RunKeepsInv(M, ss, es, i - 1);
      StepKeepsInv(M, ss[i - 1], es[i - 1], ss[i]);
    }
  }

  // ---------------------------------------------------------------- what torn index stores cost

  /** When the power first fails in setup() after the marker has been written, or setup() gets through. */
  function FirstToMark(cuts: seq<BootCut>): BootCut {
    if cuts == [] then BeforeMarker else if cuts[0].BeforeMarker? then FirstToMark(cuts[1..]) else cuts[0]
  }

  function AfterBoots(s: State, cuts: seq<BootCut>): State
    decreases |cuts|
  {
    if cuts == [] then s else AfterBoots(AfterBoot(s, cuts[0]), cuts[1..])
  }

  /** On marked NVRAM setup() changes nothing that agrees with its copy. */
  lemma {:induction false} BootsKeepMarked(s: State, cuts: seq<BootCut>)
    requires s.marked && s.w == s.nvW && s.r == s.nvR && s.errs == 0
    ensures AfterBoots(s, cuts) == s
    decreases |cuts|
  {
    if cuts != [] { BootsKeepMarked(AfterBoot(s, cuts[0]), cuts[1..]); }
  }

  /** A new device powered up any number of times, the power failing anywhere in setup(): the reader is behind the
      writer exactly if it was in the NVRAM found, when the marker alone was written, or if the read index found was
      0, when the write index had been stored too; and both indices are 0 exactly if nothing was torn.  No later
      setup() repairs it. */
  lemma {:induction false} FirstBootExactly(M: nat, s: State, cuts: seq<BootCut>)
    requires Initial(M, s)
    ensures var s', cut := AfterBoots(s, cuts), FirstToMark(cuts);
            && (s'.marked <==> !cut.BeforeMarker?)
            && (s'.r <= s'.w <==> (cut.AfterMarker? ==> s.nvR <= s.nvW) && (cut.BetweenIndices? ==> s.nvR == 0))
            && (s'.w == s'.r == 0 <==> !Torn(s, Boot(cut)))
    decreases |cuts|
  {
    if cuts != [] {
      var s1 := AfterBoot(s, cuts[0]);
      if cuts[0].BeforeMarker? {
        FirstBootExactly(M, s1, cuts[1..]);
      } else {
        BootsKeepMarked(s1, cuts[1..]);
      }
    }
  }

  /** A step posts nothing behind the reader and does not take it back, unless it is a reset. */
  lemma StepPostsAhead(M: nat, s: State, e: Event, s': State)
    requires M > 0 && |s.slots| == M && s.marked && s.nvR == s.r && !e.ServerReset? && Next(M, s, e, s')
    ensures s'.marked && s'.nvR == s'.r >= s.r
    ensures forall p :: p in s'.accepted && p.0 < s.r ==> p in s.accepted
  {
  }

  /** Until the next reset nothing behind the reader is posted any more. */
  lemma {:induction false} PostsAhead(M: nat, ss: seq<State>, es: seq<Event>, i: nat)
    requires Steps(M, ss, es) && i < |ss| && ss[0].marked && ss[0].nvR == ss[0].r
    requires forall j :: 0 <= j < i ==> !es[j].ServerReset?
    ensures ss[i].marked && ss[i].nvR == ss[i].r >= ss[0].r
    ensures forall p :: p in ss[i].accepted && p.0 < ss[0].r ==> p in ss[0].accepted
  {
    hide Next;
    if i > 0 {
      PostsAhead(M, ss, es, i - 1);
      StepPostsAhead(M, ss[i - 1], es[i - 1], ss[i]);
    }
  }

  /** The indices after torn stores: writer and reader. */
  function TornIndices(s: State, e: Event): (nat, nat)
    requires Torn(s, e)
  {
    match e
    case Boot(cut) => (if cut.AfterMarker? then s.nvW else 0, s.nvR)
    case Log(_, _, _, _) => (s.w, NextSector(s.w))
    case ServerReset(_) => (0, s.r)
  }

  lemma TornStep(M: nat, s: State, e: Event, s': State)
    requires Inv(M, s) && Torn(s, e) && Next(M, s, e, s')
    ensures (s'.w, s'.r) == TornIndices(s, e) && s'.marked && s'.nvR == s'.r
    ensures forall p :: p in s'.accepted ==> p.0 < s'.w
  {
  }

  /** What torn index stores cost: every record logged afterwards at an index from the writer up to the reader stays
      unposted, whatever happens, until the server resets the indices. */
  lemma TornLosesRecords(M: nat, s: State, e: Event, ss: seq<State>, es: seq<Event>, i: nat)
    requires Steps(M, ss, es) && i < |ss|
    requires Inv(M, s) && Torn(s, e) && Next(M, s, e, ss[0]) && forall j :: 0 <= j < i ==> !es[j].ServerReset?
    ensures (ss[0].w, ss[0].r) == TornIndices(s, e)
    ensures forall k :: ss[0].w <= k < ss[0].r ==> !Served(ss[i], k)
  {
    hide Next, Torn, Inv;
    TornStep(M, s, e, ss[0]);
    PostsAhead(M, ss, es, i);
  }

  // ---------------------------------------------------------------- end to end

  /** The batch reaches no sector that still holds a record waiting to be posted. */
  predicate Fits(M: nat, s: State, e: Event) { e.Log? ==> Boundary(s.w + |e.recs|) <= s.r + M }

  /** Every waiting record is in the flash as logged, and every posted one was accepted as logged. */
  ghost predicate Faithful(M: nat, s: State) {
    && Inv(M, s) && s.frontier <= s.r + M
    && forall k :: k in s.logged && k < s.r ==> (k, s.logged[k]) in s.accepted
  }

  lemma StepKeepsLap(M: nat, s: State, e: Event, s': State)
    requires Inv(M, s) && s.frontier <= s.r + M && Next(M, s, e, s') && !Torn(s, e) && Fits(M, s, e)
    ensures s'.frontier <= s'.r + M
  {
  }

  lemma PostDelivers(M: nat, s: State, e: Event, s': State, k: nat)
    requires Inv(M, s) && s.frontier <= s.r + M && e.Post? && Next(M, s, e, s')
    requires s.r <= k < s'.r
    ensures s'.logged == s.logged && k in s.logged && (k, s.logged[k]) in s'.accepted
  {
    assert (k, s.slots[Phys(M, k)]) in s'.accepted;
  }

  lemma StaysDelivered(M: nat, s: State, e: Event, s': State, k: nat)
    requires Inv(M, s) && Next(M, s, e, s') && !Torn(s, e) && k in s'.logged && k < s'.r
    requires (k in s.logged && k < s.r ==> (k, s.logged[k]) in s.accepted) && (e.Post? ==> k < s.r)
    ensures (k, s'.logged[k]) in s'.accepted
  {
    hide BatchWrite, Intact, Boundary, NextSector;
  }

  lemma StepKeepsFaithful(M: nat, s: State, e: Event, s': State)
    requires Faithful(M, s) && Next(M, s, e, s') && !Torn(s, e) && Fits(M, s, e)
    ensures Faithful(M, s')
  {
    hide Phys, BatchWrite, Intact, Torn, Fits, AfterBoot, AfterReset, AfterWrite, Boundary, Next;
    StepKeepsInv(M, s, e, s');
    StepKeepsLap(M, s, e, s');
    forall k | k in s'.logged && k < s'.r ensures (k, s'.logged[k]) in s'.accepted {
      if e.Post? && s.r <= k { PostDelivers(M, s, e, s', k); } else { StaysDelivered(M, s, e, s', k); }
    }
  }

  /** End to end: however posts fail, the power is cut, writes fail and sectors are skipped, as long as
      no batch outgrows the flash every waiting index reads back the record logged there, and every
      logged index behind the reader was accepted by the server with the very record that was logged. */
  lemma {:induction false} EveryRecordDelivered(M: nat, ss: seq<State>, es: seq<Event>, i: nat)
    requires Run(M, ss, es) && i < |ss|
    requires forall j :: 0 <= j < i ==> !Torn(ss[j], es[j]) && Fits(M, ss[j], es[j])
    ensures Faithful(M, ss[i])
    ensures forall k :: ss[i].r <= k < ss[i].w ==> k in ss[i].logged && ss[i].slots[Phys(M, k)] == ss[i].logged[k]
    ensures forall k :: k in ss[i].logged && k < ss[i].r ==> (k, ss[i].logged[k]) in ss[i].accepted
  {
    if i > 0 {
      EveryRecordDelivered(M, ss, es, i - 1);
      StepKeepsFaithful(M, ss[i - 1], es[i - 1], ss[i]);
    }
  }

  /** `Boundary` is the first sector boundary. */
  lemma BoundaryIsFirst(w: nat, f: nat)
    requires w <= f && f % SectorRecords == 0
    ensures Boundary(w) <= f
  {
  }

  lemma MaskedBlank(rec: Record)
    ensures Masked(Blank(), rec) == rec
  {
    forall i | 0 <= i < RecordBytes ensures Masked(Blank(), rec)[i] == rec[i] {
      assert 0xFF & rec[i] == rec[i];
    }
  }

  lemma AfterBatchNotInBatch(M: nat, w: nat, n: nat, k: nat)
    requires Geometry(M) && n <= MaxMeter && w + n <= k < w + n + SectorRecords
    ensures !InBatch(M, w, n, Phys(M, k))
  {
    if InBatch(M, w, n, Phys(M, k)) {
      var i := BatchSlot(M, w, n, Phys(M, k));
      DistinctSlots(M, w + i, k);
    }
  }

  /** A healthy batch that opens a sector destroys the record one lap behind each index of that
      sector: the slot holds the batch's own record for the index, or is blank. */
  lemma OpenedSectorLosesRecord(M: nat, w: nat, recs: seq<Record>, before: seq<Record>, after: seq<Record>, ok: bool,
                                k: nat)
    requires BatchWrite(M, w, recs, before, after, ok, true)
    requires Boundary(w) < w + |recs| && Boundary(w) <= k < Boundary(w) + SectorRecords
    ensures after[Phys(M, k)] == if k < w + |recs| then recs[k - w] else Blank()
  {
    hide Phys, InBatch, Masked, Wiped;
    WipedIff(M, w, |recs|, k - Boundary(w));
    if k < w + |recs| {
      assert after[Phys(M, w + (k - w))] == Masked(Blank(), recs[k - w]);
      MaskedBlank(recs[k - w]);
    } else {
      AfterBatchNotInBatch(M, w, |recs|, k);
    }
  }

  /** A batch that does not fit opens the sector one lap ahead of the oldest waiting record. */
  lemma MisfitOpensSector(M: nat, w: nat, r: nat, n: nat, frontier: nat)
    requires w <= frontier <= r + M < Boundary(w + n) && frontier % SectorRecords == 0 && n <= MaxMeter
    ensures Boundary(w) < w + n && Boundary(w) <= r + M < Boundary(w) + SectorRecords
  {
    BoundaryStep(w, n);
    BoundaryIsFirst(w, frontier);
  }

  /** What a healthy batch that does not fit leaves of the oldest waiting record. */
  function Overwritten(M: nat, w: nat, r: nat, recs: seq<Record>): Record
    requires w <= r + M
  {
    if r + M < w + |recs| then recs[r + M - w] else Blank()
  }

  lemma BatchFacts(M: nat, w: nat, recs: seq<Record>, before: seq<Record>, after: seq<Record>, ok: bool, healthy: bool)
    requires BatchWrite(M, w, recs, before, after, ok, healthy)
    ensures Geometry(M) && |recs| <= MaxMeter && |after| == M
  {
  }

  lemma MisfitLosesOldest(M: nat, w: nat, r: nat, frontier: nat, recs: seq<Record>, before: seq<Record>,
                          after: seq<Record>, ok: bool)
    requires BatchWrite(M, w, recs, before, after, ok, true)
    requires w <= frontier <= r + M < Boundary(w + |recs|) && frontier % SectorRecords == 0
    ensures after[Phys(M, r)] == Overwritten(M, w, r, recs)
  {
    hide Boundary, InBatch, Wiped, Masked, BatchWrite;
    assert Geometry(M) && |recs| <= MaxMeter by { BatchFacts(M, w, recs, before, after, ok, true); }
    MisfitOpensSector(M, w, r, |recs|, frontier);
    OpenedSectorLosesRecord(M, w, recs, before, after, ok, r + M);
    assert Phys(M, r + M) == Phys(M, r);
  }

  /** The bound is exact: a healthy batch leaves the oldest waiting record readable if and only if it fits,
      or happens to put the very same bytes in its place. */
  lemma FitsIsExact(M: nat, s: State, e: Event, s': State)
    requires Faithful(M, s) && s.r < s.w && e.Log? && e.healthy && Next(M, s, e, s')
    ensures s'.slots[Phys(M, s.r)] == s.logged[s.r]
       <==> Fits(M, s, e) || s.logged[s.r] == Overwritten(M, s.w, s.r, e.recs)
  {
    hide Phys, Boundary, InBatch, Wiped, AfterWrite, BatchWrite;
    if Fits(M, s, e) {
      UntouchedSlot(M, s.w, e.recs, s.slots, s'.slots, e.ok, e.healthy, s.r);
    } else {
      MisfitLosesOldest(M, s.w, s.r, s.frontier, e.recs, s.slots, s'.slots, e.ok);
    }
  }

  // ---------------------------------------------------------------- programming only erased slots

  /** The slots from the write index to the end of its sector are erased. */
  ghost predicate Clean(M: nat, s: State)
    requires M > 0 && |s.slots| == M
  {
    forall k :: s.w <= k < Boundary(s.w) ==> s.slots[Phys(M, k)] == Blank()
  }

  /** The slot of record `i` of a batch of `n` is erased when it is programmed: it was
      blank, or the batch opens its sector. */
  predicate ErasedFor(M: nat, s: State, n: nat, i: nat)
    requires M > 0 && |s.slots| == M
  {
    var p := Phys(M, s.w + i);
    Wiped(M, s.w, n, p) || s.slots[p] == Blank()
  }

  lemma BatchSlotErased(M: nat, s: State, n: nat, i: nat)
    requires Geometry(M) && |s.slots| == M && Clean(M, s) && i < n <= MaxMeter
    ensures ErasedFor(M, s, n, i)
  {
    var c := Boundary(s.w);
    if c <= s.w + i { WipedIff(M, s.w, n, s.w + i - c); }
  }

  /** After a healthy batch on clean slots, the rest of the sector it ends in is blank. */
  lemma SlotAfterBatchClean(M: nat, s: State, recs: seq<Record>, after: seq<Record>, ok: bool, k: nat)
    requires Geometry(M) && |s.slots| == M && Clean(M, s) && BatchWrite(M, s.w, recs, s.slots, after, ok, true)
    requires s.w + |recs| <= k < Boundary(s.w + |recs|)
    ensures after[Phys(M, k)] == Blank()
  {
    hide Phys, InBatch, Wiped;
    var n, c := |recs|, Boundary(s.w);
    AfterBatchNotInBatch(M, s.w, n, k);
    BoundaryStep(s.w, n);
    if c < s.w + n { WipedIff(M, s.w, n, k - c); }
  }

  lemma HealthyBatchConfirmed(M: nat, s: State, recs: seq<Record>, after: seq<Record>, ok: bool)
    requires Geometry(M) && |s.slots| == M && Clean(M, s) && BatchWrite(M, s.w, recs, s.slots, after, ok, true)
    ensures forall i :: 0 <= i < |recs| ==> ErasedFor(M, s, |recs|, i)
    ensures ok
  {
    forall i | 0 <= i < |recs| ensures ErasedFor(M, s, |recs|, i) && after[Phys(M, s.w + i)] == recs[i] {
      BatchSlotErased(M, s, |recs|, i);
      MaskedBlank(recs[i]);
    }
  }

  /** A healthy batch on clean slots programs only erased bytes, is confirmed, and leaves clean slots. */
  lemma HealthyLogSucceeds(M: nat, s: State, e: Event, s': State)
    requires Geometry(M) && |s.slots| == M && Clean(M, s)
    requires e.Log? && e.healthy && e.cut.NoCut? && Next(M, s, e, s')
    ensures forall i :: 0 <= i < |e.recs| ==> ErasedFor(M, s, |e.recs|, i)
    ensures e.ok && s'.w == s.w + |e.recs| && Clean(M, s')
  {
    HealthyBatchConfirmed(M, s, e.recs, s'.slots, e.ok);
    forall k | s'.w <= k < Boundary(s'.w) ensures s'.slots[Phys(M, k)] == Blank() {
      SlotAfterBatchClean(M, s, e.recs, s'.slots, e.ok, k);
    }
  }

  /** A step that neither fails a write nor cuts the power inside one. */
  predicate Sound(e: Event) { e.Log? ==> e.healthy && e.cut.NoCut? }

  lemma OtherStepsKeepClean(M: nat, s: State, e: Event, s': State)
    requires Inv(M, s) && Clean(M, s) && !e.Log? && !Torn(s, e) && Next(M, s, e, s')
    ensures |s'.slots| == M && Clean(M, s')
  {
  }

  /** In a run without flash faults every write is confirmed and programs erased bytes only. */
  lemma {:induction false} SoundRunStaysClean(M: nat, ss: seq<State>, es: seq<Event>, i: nat)
    requires Run(M, ss, es) && i < |ss|
    requires forall j :: 0 <= j < i ==> !Torn(ss[j], es[j]) && Sound(es[j])
    ensures |ss[i].slots| == M && Clean(M, ss[i])
    ensures forall j :: 0 <= j < i && es[j].Log? ==> es[j].ok
  {
    if i > 0 {
      SoundRunStaysClean(M, ss, es, i - 1);
      RunKeepsInv(M, ss, es, i - 1);
      if es[i - 1].Log? {
        HealthyLogSucceeds(M, ss[i - 1], es[i - 1], ss[i]);
      } else {
        OtherStepsKeepClean(M, ss[i - 1], es[i - 1], ss[i]);
      }
    }
  }

  lemma FailedLog(M: nat, s: State, e: Event, s': State)
    requires |s.slots| == M && Geometry(M) && e.Log? && e.cut.NoCut? && !e.ok && Next(M, s, e, s')
    requires s.w == s.r
    ensures |s'.slots| == M
    ensures var errs := (s.errs + 1) % 256;
            if errs >= FlashErrorMax then s'.w == s'.r == NextSector(s.w) else s'.w == s'.r == s.w && s'.errs == errs
  {
  }

  /** The eight-bit count reads three or more after `i` more failures. */
  predicate SkipDue(errs: nat, i: nat) { (errs + i) % 256 >= FlashErrorMax }

  /** How many failures in a row bring the skip: the eight-bit count is tested after it has been advanced. */
  function FailuresToSkip(errs: nat): (f: nat)
    requires errs < 256
    ensures 1 <= f <= 4
    ensures SkipDue(errs, f) && forall i :: 0 < i < f ==> !SkipDue(errs, i)
  {
    if errs == 255 then 4 else if errs < FlashErrorMax then FlashErrorMax - errs else 1
  }

  /** `f` writes that fail one after the other, and one more write on healthy flash. */
  ghost predicate FailuresThenHealthy(M: nat, s: seq<State>, e: seq<Event>, f: nat) {
    && M > 0 && |s| == f + 2 && |e| == f + 1
    && (forall i :: 0 <= i <= f ==> |s[i].slots| == M && e[i].Log? && e[i].cut.NoCut? && Next(M, s[i], e[i], s[i + 1]))
    && (forall i :: 0 <= i < f ==> !e[i].ok) && e[f].healthy
  }

  lemma CountedOn(n: nat)
    ensures (n % 256 + 1) % 256 == (n + 1) % 256
  {
  }

  /** Before the skip, failures change nothing but the count. */
  lemma {:induction false} FailingRun(M: nat, s: seq<State>, e: seq<Event>, f: nat, i: nat)
    requires Geometry(M) && FailuresThenHealthy(M, s, e, f) && |s[0].slots| == M && s[0].w == s[0].r && s[0].errs < 256
    requires f == FailuresToSkip(s[0].errs) && i < f
    ensures |s[i].slots| == M && s[i].w == s[i].r == s[0].w && s[i].errs == (s[0].errs + i) % 256
  {
    hide FailuresToSkip, NextSector, Next;
    if i > 0 {
      FailingRun(M, s, e, f, i - 1);
      FailedLog(M, s[i - 1], e[i - 1], s[i]);
      CountedOn(s[0].errs + i - 1);
      assert !SkipDue(s[0].errs, i);
    }
  }

  /** With no backlog, failed writes in a row leave the indices alone until the count reaches three, whatever it was
      at first; that failure moves both to a fresh sector, where, whatever the failures left in the
      flash, the next healthy write is confirmed. */
  lemma SkipRecovers(M: nat, s: seq<State>, e: seq<Event>)
    requires |s| > 0 && Geometry(M) && |s[0].slots| == M && s[0].w == s[0].r && s[0].errs < 256
    requires FailuresThenHealthy(M, s, e, FailuresToSkip(s[0].errs))
    ensures var f := FailuresToSkip(s[0].errs);
            && (forall i :: 0 <= i < f ==> s[i].w == s[i].r == s[0].w)
            && s[f].w == s[f].r == NextSector(s[0].w) && e[f].ok && s[f + 1].w == s[f].w + |e[f].recs|
  {
    hide FailuresToSkip, NextSector, Next;
    var f := FailuresToSkip(s[0].errs);
    forall i | 0 <= i < f ensures s[i].w == s[i].r == s[0].w { FailingRun(M, s, e, f, i); }
    FailingRun(M, s, e, f, f - 1);
    FailedLog(M, s[f - 1], e[f - 1], s[f]);
    CountedOn(s[0].errs + f - 1);
    assert Clean(M, s[f]);
    HealthyLogSucceeds(M, s[f], e[f], s[f + 1]);
  }
}
