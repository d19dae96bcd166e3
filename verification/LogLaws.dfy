/** What each step of the logger does to the indices, the error count and the history, said outright: in terms of
  the events alone, not of the functions that the steps are made of. */
module LogLaws {
  import opened Arithmetic
  import opened BitBytes
  import opened LogSafety
  import opened RecordLog

  // ---------------------------------------------------------------- posting

  /** The server takes record `j` of a post of `num`: all records up to it, one by one, or the one request. */
  ghost predicate Takes(single: bool, replies: nat -> bool, j: nat) {
    if single then forall i :: 0 <= i <= j ==> replies(i) else replies(0)
  }

  /** How many records a post is about. */
  function Asked(s: State, limit: nat): nat
    requires s.r < s.w
  {
    if s.w - s.r < limit then s.w - s.r else limit
  }

  /** The records accepted are exactly those the server took, wherever the power fails afterwards. */
  lemma PostAccepts(M: nat, s: State, limit: nat, single: bool, readOk: bool, replies: nat -> bool, cut: Cut, s': State)
    requires M > 0 && |s.slots| == M && s.r < s.w && limit > 0
    requires Next(M, s, Post(limit, single, readOk, replies, cut), s')
    ensures forall k: nat, rec :: (k, rec) in s'.accepted
              <==> (k, rec) in s.accepted
                   || (readOk && s.r <= k < s.r + Asked(s, limit) && Takes(single, replies, k - s.r)
                       && rec == s.slots[k % M])
    ensures s'.slots == s.slots && s'.logged == s.logged && s'.marked && s'.nvW == s.nvW
  {
    hide Phys;
    var num := Asked(s, limit);
    var c := Delivered(single, replies, num);
    forall k: nat, rec | readOk
      ensures (k, rec) in Sent(M, s.slots, s.r, c)
         <==> s.r <= k < s.r + num && Takes(single, replies, k - s.r) && rec == s.slots[k % M]
    {
      PhysIsRemainder(M, k);
      if single && s.r + c <= k < s.r + num { assert !replies(c); }
    }
  }

  /** A post moves the read index and its copy by the number of records asked for if the flash could be read and the
      server has taken them all, and by nothing otherwise. */
  lemma PostMoves(M: nat, s: State, limit: nat, single: bool, readOk: bool, replies: nat -> bool, s': State)
    requires M > 0 && |s.slots| == M && s.r < s.w && limit > 0
    requires Next(M, s, Post(limit, single, readOk, replies, NoCut), s')
    ensures var num := Asked(s, limit);
            if readOk && Takes(single, replies, num - 1) then s'.r == s'.nvR == s.r + num
            else s'.r == s.r && s'.nvR == s.nvR
    ensures s' == s.(r := s'.r, nvR := s'.nvR, accepted := s'.accepted)
  {
    hide Sent;
  }

  /** The power fails after the server has taken all: the indices are those of the copies. */
  lemma PostCut(M: nat, s: State, limit: nat, single: bool, replies: nat -> bool, s': State)
    requires M > 0 && |s.slots| == M && s.r < s.w && limit > 0 && s.nvW == s.w && s.nvR == s.r
    requires Next(M, s, Post(limit, single, true, replies, BeforeStore), s')
    ensures s'.r == s'.nvR == s.r && s'.w == s'.nvW == s.w
    ensures s'.errs == if Takes(single, replies, Asked(s, limit) - 1) then 0 else s.errs
  {
    hide Sent;
  }

  /** A post that succeeds as a whole. */
  ghost predicate Succeeds(e: Event, limit: nat) {
    && e.Post? && e.limit == limit && e.readOk && e.cut.NoCut?
    && forall i :: e.replies(i)
  }

  /** Successful posts alone: each moves the reader by the limit, the last one to the writer. */
  lemma {:induction false} BacklogShrinks(M: nat, ss: seq<State>, es: seq<Event>, limit: nat, i: nat)
    requires Steps(M, ss, es) && limit > 0 && i < |ss| && |ss[0].slots| == M && ss[0].r <= ss[0].w
    requires forall j :: 0 <= j < i ==> Succeeds(es[j], limit)
    ensures |ss[i].slots| == M && ss[i].w == ss[0].w
    ensures ss[i].r == if ss[0].r + i * limit < ss[0].w then ss[0].r + i * limit else ss[0].w
  {
    hide Next;
    if i > 0 {
      BacklogShrinks(M, ss, es, limit, i - 1);
      var s, e := ss[i - 1], es[i - 1];
      assert i * limit == (i - 1) * limit + limit;
      if s.r < s.w {
        PostMoves(M, s, limit, e.single, true, e.replies, ss[i]);
      } else {
        NothingToPost(M, s, e, ss[i]);
      }
    }
  }

  lemma NothingToPost(M: nat, s: State, e: Event, s': State)
    requires M > 0 && |s.slots| == M && s.r >= s.w && e.Post? && Next(M, s, e, s')
    ensures s' == s
  {
  }

  /** The backlog is gone after exactly the backlog divided by the limit, rounded up. */
  lemma BacklogDrains(M: nat, ss: seq<State>, es: seq<Event>, limit: nat, i: nat)
    requires Steps(M, ss, es) && limit > 0 && i < |ss| && |ss[0].slots| == M && ss[0].r <= ss[0].w
    requires forall j :: 0 <= j < i ==> Succeeds(es[j], limit)
    ensures ss[i].r == ss[i].w <==> i >= (ss[0].w - ss[0].r + limit - 1) / limit
  {
    var b := ss[0].w - ss[0].r;
    BacklogShrinks(M, ss, es, limit, i);
    RoundedUpQuotient(b, limit, i);
  }

  lemma RoundedUpQuotient(b: nat, d: nat, i: nat)
    requires d > 0
    ensures i * d >= b <==> i >= (b + d - 1) / d
  {
    var q := (b + d - 1) / d;
    assert b + d - 1 == d * q + (b + d - 1) % d;
    if i >= q { MulMono(d, q, i); } else { MulMono(d, i, q - 1); }
    assert d * (q - 1) == d * q - d && i * d == d * i;
  }

  // ---------------------------------------------------------------- logging

  /** Record `rec` reads back at logical index `k`. */
  predicate ReadsBack(M: nat, slots: seq<Record>, k: nat, rec: Record)
    requires M > 0 && |slots| == M
  {
    slots[k % M] == rec
  }

  /** A confirmed write moves the write index and its copy by the batch, logs it there, and clears the count. */
  lemma ConfirmedMoves(M: nat, s: State, recs: seq<Record>, healthy: bool, s': State)
    requires M > 0 && |s.slots| == M && Next(M, s, Log(recs, healthy, true, NoCut), s')
    ensures s'.w == s'.nvW == s.w + |recs| && s'.r == s.r && s'.nvR == s.nvR && s'.errs == 0
    ensures s'.accepted == s.accepted && s'.marked
    ensures forall k :: k in s'.logged <==> k in s.logged || s.w <= k < s.w + |recs|
    ensures forall k :: k in s'.logged ==>
              s'.logged[k] == if s.w <= k < s.w + |recs| then recs[k - s.w] else s.logged[k]
  {
    hide BatchWrite, Boundary, NextSector, LoggedBatch;
  }

  /** A write that is not confirmed counts; three with nothing waiting move all indices to the next multiple of 64. */
  lemma UnconfirmedMoves(M: nat, s: State, recs: seq<Record>, healthy: bool, s': State)
    requires M > 0 && |s.slots| == M && Next(M, s, Log(recs, healthy, false, NoCut), s')
    ensures s'.logged == s.logged && s'.accepted == s.accepted && s'.marked
    ensures var errs := (s.errs + 1) % 256;
            if errs >= 3 && s.w == s.r then
              && s'.w == s'.r == s'.nvW == s'.nvR && s'.errs == 0
              && s.w < s'.w <= s.w + 64 && s'.w % 64 == 0
            else s'.w == s.w && s'.r == s.r && s'.nvW == s.nvW && s'.nvR == s.nvR && s'.errs == errs
  {
    hide BatchWrite, Boundary, NextSector;
    NextSectorIsMultiple(s.w);
  }

  lemma NextSectorIsMultiple(w: nat)
    ensures w < NextSector(w) <= w + 64 && NextSector(w) % 64 == 0
  {
  }

  /** A write is confirmed exactly if every record reads back from its slot. */
  lemma ConfirmedExactly(M: nat, w: nat, recs: seq<Record>, before: seq<Record>, after: seq<Record>,
                         ok: bool, healthy: bool)
    requires BatchWrite(M, w, recs, before, after, ok, healthy)
    ensures |after| == M > 0 && (ok <==> forall i :: 0 <= i < |recs| ==> ReadsBack(M, after, w + i, recs[i]))
  {
    hide Phys, Wiped, InBatch;
    forall i | 0 <= i < |recs| ensures ReadsBack(M, after, w + i, recs[i]) <==> after[Phys(M, w + i)] == recs[i] {
      PhysIsRemainder(M, w + i);
    }
  }

  /** The server's reset and a boot on marked NVRAM, without a power cut. */
  lemma ResetMoves(M: nat, s: State, s': State)
    requires M > 0 && |s.slots| == M && Next(M, s, ServerReset(NoCut), s')
    ensures s'.w == s'.r == s'.nvW == s'.nvR == s'.errs == 0 && s'.slots == s.slots && s'.marked
  {
  }

  lemma BootMoves(M: nat, s: State, cut: BootCut, s': State)
    requires M > 0 && |s.slots| == M && s.marked && Next(M, s, Boot(cut), s')
    ensures s'.w == s'.nvW == s.nvW && s'.r == s'.nvR == s.nvR && s'.errs == 0
    ensures s'.slots == s.slots && s'.logged == s.logged && s'.accepted == s.accepted && s'.marked
  {
  }

  // ---------------------------------------------------------------- the record

  /** A record carries the twelve words, the low byte of each first, and sixteen zeros. */
  lemma RecordLayout(r: Reading)
    ensures forall k :: 0 <= k < 12 ==>
              r[k] == (Encode(r)[4 * k] as bv32) | ((Encode(r)[4 * k + 1] as bv32) << 8)
                      | ((Encode(r)[4 * k + 2] as bv32) << 16) | ((Encode(r)[4 * k + 3] as bv32) << 24)
    ensures forall i :: 48 <= i < 64 ==> Encode(r)[i] == 0
  {
    hide ByteOf;
    forall k | 0 <= k < 12
      ensures r[k] == (Encode(r)[4 * k] as bv32) | ((Encode(r)[4 * k + 1] as bv32) << 8)
                      | ((Encode(r)[4 * k + 2] as bv32) << 16) | ((Encode(r)[4 * k + 3] as bv32) << 24)
    {
      assert 4 * k / 4 == (4 * k + 1) / 4 == (4 * k + 2) / 4 == (4 * k + 3) / 4 == k;
      JoinBytes(r[k]);
    }
  }
}
