/** The binary form of a partition table: 32-byte entries, then 0xFF up to 3072 bytes. */
module PartitionBinary {
  import opened ByteOrder
  import opened IntBytes
  import opened Partition

  // ---------------------------------------------------------------- names

  /** struct's 16s: cut or filled with zeros to 16 bytes. */
  function Name16(name: seq<byte>): (n: seq<byte>)
    ensures |n| == NameLen
  {
    if |name| >= NameLen then name[..NameLen] else name + seq(NameLen - |name|, _ => 0)
  }

  /** The name up to the first zero byte. */
  function CutName(n: seq<byte>): (name: seq<byte>)
    ensures |name| <= |n| && 0 !in name
  {
    if n == [] || n[0] == 0 then [] else [n[0]] + CutName(n[1..])
  }

  lemma {:induction false} CutWhole(name: seq<byte>, k: nat)
    requires 0 !in name
    ensures CutName(name + seq(k, _ => 0)) == name
    decreases |name|
  {
    var zeros := seq(k, _ => 0);
    if name == [] {
      assert name + zeros == zeros;
    } else {
      assert (name + zeros)[1..] == name[1..] + zeros;
      CutWhole(name[1..], k);
    }
  }

  /** Names that the sixteen bytes can hold. */
  predicate FitsName(name: seq<byte>) { |name| <= NameLen && 0 !in name }

  /** A name comes back exactly if it has at most sixteen bytes and none of them is zero. */
  lemma NameRoundTrip(name: seq<byte>)
    ensures CutName(Name16(name)) == name <==> FitsName(name)
  {
    if FitsName(name) {
      CutWhole(name, NameLen - |name|);
      if |name| == NameLen { assert name + seq(0, _ => 0) == Name16(name); }
    }
  }

  // ---------------------------------------------------------------- one entry

  /** What struct.pack accepts. */
  predicate Packable(e: Entry) {
    0 <= e.kind < 256 && 0 <= e.subtype < 256 && 0 <= e.offset < 0x1_0000_0000 && 0 <= e.size < 0x1_0000_0000
  }

  function EntryBytes(e: Entry): (b: seq<byte>)
    requires Packable(e)
    ensures |b| == EntryLen
  {
    [0xAA, 0x50, e.kind, e.subtype] + LE32(e.offset) + LE32(e.size) + Name16(e.name)
        + LE32(if e.encrypted then 1 else 0)
  }

  function ParseEntry(b: seq<byte>): Entry
    requires |b| == EntryLen
  {
    Entry(CutName(b[12..28]), b[2], b[3], FromLE32(b[4..8]), FromLE32(b[8..12]), FromLE32(b[28..32]) % 2 == 1)
  }

  predicate HasMagic(b: seq<byte>) { |b| == EntryLen && b[0] == 0xAA && b[1] == 0x50 }

  lemma EntryParts(e: Entry)
    requires Packable(e)
    ensures var b := EntryBytes(e);
            && HasMagic(b) && b[2] == e.kind && b[3] == e.subtype && b[4..8] == LE32(e.offset)
            && b[8..12] == LE32(e.size)
            && b[12..28] == Name16(e.name) && b[28..32] == LE32(if e.encrypted then 1 else 0)
  {
  }

  /** An entry comes back as it was, but for its name. */
  lemma EntryRoundTrip(e: Entry)
    requires Packable(e)
    ensures HasMagic(EntryBytes(e)) && ParseEntry(EntryBytes(e)) == e.(name := CutName(Name16(e.name)))
  {
    hide EntryBytes, LE32, FromLE32, Name16, CutName;
    EntryParts(e);
    FromToLE32(e.offset);
    FromToLE32(e.size);
    FromToLE32(if e.encrypted then 1 else 0);
  }

  // ---------------------------------------------------------------- tables

  datatype Binary = Packed(bytes: seq<byte>) | StructError | TooLong

  datatype Table = Loaded(entries: seq<Entry>) | BadLength | BadMagic | NoEndMarker

  predicate AllPackable(t: seq<Entry>) { t == [] || (Packable(t[0]) && AllPackable(t[1..])) }

  function EntriesBytes(t: seq<Entry>): (b: seq<byte>)
    requires AllPackable(t)
    ensures |b| == EntryLen * |t|
  {
    if t == [] then [] else EntryBytes(t[0]) + EntriesBytes(t[1..])
  }

  function Ones(n: nat): (b: seq<byte>)
    ensures |b| == n
  {
    seq(n, _ => 0xFF)
  }

  /** What to_binary gives: at most 95 entries fit. */
  function BinarySpec(t: seq<Entry>): Binary {
    if !AllPackable(t) then StructError
    else if EntryLen * |t| >= MaxPartitionLength then TooLong
    else Packed(EntriesBytes(t) + Ones(MaxPartitionLength - EntryLen * |t|))
  }

  lemma {:induction false} AppendPackable(t: seq<Entry>, e: Entry)
    ensures AllPackable(t + [e]) <==> AllPackable(t) && Packable(e)
    decreases |t|
  {
    if t == [] {
      assert t + [e] == [e] && [e][1..] == [];
    } else {
      assert (t + [e])[1..] == t[1..] + [e];
      AppendPackable(t[1..], e);
    }
  }

  lemma {:induction false} AppendBytes(t: seq<Entry>, e: Entry)
    requires AllPackable(t) && Packable(e)
    ensures AllPackable(t + [e]) && EntriesBytes(t + [e]) == EntriesBytes(t) + EntryBytes(e)
    decreases |t|
  {
    hide EntryBytes;
    AppendPackable(t, e);
    if t == [] {
      assert t + [e] == [e] && [e][1..] == [];
      assert EntriesBytes([e]) == EntryBytes(e) + [];
    } else {
      assert (t + [e])[1..] == t[1..] + [e];
      AppendBytes(t[1..], e);
    }
  }

  lemma {:induction false} PrefixPackable(t: seq<Entry>, i: nat)
    requires AllPackable(t) && i <= |t|
    ensures AllPackable(t[..i])
    decreases i
  {
    if i > 0 {
      assert t[..i][1..] == t[1..][..i - 1];
      PrefixPackable(t[1..], i - 1);
    }
  }

  /** PartitionTable.to_binary */
  method ToBinary(t: seq<Entry>) returns (r: Binary)
    ensures r == BinarySpec(t)
  {
    hide EntryBytes, Packable;
    var result: seq<byte> := [];
    for i := 0 to |t|
      invariant AllPackable(t[..i]) && result == EntriesBytes(t[..i])
    {
      assert t[..i + 1] == t[..i] + [t[i]];
      InRange(t[i]);
      if !(0 <= t[i].kind < 256 && 0 <= t[i].subtype < 256 && 0 <= t[i].offset < 0x1_0000_0000
          && 0 <= t[i].size < 0x1_0000_0000) {
        NotPackable(t, i);
        return StructError;
      }
      AppendBytes(t[..i], t[i]);
      result := result + EntryBytes(t[i]);
    }
    assert t[..|t|] == t;
    if |result| >= MaxPartitionLength { return TooLong; }
    return Packed(result + Ones(MaxPartitionLength - |result|));
  }

  lemma InRange(e: Entry)
    ensures Packable(e)
       <==> (0 <= e.kind < 256 && 0 <= e.subtype < 256
             && 0 <= e.offset < 0x1_0000_0000 && 0 <= e.size < 0x1_0000_0000)
  {
  }

  lemma NotPackable(t: seq<Entry>, i: nat)
    requires i < |t| && !Packable(t[i])
    ensures !AllPackable(t)
  {
    if AllPackable(t) {
      PrefixPackable(t, i + 1);
      assert t[..i + 1] == t[..i] + [t[i]];
      AppendPackable(t[..i], t[i]);
    }
  }

  /** What from_binary reads, entry by entry up to the end marker. */
  function TableSpec(b: seq<byte>): Table
    decreases |b|
  {
    if b == [] then NoEndMarker
    else if |b| < EntryLen then BadLength
    else if b[..EntryLen] == Ones(EntryLen) then Loaded([])
    else if !HasMagic(b[..EntryLen]) then BadMagic
    else Prepended([ParseEntry(b[..EntryLen])], TableSpec(b[EntryLen..]))
  }

  function Prepended(e: seq<Entry>, t: Table): Table { if t.Loaded? then Loaded(e + t.entries) else t }

  /** PartitionTable.from_binary */
  method FromBinary(b: seq<byte>) returns (t: Table)
    ensures t == TableSpec(b)
  {
    hide ParseEntry, HasMagic, Ones;
    var entries: seq<Entry>, o := [], 0;
    assert b[0..] == b;
    assert Prepended([], TableSpec(b)) == TableSpec(b) by { PrependedNothing(TableSpec(b)); }
    while o < |b|
      invariant o <= |b| && Prepended(entries, TableSpec(b[o..])) == TableSpec(b)
      decreases |b| - o
    {
      ghost var rest := b[o..];
      var data := b[o..if o + EntryLen <= |b| then o + EntryLen else |b|];
      if |data| != EntryLen { return BadLength; }
      assert data == rest[..EntryLen] && rest[EntryLen..] == b[o + EntryLen..];
      if data == Ones(EntryLen) {
        assert entries + [] == entries;
        return Loaded(entries);
      }
      if !HasMagic(data) { return BadMagic; }
      PrependedTwice(entries, [ParseEntry(data)], TableSpec(rest[EntryLen..]));
      entries := entries + [ParseEntry(data)];
      o := o + EntryLen;
    }
    return NoEndMarker;
  }

  lemma PrependedNothing(t: Table)
    ensures Prepended([], t) == t
  {
    if t.Loaded? { assert [] + t.entries == t.entries; }
  }

  lemma PrependedTwice(a: seq<Entry>, b: seq<Entry>, t: Table)
    ensures Prepended(a, Prepended(b, t)) == Prepended(a + b, t)
  {
    if t.Loaded? { assert a + (b + t.entries) == a + b + t.entries; }
  }

  // ---------------------------------------------------------------- round trip

  predicate AllNamesFit(t: seq<Entry>) { t == [] || (FitsName(t[0].name) && AllNamesFit(t[1..])) }

  /** The entries as they come back: names cut to what the field holds. */
  function Stored(t: seq<Entry>): (s: seq<Entry>)
    ensures |s| == |t|
  {
    if t == [] then [] else [t[0].(name := CutName(Name16(t[0].name)))] + Stored(t[1..])
  }

  lemma HeadAndTail(t: seq<Entry>, e: Entry, rest: seq<Entry>)
    requires t != []
    ensures [e] + rest == t <==> e == t[0] && rest == t[1..]
  {
    assert t == [t[0]] + t[1..];
    assert ([e] + rest)[0] == e && ([e] + rest)[1..] == rest;
  }

  lemma {:induction false} StoredExactly(t: seq<Entry>)
    ensures Stored(t) == t <==> AllNamesFit(t)
  {
    hide CutName, Name16, FitsName;
    if t != [] {
      NameRoundTrip(t[0].name);
      StoredExactly(t[1..]);
      HeadAndTail(t, t[0].(name := CutName(Name16(t[0].name))), Stored(t[1..]));
    }
  }

  lemma {:induction false} EntriesRead(t: seq<Entry>, n: nat)
    requires AllPackable(t) && n >= EntryLen
    ensures TableSpec(EntriesBytes(t) + Ones(n)) == Loaded(Stored(t))
    decreases |t|
  {
    hide EntryBytes, ParseEntry, Packable;
    var b := EntriesBytes(t) + Ones(n);
    if t == [] {
      assert b == Ones(n) && b[..EntryLen] == Ones(EntryLen);
    } else {
      var first, rest := EntryBytes(t[0]), EntriesBytes(t[1..]) + Ones(n);
      assert b == first + rest && b[..EntryLen] == first && b[EntryLen..] == rest;
      EntryRoundTrip(t[0]);
      assert first[0] != Ones(EntryLen)[0];
      EntriesRead(t[1..], n);
    }
  }

  /** A table that could be written is read back as it was exactly if every name has at most sixteen bytes,
      none of them zero. */
  lemma TableRoundTrip(t: seq<Entry>)
    requires BinarySpec(t).Packed?
    ensures TableSpec(BinarySpec(t).bytes) == Loaded(Stored(t))
    ensures TableSpec(BinarySpec(t).bytes) == Loaded(t) <==> AllNamesFit(t)
    ensures |BinarySpec(t).bytes| == MaxPartitionLength
  {
    hide EntriesBytes, Stored, TableSpec, AllPackable, AllNamesFit;
    EntriesRead(t, MaxPartitionLength - EntryLen * |t|);
    StoredExactly(t);
  }

  /** From lines without offsets to the binary table and back: laid out, accepted, and unchanged by the trip. */
  lemma OmittedOffsetsSurvive(lines: seq<Line>)
    requires OffsetsOmitted(lines) && BinarySpec(LaidOut(lines, FirstOffset)).Packed?
    requires AllNamesFit(LaidOut(lines, FirstOffset))
    ensures var t := LaidOut(lines, FirstOffset);
            Accepted(t) && TableSpec(BinarySpec(t).bytes) == Loaded(t)
  {
    hide LaidOut, BinarySpec, TableSpec;
    LayoutAccepted(lines);
    TableRoundTrip(LaidOut(lines, FirstOffset));
  }

  // ---------------------------------------------------------------- what is read, and the bytes themselves

  /** Entry `i` of the binary table is there, with its magic bytes. */
  predicate MagicAt(b: seq<byte>, i: nat) { 32 * i + 32 <= |b| && b[32 * i] == 0xAA && b[32 * i + 1] == 0x50 }

  function ReadEntries(b: seq<byte>, n: nat): (t: seq<Entry>)
    requires 32 * n <= |b|
    ensures |t| == n
  {
    seq(n, i requires 0 <= i < n => ParseEntry(b[32 * i..32 * i + 32]))
  }

  lemma ReadEntriesCons(b: seq<byte>, n: nat)
    requires 0 < n && 32 * n <= |b|
    ensures ReadEntries(b, n) == [ParseEntry(b[..32])] + ReadEntries(b[32..], n - 1)
  {
    hide ParseEntry;
    forall i | 0 < i < n ensures b[32 * i..32 * i + 32] == b[32..][32 * (i - 1)..32 * (i - 1) + 32] {
    }
    assert b[32 * 0..32 * 0 + 32] == b[..32];
  }

  /** Whatever the file is: behind its first `n` entries with magic bytes, what comes next decides. */
  lemma {:induction false} ReadDecides(b: seq<byte>, n: nat)
    requires 32 * n <= |b| && forall i :: 0 <= i < n ==> MagicAt(b, i)
    ensures |b| == 32 * n ==> TableSpec(b) == NoEndMarker
    ensures 32 * n < |b| < 32 * n + 32 ==> TableSpec(b) == BadLength
    ensures |b| >= 32 * n + 32 && (forall k :: 32 * n <= k < 32 * n + 32 ==> b[k] == 0xFF) ==>
              TableSpec(b) == Loaded(ReadEntries(b, n))
    ensures |b| >= 32 * n + 32 && !MagicAt(b, n) && (exists k :: 32 * n <= k < 32 * n + 32 && b[k] != 0xFF) ==>
              TableSpec(b) == BadMagic
    decreases n
  {
    hide ParseEntry;
    if n == 0 {
      if |b| >= 32 {
        MarkerExactly(b);
        assert ReadEntries(b, 0) == [];
      }
    } else {
      var tail := b[32..];
      assert MagicAt(b, 0) && b[..32][0] == 0xAA && Ones(32)[0] == 0xFF;
      forall i | 0 <= i < n - 1 ensures MagicAt(tail, i) { assert MagicAt(b, i + 1); }
      assert MagicAt(tail, n - 1) <==> MagicAt(b, n);
      assert forall k :: 32 * n <= k < |b| ==> b[k] == tail[k - 32];
      ReadDecides(tail, n - 1);
      ReadEntriesCons(b, n);
    }
  }

  lemma MarkerExactly(b: seq<byte>)
    requires |b| >= 32
    ensures b[..32] == Ones(32) <==> forall k :: 0 <= k < 32 ==> b[k] == 0xFF
  {
  }

  /** The row of nvs, data of subtype 2, at 0x9000 with 0x15000 bytes, encrypted, byte for byte. */
  lemma EntryExample()
    ensures EntryBytes(Entry([0x6E, 0x76, 0x73], 1, 2, 0x9000, 0x1_5000, true))
         == [0xAA, 0x50, 0x01, 0x02] + [0x00, 0x90, 0x00, 0x00] + [0x00, 0x50, 0x01, 0x00]
            + ([0x6E, 0x76, 0x73] + seq(13, _ => 0)) + [0x01, 0x00, 0x00, 0x00]
  {
    hide LE32;
    NumberBytes(0x9000, 0x00, 0x90, 0x00, 0x00);
    NumberBytes(0x1_5000, 0x00, 0x50, 0x01, 0x00);
    NumberBytes(1, 0x01, 0x00, 0x00, 0x00);
  }

  /** A written table: its entries one after the other, and 0xFF up to 3072 bytes; 96 entries are too many. */
  lemma BinaryForm(t: seq<Entry>)
    ensures var r := BinarySpec(t);
            && (r == StructError <==> exists i :: 0 <= i < |t| && !Packable(t[i]))
            && (r == TooLong <==> AllPackable(t) && |t| >= 96)
            && (r.Packed? ==> |r.bytes| == 3072 && r.bytes[..32 * |t|] == EntriesBytes(t)
                              && forall k :: 32 * |t| <= k < 3072 ==> r.bytes[k] == 0xFF)
  {
    hide Packable, EntryBytes;
    if AllPackable(t) {
      forall i | 0 <= i < |t| ensures Packable(t[i]) {
        if !Packable(t[i]) { NotPackable(t, i); }
      }
    } else {
      var i := SomeNotPackable(t);
    }
  }

  lemma {:induction false} SomeNotPackable(t: seq<Entry>) returns (i: nat)
    requires !AllPackable(t)
    ensures i < |t| && !Packable(t[i])
  {
    hide Packable;
    if !Packable(t[0]) { i := 0; } else { var j := SomeNotPackable(t[1..]); i := j + 1; }
  }
}
