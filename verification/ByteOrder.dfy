/** Numbers as bytes, lowest byte first. */
module ByteOrder {
  import opened IntBytes

  function LittleEndian(n: nat, k: nat): (b: seq<byte>)
    ensures |b| == k
    decreases k, n
  {
    if k == 0 then [] else [n % 256] + LittleEndian(n / 256, k - 1)
  }

  function Value(b: seq<byte>): nat {
    if b == [] then 0 else b[0] as nat + 256 * Value(b[1..])
  }

  function Pow256(k: nat): nat
    decreases k
  {
    if k == 0 then 1 else 256 * Pow256(k - 1)
  }

  lemma {:induction false} ValueLittleEndian(n: nat, k: nat)
    requires n < Pow256(k)
    ensures Value(LittleEndian(n, k)) == n
    decreases k
  {
    if k > 0 { ValueLittleEndian(n / 256, k - 1); }
  }

  function LE32(n: nat): (b: seq<byte>)
    ensures |b| == 4
  {
    LittleEndian(n, 4)
  }

  function FromLE32(b: seq<byte>): nat
    requires |b| == 4
  {
    Value(b)
  }

  lemma FromToLE32(n: nat)
    requires n < 0x1_0000_0000
    ensures FromLE32(LE32(n)) == n
  {
    ValueLittleEndian(n, 4);
  }

  /** Four bytes make a number below 2^32, the first one counting least. */
  lemma ValueOfFour(b: seq<byte>)
    requires |b| == 4
    ensures FromLE32(b) == b[0] as int + 0x100 * (b[1] as int) + 0x1_0000 * (b[2] as int) + 0x100_0000 * (b[3] as int)
    ensures FromLE32(b) < 0x1_0000_0000
  {
    var b1, b2, b3 := b[1..], b[2..], b[3..];
    assert b1[1..] == b2 && b2[1..] == b3 && b3[1..] == [];
    assert Value(b3) == b[3] && Value(b2) == b[2] + 256 * Value(b3) && Value(b1) == b[1] + 256 * Value(b2);
  }

  lemma {:induction false} LittleEndianValue(b: seq<byte>)
    ensures LittleEndian(Value(b), |b|) == b
  {
    if b != [] { LittleEndianValue(b[1..]); }
  }

  lemma ToFromLE32(b: seq<byte>)
    requires |b| == 4
    ensures LE32(FromLE32(b)) == b && FromLE32(b) < 0x1_0000_0000
  {
    LittleEndianValue(b);
    ValueOfFour(b);
  }

  /** The bytes of a number, named one by one. */
  lemma NumberBytes(n: nat, a: byte, b: byte, c: byte, d: byte)
    requires n == a as int + 0x100 * (b as int) + 0x1_0000 * (c as int) + 0x100_0000 * (d as int)
    ensures LE32(n) == [a, b, c, d]
  {
    ValueOfFour([a, b, c, d]);
    ToFromLE32([a, b, c, d]);
  }
}
