/** The SPI NOR flash chip behind the SPIFlash library, which is not part of this model:
  erasing sets a 4096-byte sector to 0xFF, programming can only clear bits, and a write with
  the check flag reads the range back.  A faulty operation leaves arbitrary bytes in its range. */
module FlashDevice {
  import opened BitBytes
  import opened Splicing

  const SectorBytes := 4096

  datatype Outcome = Healthy | Faulty(residue: nat -> byte)

  function ErasedSector(outcome: Outcome): (d: seq<byte>)
    ensures |d| == SectorBytes
  {
    seq(SectorBytes, i requires 0 <= i < SectorBytes => if outcome.Healthy? then 0xFF else outcome.residue(i))
  }

  function Programmed(cells: seq<byte>, data: seq<byte>, outcome: Outcome): (d: seq<byte>)
    requires |cells| == |data|
    ensures |d| == |data|
  {
    seq(|data|, i requires 0 <= i < |data| => if outcome.Healthy? then cells[i] & data[i] else outcome.residue(i))
  }

  /** What one checked write does to the contents `mem`. */
  ghost predicate Written(mem: seq<byte>, mem': seq<byte>, at: nat, d: seq<byte>, outcome: Outcome, ok: bool)
  {
    && at + |d| <= |mem| && mem' == Splice(mem, at, Programmed(mem[at..at + |d|], d, outcome))
    && (ok <==> mem'[at..at + |d|] == d)
  }

  class SpiFlash {
    const cells: array<byte>

    constructor (capacity: nat)
      ensures fresh(cells) && cells.Length == capacity
    {
      cells := new byte[capacity];
    }

    function Capacity(): nat { cells.Length }

    /** Erases the sector that contains `addr`. */
    method EraseSector(addr: nat, outcome: Outcome)
      requires addr < cells.Length && cells.Length % SectorBytes == 0
      modifies cells
      ensures cells[..] == Splice(old(cells[..]), addr / SectorBytes * SectorBytes, ErasedSector(outcome))
    {
      var base := addr / SectorBytes * SectorBytes;
      var d := ErasedSector(outcome);
      SpliceElements(cells[..], base, d);
      forall i | 0 <= i < SectorBytes {
        cells[base + i] := d[i];
      }
    }

    /** Programs `data` at `addr` and reports whether the range then reads back as `data`. */
    method WriteByteArray(addr: nat, data: seq<byte>, outcome: Outcome) returns (ok: bool)
      requires addr + |data| <= cells.Length
      modifies cells
      ensures Written(old(cells[..]), cells[..], addr, data, outcome, ok)
    {
      var d := Programmed(cells[addr..addr + |data|], data, outcome);
      SpliceElements(cells[..], addr, d);
      forall i | 0 <= i < |data| {
        cells[addr + i] := d[i];
      }
      ok := cells[addr..addr + |data|] == data;
    }

    /** Copies `len` bytes from `addr` into `buff` at `at`, unless the bus fails. */
    method ReadByteArray(addr: nat, buff: array<byte>, at: nat, len: nat, busOk: bool) returns (ok: bool)
      requires addr + len <= cells.Length && at + len <= buff.Length && buff != cells
      modifies buff
      ensures ok == busOk
      ensures buff[..] == if busOk then Splice(old(buff[..]), at, cells[addr..addr + len]) else old(buff[..])
    {
      hide Splice;
      if busOk {
        ghost var before, d := buff[..], cells[addr..addr + len];
        SpliceElements(before, at, d);
        forall i | 0 <= i < len {
          buff[at + i] := cells[addr + i];
        }
        assert buff[..] == Splice(before, at, d) && d == cells[addr..addr + len];
      }
      ok := busOk;
    }
  }
}
