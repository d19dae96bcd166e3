/** cbuf.cpp: a ring buffer that is a bounded first-in first-out queue. */
module CBuf {
  import opened IntBytes
  import opened Splicing

  // ---------------------------------------------------------------- rings, on values

  /** The cells from `begin` to `end`, around the end of the buffer if need be. */
  function Ring(s: seq<byte>, begin: nat, end: nat): (q: seq<byte>)
    requires begin <= |s| && end <= |s|
    ensures |q| == if begin <= end then end - begin else |s| - begin + end
  {
    if begin <= end then s[begin..end] else s[begin..] + s[..end]
  }

  function Wrap(size: nat, p: nat): nat { if p == size then 0 else p }

  /** The first `n` bytes stand in one piece. */
  lemma TakeStraight(s: seq<byte>, begin: nat, end: nat, n: nat)
    requires begin < |s| && end < |s| && n <= |Ring(s, begin, end)| && (begin <= end || n <= |s| - begin)
    ensures begin + n <= |s| && s[begin..begin + n] == Ring(s, begin, end)[..n]
    ensures Ring(s, Wrap(|s|, begin + n), end) == Ring(s, begin, end)[n..]
  {
  }

  /** The first `n` bytes stand in two pieces around the end of the buffer. */
  lemma TakeAround(s: seq<byte>, begin: nat, end: nat, n: nat)
    requires end < begin < |s| && |s| - begin < n <= |Ring(s, begin, end)|
    ensures n - (|s| - begin) <= end
    ensures s[begin..] + s[..n - (|s| - begin)] == Ring(s, begin, end)[..n]
    ensures Ring(s, Wrap(|s|, n - (|s| - begin)), end) == Ring(s, begin, end)[n..]
  {
  }

  lemma Slices(t: seq<byte>, a: nat, b: nat, c: nat)
    requires a <= b <= c <= |t|
    ensures t[a..c] == t[a..b] + t[b..c] && t[a..b] == t[..b][a..] && t[b..c] == t[b..][..c - b]
    ensures t[0..c] == t[..c] && t[a..|t|] == t[a..]
  {
  }

  lemma PutBehind(s: seq<byte>, begin: nat, end: nat, d: seq<byte>)
    requires begin <= end < |s| && end - begin + |d| < |s| && |d| <= |s| - end
    ensures Ring(Splice(s, end, d), begin, Wrap(|s|, end + |d|)) == s[begin..end] + d
  {
    hide Splice;
    var t, stop := Splice(s, end, d), end + |d|;
    SpliceParts(s, end, d);
    Slices(t, begin, end, stop);
    Slices(s, begin, end, end);
    Slices(t, begin, stop, stop);
    if stop == |s| { assert t[..0] == []; }
  }

  lemma PutInGap(s: seq<byte>, begin: nat, end: nat, d: seq<byte>)
    requires end < begin < |s| && end + |d| < begin
    ensures Ring(Splice(s, end, d), begin, end + |d|) == s[begin..] + s[..end] + d
  {
    hide Splice;
    var t, stop := Splice(s, end, d), end + |d|;
    SpliceParts(s, end, d);
    Slices(t, 0, end, stop);
    assert t[begin..] == t[stop..][begin - stop..] == s[stop..][begin - stop..] == s[begin..];
    assert s[begin..] + s[..end] + d == s[begin..] + (s[..end] + d);
  }

  /** `d` is appended in one piece. */
  lemma PutStraight(s: seq<byte>, begin: nat, end: nat, d: seq<byte>)
    requires begin < |s| && end < |s| && |Ring(s, begin, end)| + |d| < |s| && (end < begin || |d| <= |s| - end)
    ensures end + |d| <= |s|
    ensures Ring(Splice(s, end, d), begin, Wrap(|s|, end + |d|)) == Ring(s, begin, end) + d
  {
    hide Splice;
    if begin <= end { PutBehind(s, begin, end, d); } else { PutInGap(s, begin, end, d); }
  }

  /** `d + e` is appended in two pieces around the end of the buffer. */
  lemma PutAround(s: seq<byte>, begin: nat, end: nat, d: seq<byte>, e: seq<byte>)
    requires begin <= end < |s| && |d| == |s| - end && |Ring(s, begin, end)| + |d| + |e| < |s|
    ensures var t := Splice(Splice(s, end, d), 0, e);
            Ring(t, begin, Wrap(|s|, |e|)) == Ring(s, begin, end) + (d + e)
  {
    hide Splice;
    var u := Splice(s, end, d);
    var t := Splice(u, 0, e);
    SpliceParts(s, end, d);
    SpliceParts(u, 0, e);
    AroundPieces(s, u, t, begin, end, d, e);
  }

  lemma AroundPieces(s: seq<byte>, u: seq<byte>, t: seq<byte>, begin: nat, end: nat, d: seq<byte>, e: seq<byte>)
    requires begin <= end < |s| == |u| == |t| && |d| == |s| - end && |e| < begin
    requires u[..end] == s[..end] && u[end..end + |d|] == d && t[0..0 + |e|] == e && t[0 + |e|..] == u[0 + |e|..]
    ensures t[begin..] + t[..|e|] == s[begin..end] + (d + e)
  {
    var x, y := t[begin..] + t[..|e|], s[begin..end] + (d + e);
    assert |x| == |y|;
    forall i | 0 <= i < |x| ensures x[i] == y[i] {
      if i < |s| - begin {
        assert x[i] == t[begin + i] == t[0 + |e|..][begin + i - |e|] == u[begin + i];
        if i < end - begin {
          assert u[begin + i] == u[..end][begin + i] == s[begin + i];
        } else {
          assert u[begin + i] == u[end..end + |d|][begin + i - end];
        }
      } else {
        assert x[i] == t[0..0 + |e|][i - (|s| - begin)];
      }
    }
  }

  // ---------------------------------------------------------------- the buffer

  class Cbuf {
    var size: nat
    var buf: array<byte>
    var begin: nat
    var end: nat
    // every byte accepted so far, and how many of them have left again
    ghost var accepted: seq<byte>
    ghost var left: nat

    ghost predicate Valid()
      reads this, buf
    {
      && 0 < size == buf.Length && begin < size && end < size
      && left <= |accepted| && Contents() == accepted[left..]
    }

    ghost function Contents(): (q: seq<byte>)
      requires 0 < size == buf.Length && begin < size && end < size
      reads this, buf
      ensures |q| < size
    {
      Ring(buf[..], begin, end)
    }

    constructor (capacity: nat)
      ensures Valid() && fresh(buf) && size == capacity + 1 && Contents() == [] && accepted == []
    {
      size := capacity + 1;
      buf := new byte[capacity + 1];
      begin, end := 0, 0;
      accepted, left := [], 0;
    }

    method Available() returns (n: nat)
      requires Valid()
      ensures n == |Contents()|
    {
      if end >= begin { return end - begin; }
      return size - (begin - end);
    }

    method Room() returns (n: nat)
      requires Valid()
      ensures n == size - 1 - |Contents()|
    {
      if end >= begin { return size - (end - begin) - 1; }
      return begin - end - 1;
    }

    /** peek() */
    method PeekChar() returns (c: int)
      requires Valid()
      ensures c == if Contents() == [] then -1 else Contents()[0]
    {
      if begin == end { return -1; }
      return buf[begin];
    }

    /** memcpy from the ring into the caller's buffer. */
    method CopyOut(dst: array<byte>, at: nat, from: nat, n: nat)
      requires at + n <= dst.Length && from + n <= buf.Length && dst != buf
      modifies dst
      ensures dst[..] == Splice(old(dst[..]), at, buf[..][from..from + n])
    {
      ghost var before, d := dst[..], buf[..][from..from + n];
      forall k | 0 <= k < n { dst[at + k] := buf[from + k]; }
      assert d == buf[..][from..from + n];
      assert dst[..] == Splice(before, at, d);
    }

    /** memcpy into the ring. */
    method CopyIn(to: nat, src: seq<byte>)
      requires to + |src| <= buf.Length
      modifies buf
      ensures buf[..] == Splice(old(buf[..]), to, src)
    {
      forall k | 0 <= k < |src| { buf[to + k] := src[k]; }
      assert buf[..] == Splice(old(buf[..]), to, src);
    }

    /** peek(dst, size): copies from the front without taking; also tells where the rest begins. */
    method PeekBulk(dst: array<byte>, n: nat) returns (read: nat, next: nat)
      requires Valid() && dst != buf && n <= dst.Length
      modifies dst
      ensures Valid() && Contents() == old(Contents()) && accepted == old(accepted)
      ensures read == if n < |Contents()| then n else |Contents()|
      ensures dst[..] == Splice(old(dst[..]), 0, Contents()[..read])
      ensures next < size && Ring(buf[..], next, end) == Contents()[read..]
    {
      hide Ring, Splice;
      var available := Available();
      var toRead := if n < available then n else available;
      read := toRead;
      ghost var before := dst[..];
      if end < begin && toRead > size - begin {
        var topSize := size - begin;
        TakeAround(buf[..], begin, end, toRead);
        CopyOut(dst, 0, begin, topSize);
        toRead := toRead - topSize;
        CopyOut(dst, topSize, 0, toRead);
        SpliceTwice(before, buf[..][begin..begin + topSize], buf[..][0..toRead]);
        SameSlices(buf[..], begin, toRead);
        next := Wrap(size, toRead);
      } else {
        TakeStraight(buf[..], begin, end, toRead);
        CopyOut(dst, 0, begin, toRead);
        next := Wrap(size, begin + toRead);
      }
    }

    /** read() */
    method ReadChar() returns (c: int)
      requires Valid()
      modifies this
      ensures Valid() && buf == old(buf) && size == old(size) && accepted == old(accepted)
      ensures if old(Contents()) == [] then c == -1 && Contents() == []
              else c == old(Contents())[0] && Contents() == old(Contents())[1..]
    {
      if begin == end { return -1; }
      TakeStraight(buf[..], begin, end, 1);
      c := buf[begin];
      begin := Wrap(size, begin + 1);
      left := left + 1;
    }

    /** read(dst, size): the same copy, and the bytes are taken. */
    method ReadBulk(dst: array<byte>, n: nat) returns (read: nat)
      requires Valid() && dst != buf && n <= dst.Length
      modifies this, dst
      ensures Valid() && buf == old(buf) && size == old(size) && accepted == old(accepted)
      ensures read == if n < |old(Contents())| then n else |old(Contents())|
      ensures dst[..] == Splice(old(dst[..]), 0, old(Contents())[..read])
      ensures Contents() == old(Contents())[read..]
    {
      hide Ring, Splice;
      read, begin := PeekBulk(dst, n);
      left := left + read;
    }

    /** write(c) */
    method WriteChar(c: byte) returns (written: nat)
      requires Valid()
      modifies this, buf
      ensures Valid() && buf == old(buf) && size == old(size)
      ensures written == if |old(Contents())| == size - 1 then 0 else 1
      ensures Contents() == if written == 0 then old(Contents()) else old(Contents()) + [c]
      ensures accepted == if written == 0 then old(accepted) else old(accepted) + [c]
    {
      if Wrap(size, end + 1) == begin { return 0; }
      PutStraight(buf[..], begin, end, [c]);
      CopyIn(end, [c]);
      end := Wrap(size, end + 1);
      accepted := accepted + [c];
      return 1;
    }

    /** write(src, size): as much as there is room for, in one piece or in two. */
    method WriteBulk(src: seq<byte>) returns (written: nat)
      requires Valid()
      modifies this, buf
      ensures Valid() && buf == old(buf) && size == old(size)
      ensures written == if |src| < size - 1 - |old(Contents())| then |src| else size - 1 - |old(Contents())|
      ensures Contents() == old(Contents()) + src[..written]
      ensures accepted == old(accepted) + src[..written]
    {
      hide Ring, Splice;
      var room := Room();
      var toWrite := if |src| < room then |src| else room;
      written := toWrite;
      if end >= begin && toWrite > size - end {
        var topSize := size - end;
        PutAround(buf[..], begin, end, src[..topSize], src[topSize..toWrite]);
        assert src[..topSize] + src[topSize..toWrite] == src[..toWrite];
        CopyIn(end, src[..topSize]);
        CopyIn(0, src[topSize..toWrite]);
        end := Wrap(size, toWrite - topSize);
      } else {
        PutStraight(buf[..], begin, end, src[..toWrite]);
        CopyIn(end, src[..toWrite]);
        end := Wrap(size, end + toWrite);
      }
      DropAppend(accepted, left, src[..written]);
      accepted := accepted + src[..written];
    }

    method Flush()
      requires Valid()
      modifies this
      ensures Valid() && buf == old(buf) && size == old(size) && accepted == old(accepted)
      ensures Contents() == []
    {
      begin, end := 0, 0;
      left := |accepted|;
    }

    /** remove(size): drops from the front and tells what remains. */
    method Remove(n: nat) returns (remaining: nat)
      requires Valid()
      modifies this
      ensures Valid() && buf == old(buf) && size == old(size) && accepted == old(accepted)
      ensures Contents() == if n < |old(Contents())| then old(Contents())[n..] else []
      ensures remaining == |Contents()|
    {
      hide Ring;
      var available := Available();
      if n >= available {
        Flush();
        return 0;
      }
      var toRemove := n;
      if end < begin && toRemove > size - begin {
        TakeAround(buf[..], begin, end, n);
        toRemove := toRemove - (size - begin);
        begin := 0;
      } else {
        TakeStraight(buf[..], begin, end, n);
      }
      begin := Wrap(size, begin + toRemove);
      left := left + n;
      remaining := Available();
    }

    /** resize(newSize).  The contents survive in order; but the buffer is still usable afterwards exactly if
        a cell was left over, that is unless newSize + 1 equals the number of bytes held. */
    method Resize(newSize: nat, allocOk: bool) returns (result: nat)
      requires Valid()
      modifies this
      ensures result == size
      ensures newSize + 1 < |old(Contents())| || newSize + 1 == old(size) || !allocOk ==>
                Valid() && buf == old(buf) && size == old(size) && Contents() == old(Contents())
      ensures !(newSize + 1 < |old(Contents())| || newSize + 1 == old(size) || !allocOk) ==>
                && fresh(buf) && size == buf.Length == newSize + 1 && begin == 0 && end == |old(Contents())|
                && buf[..end] == old(Contents()) && forall k :: end <= k < size ==> buf[k] == 0
      ensures Valid() <==> newSize + 1 != |old(Contents())| || newSize + 1 == old(size) || !allocOk
      ensures Valid() ==> Contents() == old(Contents()) && accepted == old(accepted)
    {
      hide Splice;
      var available := Available();
      if newSize + 1 < available || newSize + 1 == size { return size; }
      if !allocOk { return size; }
      var newBuf := new byte[newSize + 1](_ => 0);
      ghost var contents, zeros := Contents(), newBuf[..];
      var read := ReadBulk(newBuf, available);
      assert contents[..read] == contents;
      SpliceOnce(zeros, contents);
      SpliceParts(zeros, 0, contents);
      forall k | available <= k < newBuf.Length ensures newBuf[k] == 0 {
        assert newBuf[k] == newBuf[..][0 + available..][k - available] == zeros[k];
      }
      left := left - read;
      assert newBuf[..available] == contents;
      begin, end, size, buf := 0, available, newSize + 1, newBuf;
      assert buf[..][0..end] == buf[..end];
      return size;
    }
  }

  lemma DropAppend(a: seq<byte>, n: nat, d: seq<byte>)
    requires n <= |a|
    ensures (a + d)[n..] == a[n..] + d
  {
  }

  lemma SameSlices(s: seq<byte>, begin: nat, n: nat)
    requires begin <= |s| && n <= |s|
    ensures s[begin..begin + (|s| - begin)] == s[begin..] && s[0..n] == s[..n]
  {
  }
}
