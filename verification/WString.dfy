/** String::replace of WString.cpp, rewriting the buffer in place. */
module WString {
  import opened ReplaceSpec
  import opened Splicing

  lemma {:induction false} LastExtends(s: string, f: string, a: int, b: int)
    requires -1 <= a <= b && forall j: nat :: a < j <= b ==> !Occurs(s, f, j)
    ensures LastUpTo(s, f, b) == LastUpTo(s, f, a)
    decreases b - a
  {
    hide Occurs;
    if a < b { LastExtends(s, f, a, b - 1); }
  }

  lemma {:induction false} NoneLeft(s: string, f: string, from: int)
    requires |f| > |s|
    ensures LastUpTo(s, f, from) == -1
    decreases from
  {
    hide Occurs;
    if from >= 0 {
      TooFar(s, f, from);
      NoneLeft(s, f, from - 1);
    }
  }

  class String {
    var buffer: array?<char>
    var capacity: nat
    var len: nat

    /** A terminated text without inner zeros, or no buffer at all for the empty string. */
    ghost predicate Valid()
      reads this, buffer
    {
      if buffer == null then len == capacity == 0
      else buffer.Length == capacity + 1 && len <= capacity && buffer[len] == '\0' && '\0' !in buffer[..len]
    }

    ghost function Text(): string
      requires Valid()
      reads this, buffer
    {
      if buffer == null then [] else buffer[..len]
    }

    /** strstr from `from` on, in a buffer whose text ends at `end`. */
    method Strstr(find: string, from: nat, end: nat) returns (i: int)
      requires buffer != null && Terminated(buffer[..], from, end)
      ensures i == FirstFrom(buffer[..][..end], find, from)
    {
      i := FirstFrom(buffer[..end], find, from);
    }

    /** memcpy and memmove into the buffer. */
    method Paste(at: nat, d: seq<char>)
      requires buffer != null && at + |d| <= buffer.Length
      modifies buffer
      ensures buffer[..] == Splice(old(buffer[..]), at, d)
    {
      forall k | 0 <= k < |d| { buffer[at + k] := d[k]; }
      assert buffer[..] == Splice(old(buffer[..]), at, d);
    }

    /** changeBuffer: a zeroed buffer of the next multiple of sixteen, with the text;
        without memory the buffer is gone. */
    method ChangeBuffer(maxStrLen: nat, mallocOk: bool) returns (ok: bool)
      requires Valid() && buffer != null && len <= maxStrLen
      modifies this
      ensures ok == mallocOk && len == old(len)
      ensures ok ==> Valid() && buffer != null && fresh(buffer) && Text() == old(Text())
      ensures ok ==> capacity == RoundedUp(maxStrLen)
      ensures !ok ==> buffer == null
    {
      var newSize := (maxStrLen + 16) / 16 * 16;
      if !mallocOk {
        buffer := null;
        return false;
      }
      var newBuffer := new char[newSize](_ => '\0');
      forall k | 0 <= k < len { newBuffer[k] := buffer[k]; }
      assert newBuffer[..len] == buffer[..len];
      capacity := newSize - 1;
      buffer := newBuffer;
      return true;
    }

    /** lastIndexOf(s2, fromIndex): forward searches, remembering the last hit at or before the index. */
    method LastIndexOf(s2: string, fromIndex0: nat) returns (found: int)
      requires Valid()
      ensures found == if s2 == [] || len == 0 then -1
                       else LastUpTo(Text(), s2, if fromIndex0 >= len then len - 1 else fromIndex0)
    {
      hide Occurs, LastUpTo, FirstFrom;
      if |s2| == 0 || len == 0 { return -1; }
      var fromIndex := if fromIndex0 >= len then len - 1 else fromIndex0;
      if |s2| > len {
        NoneLeft(Text(), s2, fromIndex);
        return -1;
      }
      found := -1;
      var p := 0;
      EmptyPrefix(Text(), s2);
      while p <= fromIndex
        invariant p <= len
        invariant found == LastUpTo(Text(), s2, if p <= fromIndex then p - 1 else fromIndex)
        decreases len - p
      {
        FirstIsFirst(Text(), s2, p);
        assert buffer[..][..len] == buffer[..len];
        var next := Strstr(s2, p, len);
        if next < 0 {
          LastExtends(Text(), s2, p - 1, fromIndex);
          break;
        }
        StartsInside(Text(), s2, next);
        if next <= fromIndex {
          HitExtends(Text(), s2, next);
          found := next;
        } else {
          LastExtends(Text(), s2, p - 1, fromIndex);
        }
        p := next + 1;
      }
    }

    /** Equal lengths: each occurrence is overwritten where it stands. */
    method ReplaceEqual(find: string, replacement: string)
      requires Valid() && buffer != null && find != [] && |find| == |replacement| && '\0' !in replacement
      modifies buffer
      ensures Valid() && Text() == ReplaceAll(old(Text()), find, replacement)
    {
      hide EqualState, Terminated, ReplaceAll, FirstFrom, Splice;
      ghost var all := ReplaceAll(Text(), find, replacement);
      var readFrom := 0;
      EqualStart(buffer[..], len, find, replacement);
      assert buffer[..][..len] == buffer[..len];
      while true
        invariant buffer.Length == capacity + 1 && len <= capacity
        invariant EqualState(buffer[..], len, readFrom, find, replacement, all)
        decreases len - readFrom
      {
        EqualSearch(buffer[..], len, readFrom, find, replacement, all);
        var foundAt := Strstr(find, readFrom, len);
        if foundAt < 0 { break; }
        EqualStep(buffer[..], len, readFrom, foundAt, find, replacement, all);
        Paste(foundAt, replacement);
        readFrom := foundAt + |replacement|;
      }
      assert buffer[..][..len] == buffer[..len] && buffer[..][len] == buffer[len];
    }

    /** Shorter replacement: the text moves down as it is read. */
    method ReplaceShrinking(find: string, replacement: string)
      requires Valid() && buffer != null && |find| > |replacement| && '\0' !in replacement
      modifies buffer, `len
      ensures Valid() && Text() == ReplaceAll(old(Text()), find, replacement)
    {
      hide ShrinkState, Terminated, ReplaceAll, FirstFrom, Splice;
      ghost var all := ReplaceAll(Text(), find, replacement);
      var readFrom: nat, writeTo: nat := 0, 0;
      var end := len;   // where strstr and strcpy find the terminating zero
      ShrinkStart(buffer[..], len, find, replacement);
      assert buffer[..][..len] == buffer[..len];
      while true
        invariant buffer.Length == capacity + 1 && len <= end
        invariant ShrinkState(buffer[..], end, readFrom, writeTo, len, find, replacement, all)
        decreases end - readFrom
      {
        ShrinkSearch(buffer[..], end, readFrom, writeTo, len, find, replacement, all);
        var foundAt := Strstr(find, readFrom, end);
        if foundAt < 0 { break; }
        ShrinkStep(buffer[..], end, readFrom, writeTo, len, foundAt, find, replacement, all);
        var n := foundAt - readFrom;
        Paste(writeTo, buffer[..][readFrom..foundAt]);
        writeTo := writeTo + n;
        Paste(writeTo, replacement);
        writeTo := writeTo + |replacement|;
        readFrom := foundAt + |find|;
        len := len - (|find| - |replacement|);
      }
      ShrinkEnd(buffer[..], end, readFrom, writeTo, len, find, replacement, all);
      Paste(writeTo, buffer[..][readFrom..end + 1]);
      assert buffer[..][..len] == buffer[..len] && buffer[..][len] == buffer[len];
    }

    /** The size of the result, counted before the text grows. */
    method CountSize(find: string, replacement: string) returns (size: nat)
      requires Valid() && buffer != null && 0 < |find| < |replacement|
      ensures size == |ReplaceAll(Text(), find, replacement)|
      ensures size == len ==> ReplaceAll(Text(), find, replacement) == Text()
    {
      hide ReplaceAll, FirstFrom;
      ghost var t := Text();
      var readFrom := 0;
      size := len;
      assert t[0..] == t && buffer[..][..len] == t;
      while true
        invariant readFrom <= len <= size && (size == len ==> readFrom == 0)
        invariant size + |ReplaceAll(t[readFrom..], find, replacement)|
                  == |ReplaceAll(t, find, replacement)| + (len - readFrom)
        decreases len - readFrom
      {
        SearchStep(t, find, replacement, readFrom);
        assert '\0' !in buffer[..][readFrom..len];
        var foundAt := Strstr(find, readFrom, len);
        if foundAt < 0 { break; }
        readFrom := foundAt + |find|;
        size := size + (|replacement| - |find|);
      }
    }

    /** The loop from the last occurrence to the first, in a buffer with room for the result. */
    method GrowInPlace(find: string, replacement: string, ghost all: string)
      requires buffer != null && buffer.Length == capacity + 1
      requires 0 < |find| < |replacement| && '\0' !in replacement
      requires GrowState(buffer[..], len, len - 1, find, replacement, all)
      modifies buffer, `len
      ensures Valid() && Text() == all
    {
      hide GrowState, Terminated, LastUpTo, GrowFrom, Splice;
      var index := len - 1;
      while index >= 0
        invariant buffer == old(buffer) && buffer.Length == capacity + 1
        invariant GrowState(buffer[..], len, index, find, replacement, all)
        decreases index
      {
        GrowSearch(buffer[..], len, index, find, replacement, all);
        assert buffer[..][..len] == buffer[..len];
        var found := LastIndexOf(find, index);
        if found < 0 { break; }
        GrowStep(buffer[..], len, index, found, find, replacement, all);
        var diff, readFrom := |replacement| - |find|, found + |find|;
        Paste(readFrom + diff, buffer[..][readFrom..len]);
        len := len + diff;
        ghost var moved := buffer[..];
        buffer[len] := '\0';
        assert buffer[..] == moved[len := '\0'];
        Paste(found, replacement);
        index := found - 1;
      }
      GrowEnd(buffer[..], len, index, find, replacement, all);
      assert buffer[..][..len] == buffer[..len] && buffer[..][len] == buffer[len];
    }

    /** Longer replacement: the size is counted first, then occurrences are replaced from the right.  For patterns
        that overlap the size counted may be too small; what the rounding leaves may still be enough. */
    method ReplaceGrowing(find: string, replacement: string, mallocOk: bool) returns (ok: bool)
      requires Valid() && buffer != null && 0 < |find| < |replacement| && '\0' !in replacement && len > 0
      requires NoOverlap(find, replacement) || RoomFor(Text(), capacity, find, replacement)
      modifies this, buffer
      ensures ok <==> mallocOk || |ReplaceAll(old(Text()), find, replacement)| <= old(capacity)
      ensures ok ==> Valid() && Text() == Grown(old(Text()), find, replacement)
      ensures ok && NoOverlap(find, replacement) ==> Text() == ReplaceAll(old(Text()), find, replacement)
      ensures !ok ==> buffer == null
    {
      hide GrowState, Terminated, ReplaceAll, LastUpTo, Grown, GrowFrom, Splice, NoOverlap, RoomFor, RoundedUp;
      ghost var t := Text();
      var size := CountSize(find, replacement);
      RoomMade(t, capacity, find, replacement);
      ok := true;
      if size == len {
        NothingGrows(t, find, replacement);
        return;
      }
      if size > capacity {
        ok := ChangeBuffer(size, mallocOk);
        if !ok { return; }
      }
      assert buffer[..][..len] == buffer[..len] == t;
      GrowStart(buffer[..], len, find, replacement, Grown(t, find, replacement));
      GrowInPlace(find, replacement, Grown(t, find, replacement));
    }

    /** replace(find, replacement).  A growing replacement is that of every text exactly for patterns without
        overlaps (ReplaceSpec.GrownExactly); without memory for it the text is lost. */
    method Replace(find: string, replacement: string, mallocOk: bool) returns (ok: bool)
      requires Valid() && '\0' !in find && '\0' !in replacement
      requires 0 < |find| < |replacement| ==>
               NoOverlap(find, replacement) || RoomFor(Text(), capacity, find, replacement)
      modifies this, buffer
      ensures old(Text()) == [] || find == [] ==> ok && Valid() && Text() == old(Text())
      ensures ok && find != [] ==>
                && Valid()
                && Text() == if |find| < |replacement| then Grown(old(Text()), find, replacement)
                             else ReplaceAll(old(Text()), find, replacement)
      ensures ok && find != [] && (|find| < |replacement| ==> NoOverlap(find, replacement)) ==>
                Text() == ReplaceAll(old(Text()), find, replacement)
      ensures !ok ==> !mallocOk && 0 < |find| < |replacement|
                      && |ReplaceAll(old(Text()), find, replacement)| > old(capacity)
      ensures !ok ==> buffer == null
    {
      ok := true;
      if len == 0 || |find| == 0 {
        assert find != [] ==> ReplaceAll([], find, replacement) == Grown([], find, replacement) == [];
        return;
      }
      var diff := |replacement| - |find|;
      if diff == 0 {
        ReplaceEqual(find, replacement);
      } else if diff < 0 {
        ReplaceShrinking(find, replacement);
      } else {
        ok := ReplaceGrowing(find, replacement, mallocOk);
      }
    }
  }

  /** The capacity after changeBuffer: one less than the next multiple of sixteen. */
  function RoundedUp(size: nat): (capacity: nat)
    ensures size <= capacity
  {
    (size + 16) / 16 * 16 - 1
  }

  /** The least multiple of sixteen above the size, one cell of it for the zero. */
  lemma RoundedUpExactly(size: nat)
    ensures size < RoundedUp(size) + 1 <= size + 16 && (RoundedUp(size) + 1) % 16 == 0
  {
  }

  /** The buffer holds what the growing branch makes of `t`: it is enlarged, if need be,
      for the left-to-right result. */
  predicate RoomFor(t: string, capacity: nat, f: string, r: string)
    requires f != []
  {
    var size := |ReplaceAll(t, f, r)|;
    |Grown(t, f, r)| <= if size > capacity then RoundedUp(size) else capacity
  }

  /** Replacing aa by aaa in a text of `n` times a needs 2n - 1 cells and is counted as n + n / 2.  Forty of
      them make 79 characters where, below a capacity of 60, there are at most 63 cells. */
  lemma RunOverruns(n: nat, capacity: nat)
    requires n >= 2
    ensures RoomFor(Run(n), capacity, Run(2), Run(3))
       <==> 2 * n - 1 <= if n + n / 2 > capacity then RoundedUp(n + n / 2) else capacity
    ensures n == 40 && capacity < 60 ==> !RoomFor(Run(n), capacity, Run(2), Run(3))
  {
    hide Grown, ReplaceAll;
    RunReplaced(n);
    RunGrownWhole(n);
  }

  lemma RoomMade(t: string, capacity: nat, f: string, r: string)
    requires 0 < |f| < |r| && (NoOverlap(f, r) || RoomFor(t, capacity, f, r))
    ensures var size := |ReplaceAll(t, f, r)|;
            |Grown(t, f, r)| <= if size > capacity then RoundedUp(size) else capacity
    ensures NoOverlap(f, r) ==> Grown(t, f, r) == ReplaceAll(t, f, r)
  {
    hide NoOverlap, Grown, ReplaceAll;
    if NoOverlap(f, r) { GrownIsReplaceAll(t, f, r); }
  }

  /** A size counted as unchanged means that there is nothing to replace. */
  lemma NothingGrows(t: string, f: string, r: string)
    requires 0 < |f| < |r| && |ReplaceAll(t, f, r)| == |t|
    ensures Grown(t, f, r) == ReplaceAll(t, f, r) == t
  {
    hide ReplaceAll, FirstFrom, LastUpTo, Occurs, GrowFrom;
    var i := FirstFrom(t, f, 0);
    SearchStep(t, f, r, 0);
    FirstIsFirst(t, f, 0);
    assert t[0..] == t;
    if i >= 0 {
      assert t[0..i] + r + ReplaceAll(t[i + |f|..], f, r) == ReplaceAll(t, f, r);
      NotShorter(t[i + |f|..], f, r);
    } else {
      LastIsLast(t, f, |t| - 1);
      NothingFound(t, f, r, |t| - 1);
    }
  }

  lemma NothingFound(t: string, f: string, r: string, index: int)
    requires LastUpTo(t, f, index) < 0
    ensures GrowFrom(t, f, r, index) == t
  {
  }

  lemma {:induction false} NotShorter(t: string, f: string, r: string)
    requires 0 < |f| < |r|
    ensures |ReplaceAll(t, f, r)| >= |t|
    decreases |t|
  {
    hide ReplaceAll, FirstFrom, Occurs;
    SearchStep(t, f, r, 0);
    assert t[0..] == t;
    var i := FirstFrom(t, f, 0);
    if i >= 0 { NotShorter(t[i + |f|..], f, r); }
  }

  // ---------------------------------------------------------------- equal lengths, on values

  /** The text from `from` on ends at `end`, where the first zero is. */
  ghost predicate Terminated(s: seq<char>, from: nat, end: nat)
  {
    from <= end < |s| && s[end] == '\0' && '\0' !in s[from..end]
  }

  /** Up to `from` the text is the result; the rest is still to be replaced. */
  ghost predicate EqualState(s: seq<char>, len: nat, from: nat, f: string, r: string, all: string)
    requires f != []
  {
    from <= len && Terminated(s, 0, len) && s[..from] + ReplaceAll(s[from..len], f, r) == all
  }

  lemma EqualStart(s: seq<char>, len: nat, f: string, r: string)
    requires f != [] && len < |s| && s[len] == '\0' && '\0' !in s[..len]
    ensures EqualState(s, len, 0, f, r, ReplaceAll(s[..len], f, r))
  {
    hide ReplaceAll;
    assert s[0..len] == s[..len] && s[..0] + ReplaceAll(s[..len], f, r) == ReplaceAll(s[..len], f, r);
  }

  lemma EqualSearch(s: seq<char>, len: nat, from: nat, f: string, r: string, all: string)
    requires f != [] && EqualState(s, len, from, f, r, all)
    ensures Terminated(s, from, len)
    ensures FirstFrom(s[..len], f, from) < 0 ==> s[..len] == all && s[len] == '\0' && '\0' !in s[..len]
  {
    hide ReplaceAll, FirstFrom;
    SearchStep(s[..len], f, r, from);
    assert s[0..len] == s[..len] && s[..len][from..] == s[from..len];
    assert s[..from] + s[from..len] == s[..len];
  }

  /** A hit of strstr splits the rest of the text and its result. */
  lemma SearchParts(s: seq<char>, from: nat, end: nat, at: nat, f: string, r: string)
    requires f != [] && from <= end <= |s| && at == FirstFrom(s[..end], f, from)
    ensures from <= at && at + |f| <= end
    ensures ReplaceAll(s[from..end], f, r) == s[from..at] + r + ReplaceAll(s[at + |f|..end], f, r)
  {
    hide ReplaceAll, FirstFrom, Occurs;
    var t := s[..end];
    SearchStep(t, f, r, from);
    SearchedParts(s, t, from, end, at, f, r, t[from..at], t[at + |f|..]);
  }

  lemma SearchedParts(s: seq<char>, t: seq<char>, from: nat, end: nat, at: nat, f: string, r: string, kept: string,
                      rest: string)
    requires f != [] && end <= |s| && t == s[..end] && from <= at && at + |f| <= end
    requires kept == t[from..at] && rest == t[at + |f|..]
             && ReplaceAll(t[from..], f, r) == kept + r + ReplaceAll(rest, f, r)
    ensures ReplaceAll(s[from..end], f, r) == s[from..at] + r + ReplaceAll(s[at + |f|..end], f, r)
  {
    hide ReplaceAll;
    TakeSlice(s, end, from, at);
    TakeSlice(s, end, from, end);
    TakeSlice(s, end, at + |f|, end);
    assert s[from..end] == t[from..] && kept == s[from..at] && rest == s[at + |f|..end];
  }

  lemma TakeSlice(s: seq<char>, end: nat, a: nat, b: nat)
    requires a <= b <= end <= |s|
    ensures s[..end][a..b] == s[a..b] && s[..end][a..] == s[a..end]
  {
  }

  lemma EqualStep(s: seq<char>, len: nat, from: nat, at: nat, f: string, r: string, all: string)
    requires f != [] && |f| == |r| && '\0' !in r && EqualState(s, len, from, f, r, all)
             && at == FirstFrom(s[..len], f, from)
    ensures from <= at && at + |f| <= len < |s| && EqualState(Splice(s, at, r), len, at + |r|, f, r, all)
  {
    hide ReplaceAll, FirstFrom;
    SearchParts(s, from, len, at, f, r);
    InsideParts(s, at, r, len);
    var rest := ReplaceAll(s[at + |f|..len], f, r);
    Regroup(s[..from], s[from..at], r, rest);
    assert s[..from] + s[from..at] == s[..at] && s[0..at] == s[..at];
    Clean(s, 0, len, 0, at);
    Clean(s, 0, len, at + |f|, len);
  }

  /** A paste inside the text keeps what is around it. */
  lemma InsideParts(s: seq<char>, at: nat, d: string, len: nat)
    requires at + |d| <= len < |s|
    ensures var t := Splice(s, at, d);
            && t[..at + |d|] == s[..at] + d && t[at + |d|..len] == s[at + |d|..len] && t[len] == s[len]
            && t[0..len] == s[..at] + d + s[at + |d|..len]
  {
  }

  lemma EmptyPrefix(s: string, f: string)
    ensures LastUpTo(s, f, -1) == -1
  {
  }

  lemma HitExtends(s: string, f: string, i: nat)
    requires Occurs(s, f, i)
    ensures LastUpTo(s, f, i) == i
  {
  }

  lemma StartsInside(s: string, f: string, i: nat)
    requires f != [] && Occurs(s, f, i)
    ensures i < |s|
  {
  }

  // ---------------------------------------------------------------- shrinking, on values

  /** The result so far stands before `to`; the text still to be replaced is between `from` and `end`. */
  ghost predicate ShrinkState(s: seq<char>, end: nat, from: nat, to: nat, len: nat, f: string, r: string, all: string)
    requires f != []
  {
    && to <= from && Terminated(s, from, end) && len + from == end + to && '\0' !in s[..to]
    && s[..to] + ReplaceAll(s[from..end], f, r) == all
  }

  lemma ShrinkStart(s: seq<char>, len: nat, f: string, r: string)
    requires f != [] && len < |s| && s[len] == '\0' && '\0' !in s[..len]
    ensures ShrinkState(s, len, 0, 0, len, f, r, ReplaceAll(s[..len], f, r))
  {
    hide ReplaceAll;
    assert s[0..len] == s[..len] && s[..0] + ReplaceAll(s[..len], f, r) == ReplaceAll(s[..len], f, r);
  }

  lemma ShrinkSearch(s: seq<char>, end: nat, from: nat, to: nat, len: nat, f: string, r: string, all: string)
    requires f != [] && ShrinkState(s, end, from, to, len, f, r, all)
    ensures Terminated(s, from, end)
  {
  }

  lemma ShrinkStep(s: seq<char>, end: nat, from: nat, to: nat, len: nat, at: nat, f: string, r: string, all: string)
    requires |f| > |r| && '\0' !in r && ShrinkState(s, end, from, to, len, f, r, all)
             && at == FirstFrom(s[..end], f, from)
    ensures from <= at && at + |f| <= end < |s| && to + (at - from) + |r| <= at + |f| && |f| - |r| <= len
    ensures var n := at - from;
            ShrinkState(Splice(Splice(s, to, s[from..at]), to + n, r), end, at + |f|, to + n + |r|, len - (|f| - |r|),
                f, r, all)
  {
    hide ReplaceAll, FirstFrom, Splice;
    SearchParts(s, from, end, at, f, r);
    TwoPastes(s, to, s[from..at], r, at + |f|, end);
    Clean(s, from, end, from, at);
    Clean(s, from, end, at + |f|, end);
    Regroup(s[..to], s[from..at], r, ReplaceAll(s[at + |f|..end], f, r));
  }

  lemma Clean(s: seq<char>, from: nat, end: nat, a: nat, b: nat)
    requires from <= a <= b <= end <= |s| && '\0' !in s[from..end]
    ensures '\0' !in s[a..b]
  {
    forall k | a <= k < b ensures s[k] != '\0' { assert s[k] == s[from..end][k - from]; }
  }

  lemma Regroup(a: string, b: string, c: string, d: string)
    ensures a + (b + c + d) == a + b + c + d
  {
  }

  /** Two pastes one after the other, both before `keep`. */
  lemma TwoPastes(s: seq<char>, to: nat, d: seq<char>, r: seq<char>, keep: nat, end: nat)
    requires to + |d| + |r| <= keep <= end < |s|
    ensures var t := Splice(Splice(s, to, d), to + |d|, r);
            t[..to + |d| + |r|] == s[..to] + d + r && t[keep..end] == s[keep..end] && t[end] == s[end]
  {
  }

  lemma ShrinkEnd(s: seq<char>, end: nat, from: nat, to: nat, len: nat, f: string, r: string, all: string)
    requires f != [] && ShrinkState(s, end, from, to, len, f, r, all) && FirstFrom(s[..end], f, from) < 0
    ensures from <= end < |s| && to + (end + 1 - from) <= |s| && len < |s|
    ensures var t := Splice(s, to, s[from..end + 1]); t[..len] == all && t[len] == '\0' && '\0' !in t[..len]
  {
    hide ReplaceAll, FirstFrom;
    SearchStep(s[..end], f, r, from);
    assert s[..end][from..] == s[from..end];
    var t := Splice(s, to, s[from..end + 1]);
    assert t[..len] == s[..to] + s[from..end];
  }

  // ---------------------------------------------------------------- growing, on values

  /** Going on from `index` to the left in the text gives the result, and the buffer has room for it. */
  ghost predicate GrowState(s: seq<char>, len: nat, index: int, f: string, r: string, all: string) {
    Terminated(s, 0, len) && -1 <= index < len && |all| < |s| && GrowFrom(s[..len], f, r, index) == all
  }

  lemma GrowStart(s: seq<char>, len: nat, f: string, r: string, all: string)
    requires 0 < len < |s| && s[len] == '\0' && '\0' !in s[..len] && |all| < |s| && Grown(s[..len], f, r) == all
    ensures GrowState(s, len, len - 1, f, r, all)
  {
    hide GrowFrom;
    assert s[0..len] == s[..len];
  }

  lemma GrowSearch(s: seq<char>, len: nat, index: int, f: string, r: string, all: string)
    requires GrowState(s, len, index, f, r, all)
    ensures len < |s| && s[len] == '\0' && '\0' !in s[..len] && -1 <= index < len
  {
    hide GrowFrom;
    assert s[0..len] == s[..len];
  }

  lemma GrowStep(s: seq<char>, len: nat, index: int, i: nat, f: string, r: string, all: string)
    requires 0 < |f| < |r| && '\0' !in r && GrowState(s, len, index, f, r, all) && i == LastUpTo(s[..len], f, index)
    ensures i <= index && i + |f| <= len && len + (|r| - |f|) < |s|
    ensures var diff := |r| - |f|;
            GrowState(Splice(Splice(s, i + |f| + diff, s[i + |f|..len])[len + diff := '\0'], i, r),
                      len + diff, i - 1, f, r, all)
  {
    hide LastUpTo, Splice, Occurs;
    LastIsLast(s[..len], f, index);
    HitInside(s[..len], f, i);
    var t, diff := Replaced(s[..len], f, r, i), |r| - |f|;
    GrowLonger(t, f, r, i - 1);
    GrownBuffer(s, len, i, |f|, r);
    assert s[..len][..i] == s[..i] && s[..len][i + |f|..] == s[i + |f|..len] && s[0..len] == s[..len];
    Clean(s, 0, len, 0, i);
    Clean(s, 0, len, i + |f|, len);
    assert s[0..i] == s[..i];
  }

  lemma HitInside(s: string, f: string, i: nat)
    requires Occurs(s, f, i)
    ensures i + |f| <= |s|
  {
  }

  /** The tail moved up, the zero behind it, the replacement in the gap. */
  lemma GrownBuffer(s: seq<char>, len: nat, i: nat, m: nat, r: seq<char>)
    requires i + m <= len && m <= |r| && len + (|r| - m) < |s|
    ensures var diff := |r| - m;
            var t := Splice(Splice(s, i + m + diff, s[i + m..len])[len + diff := '\0'], i, r);
            && t[..len + diff] == s[..i] + r + s[i + m..len]
            && t[0..len + diff] == t[..len + diff] && t[len + diff] == '\0'
  {
  }

  lemma GrowEnd(s: seq<char>, len: nat, index: int, f: string, r: string, all: string)
    requires GrowState(s, len, index, f, r, all) && (index < 0 || LastUpTo(s[..len], f, index) < 0)
    ensures len < |s| && s[..len] == all && s[len] == '\0' && '\0' !in s[..len]
  {
    assert s[0..len] == s[..len];
  }
}
