/** Copying over part of a buffer, on values. */
module Splicing {

  /** `s` with the elements from `at` on replaced by `d`. */
  function Splice<T>(s: seq<T>, at: nat, d: seq<T>): (t: seq<T>)
    requires at + |d| <= |s|
    ensures |t| == |s|
  {
    s[..at] + d + s[at + |d|..]
  }

  lemma SpliceElements<T>(s: seq<T>, at: nat, d: seq<T>)
    requires at + |d| <= |s|
    ensures var t := Splice(s, at, d);
            forall j :: 0 <= j < |s| ==> t[j] == if at <= j < at + |d| then d[j - at] else s[j]
  {
  }

  lemma SpliceParts<T>(s: seq<T>, at: nat, d: seq<T>)
    requires at + |d| <= |s|
    ensures var t := Splice(s, at, d);
            t[..at] == s[..at] && t[at..at + |d|] == d && t[at + |d|..] == s[at + |d|..]
  {
  }

  lemma SpliceOnce<T>(s: seq<T>, d: seq<T>)
    requires |d| <= |s|
    ensures Splice(s, 0, d)[..|d|] == d
  {
  }

  /** Two pieces written one after the other from the start. */
  lemma SpliceTwice<T>(s: seq<T>, d: seq<T>, e: seq<T>)
    requires |d| + |e| <= |s|
    ensures Splice(Splice(s, 0, d), |d|, e) == Splice(s, 0, d + e)
    ensures Splice(Splice(s, 0, d), |d|, e)[..|d| + |e|] == d + e
  {
  }
}
