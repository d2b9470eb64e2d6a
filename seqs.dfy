/** Slicing and concatenation identities, stated once for any element type. */
module Seqs {

  lemma ConsSlice<T>(s: seq<T>, i: nat, j: nat)
    requires i < j <= |s|
    ensures [s[i]] + s[i + 1..j] == s[i..j]
  {
  }

  lemma SnocSlice<T>(s: seq<T>, i: nat, j: nat)
    requires i <= j < |s|
    ensures s[i..j] + [s[j]] == s[i..j + 1]
  {
  }

  lemma ConsSuffix<T>(s: seq<T>, i: nat)
    requires i < |s|
    ensures [s[i]] + s[i + 1..] == s[i..]
  {
  }

  lemma TailOfSuffix<T>(s: seq<T>, i: nat)
    requires i < |s|
    ensures s[i..][1..] == s[i + 1..]
  {
  }

  lemma SliceThenSuffix<T>(s: seq<T>, i: nat, j: nat)
    requires i <= j <= |s|
    ensures s[i..j] + s[j..] == s[i..]
  {
  }

  lemma AppendAssoc<T>(a: seq<T>, b: seq<T>, c: seq<T>)
    ensures a + (b + c) == (a + b) + c
  {
  }

  lemma SnocCongr<T>(a: seq<T>, b: seq<T>, x: T, y: T)
    requires a == b && x == y
    ensures a + [x] == b + [y]
  {
  }

  lemma SnocAssoc<T>(out: seq<T>, head: seq<T>, rest: seq<T>, x: T)
    requires out == head + rest
    ensures out + [x] == head + (rest + [x])
  {
  }

  /** One step of a loop that keeps `out + rest == total`: `piece` moves from the
      front of the rest to the end of `out`. */
  lemma Advance<T>(out: seq<T>, before: seq<T>, piece: seq<T>, restNew: seq<T>, restOld: seq<T>, total: seq<T>)
    requires out == before + piece && restOld == piece + restNew && before + restOld == total
    ensures out + restNew == total
  {
  }

  lemma SplitAt<T>(s: seq<T>, k: nat)
    requires k <= |s|
    ensures s[..k] + s[k..] == s
  {
  }

  lemma SliceToEnd<T>(s: seq<T>, i: nat)
    requires i <= |s|
    ensures s[i..|s|] == s[i..]
  {
  }

  lemma AppendNil<T>(a: seq<T>)
    ensures a + [] == a && [] + a == a
  {
  }

  lemma TailOfCons<T>(x: T, s: seq<T>)
    ensures ([x] + s)[1..] == s
  {
  }

  /** Two leading elements, a body and one trailing element, by position. */
  lemma Framed<T>(a: T, b: T, body: seq<T>, c: T)
    ensures var t := [a, b] + body + [c];
      |t| == |body| + 3 && t[0] == a && t[1] == b && t[|t| - 1] == c
      && forall k :: 0 <= k < |body| ==> t[k + 2] == body[k]
  {
  }

  /** Dropping the last element of a slice, and reading it. */
  lemma SliceInit<T>(s: seq<T>, i: nat, j: nat)
    requires i < j <= |s|
    ensures var r := s[i..j]; |r| == j - i && r[..|r| - 1] == s[i..j - 1] && r[|r| - 1] == s[j - 1]
  {
  }

  lemma InTail<T>(s: seq<T>, y: T)
    requires s != [] && y in s[1..]
    ensures y in s
  {
    var j :| 0 <= j < |s[1..]| && s[1..][j] == y;
    assert s[j + 1] == y;
  }

  /** Extending a prefix by one element. */
  lemma PrefixInit<T>(s: seq<T>, m: nat)
    requires m < |s|
    ensures s[..m + 1][..m] == s[..m] && s[..m + 1][m] == s[m] && |s[..m + 1]| == m + 1
  {
  }

  lemma WholePrefix<T>(s: seq<T>)
    ensures s[..|s|] == s
  {
  }

  /** The elements of `init + [x]`, by position. */
  lemma SnocAt<T>(whole: seq<T>, init: seq<T>, x: T, j: nat)
    requires whole == init + [x] && j < |whole|
    ensures |whole| == |init| + 1
    ensures j < |init| ==> whole[j] == init[j]
    ensures j == |init| ==> whole[j] == x
  {
  }

  lemma InitIn<T>(s: seq<T>, y: T)
    requires s != [] && y !in s
    ensures y !in s[..|s| - 1]
  {
  }

  /** Membership in a sequence: in all but its last element, or the last. */
  lemma InSnoc<T>(s: seq<T>, y: T)
    requires s != []
    ensures y in s <==> y in s[..|s| - 1] || y == s[|s| - 1]
  {
    assert s == s[..|s| - 1] + [s[|s| - 1]];
  }
}
