/**
 * The two standard algorithms the tutorial publisher and subscriber run on
 * their buffers and on the client registry: `std::find` and `std::copy`, and
 * the erase-after-find idiom that removes one registry entry.
 */
module StdAlgo {

  /**
   * `std::find(first, last, x) - first`: the position of the first element
   * equal to `x`, or `|s|` (the `last` iterator) when there is none.
   */
  method FindFirst<T(==)>(s: seq<T>, x: T) returns (i: nat)
    ensures i <= |s|
    ensures i < |s| ==> s[i] == x
    ensures forall j :: 0 <= j < i ==> s[j] != x
  {
    i := 0;
    while i < |s| && s[i] != x
      invariant i <= |s|
      invariant forall j :: 0 <= j < i ==> s[j] != x
    {
      i := i + 1;
    }
  }

  /** `std::copy(src.begin(), src.end(), dst)`: the first `|src|` cells receive `src`, the rest keep their contents. */
  method CopyInto(src: string, dst: array<char>)
    requires |src| <= dst.Length
    modifies dst
    ensures dst[..|src|] == src
    ensures dst[|src|..] == old(dst[|src|..])
  {
    var i := 0;
    while i < |src|
      invariant i <= |src|
      invariant dst[..i] == src[..i]
      invariant dst[i..] == old(dst[i..])
    {
      dst[i] := src[i];
      i := i + 1;
      assert dst[..i] == dst[..i - 1] + [src[i - 1]];
    }
  }

  /** No element occurs twice. */
  ghost predicate Distinct<T>(s: seq<T>) {
    forall i, j :: 0 <= i < j < |s| ==> s[i] != s[j]
  }

  /** `s` with every occurrence of `x` dropped, the other elements keeping their order. */
  function Without<T(==)>(s: seq<T>, x: T): (r: seq<T>)
    ensures x !in r
    ensures forall i :: 0 <= i < |r| ==> r[i] in s
    ensures forall i :: 0 <= i < |s| && s[i] != x ==> s[i] in r
    ensures |r| <= |s|
  {
    if s == [] then []
    else if s[0] == x then Without(s[1..], x)
    else [s[0]] + Without(s[1..], x)
  }

  /**
   * Erasing the position where `x` was found removes `x` and nothing else
   * when `x` occurs only once; the result stays free of duplicates.
   */
  lemma {:induction false} EraseFound<T>(s: seq<T>, i: nat, x: T)
    requires Distinct(s) && i < |s| && s[i] == x
    ensures s[..i] + s[i + 1..] == Without(s, x)
    ensures Distinct(s[..i] + s[i + 1..])
  {
    if i == 0 {
      assert s[..i] + s[i + 1..] == s[1..];
      WithoutAbsent(s[1..], x);
    } else {
      assert s[1..][i - 1] == x;
      EraseFound(s[1..], i - 1, x);
      assert s[..i] + s[i + 1..] == [s[0]] + (s[1..][..i - 1] + s[1..][i..]);
    }
    EraseKeepsDistinct(s, i);
  }

  lemma EraseKeepsDistinct<T>(s: seq<T>, i: nat)
    requires Distinct(s) && i < |s|
    ensures Distinct(s[..i] + s[i + 1..])
  {
    var r := s[..i] + s[i + 1..];
    forall p, q | 0 <= p < q < |r|
      ensures r[p] != r[q]
    {
      var p' := if p < i then p else p + 1;
      var q' := if q < i then q else q + 1;
      assert r[p] == s[p'] && r[q] == s[q'];
    }
  }

  lemma {:induction false} WithoutAbsent<T>(s: seq<T>, x: T)
    requires x !in s
    ensures Without(s, x) == s
  {
    if s != [] {
      WithoutAbsent(s[1..], x);
    }
  }
}
