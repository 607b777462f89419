/** Element-wise maps over sequences, built from the back so that a loop
    visiting the elements in order extends them one element at a time. */
module Seqs {

  /** `f` applied to every element, in order. */
  function MapEach<T>(f: T -> T, s: seq<T>): (r: seq<T>)
    ensures |r| == |s|
  {
    if |s| == 0 then [] else MapEach(f, s[..|s| - 1]) + [f(s[|s| - 1])]
  }

  /** Some element is changed by `f`. */
  predicate SomeChanged<T(==)>(f: T -> T, s: seq<T>)
  {
    |s| > 0 && (SomeChanged(f, s[..|s| - 1]) || f(s[|s| - 1]) != s[|s| - 1])
  }

  /** The first `i` elements mapped, the rest as they were. */
  function MapPrefix<T>(f: T -> T, s: seq<T>, i: nat): (r: seq<T>)
    requires i <= |s|
    ensures |r| == |s|
  {
    MapEach(f, s[..i]) + s[i..]
  }

  /** Mapping one more element replaces element `i` by its image, and
      something has changed exactly when something had changed before or
      element `i` changes. */
  lemma MapStep<T>(f: T -> T, s: seq<T>, i: nat)
    requires i < |s|
    ensures MapPrefix(f, s, i)[i] == s[i]
    ensures MapPrefix(f, s, i + 1) == MapPrefix(f, s, i)[i := f(s[i])]
    ensures f(s[i]) == s[i] ==> MapPrefix(f, s, i + 1) == MapPrefix(f, s, i)
    ensures SomeChanged(f, s[..i + 1]) == (SomeChanged(f, s[..i]) || f(s[i]) != s[i])
  {
    assert s[..i + 1][..i] == s[..i];
  }

  /** Element `k` of the map is the image of element `k`. */
  lemma {:induction false} MapEachAt<T>(f: T -> T, s: seq<T>, k: nat)
    requires k < |s|
    ensures MapEach(f, s)[k] == f(s[k])
    decreases |s|
  {
    if k < |s| - 1 {
      MapEachAt(f, s[..|s| - 1], k);
    }
  }

  /** Some element is changed exactly when the map differs from the sequence. */
  lemma {:induction false} SomeChangedIff<T>(f: T -> T, s: seq<T>)
    ensures SomeChanged(f, s) <==> MapEach(f, s) != s
    decreases |s|
  {
    if |s| > 0 {
      var init := s[..|s| - 1];
      SomeChangedIff(f, init);
      assert s == init + [s[|s| - 1]];
      if MapEach(f, init) != init {
        var k :| 0 <= k < |init| && MapEach(f, init)[k] != init[k];
        assert MapEach(f, s)[k] != s[k];
      }
    }
  }

  /** Mapping twice is mapping once when `f` is idempotent on the images of
      the elements. */
  lemma {:induction false} MapEachIdempotent<T>(f: T -> T, s: seq<T>)
    requires forall k :: 0 <= k < |s| ==> f(f(s[k])) == f(s[k])
    ensures MapEach(f, MapEach(f, s)) == MapEach(f, s)
  {
    var m := MapEach(f, s);
    forall k | 0 <= k < |s|
      ensures MapEach(f, m)[k] == m[k]
    {
      MapEachAt(f, s, k);
      MapEachAt(f, m, k);
    }
  }
}
