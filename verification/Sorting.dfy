/** Ordering results by a key, greatest first, as the scans order theirs. */
module Sorting {
  ghost predicate Descending<T(!new)>(xs: seq<T>, key: T -> real) {
    forall i, j :: 0 <= i < j < |xs| ==> key(xs[i]) >= key(xs[j])
  }

  function Insert<T>(x: T, xs: seq<T>, key: T -> real): seq<T> {
    if xs == [] || key(x) >= key(xs[0]) then [x] + xs else [xs[0]] + Insert(x, xs[1..], key)
  }

  function Sort<T>(xs: seq<T>, key: T -> real): seq<T> {
    if xs == [] then [] else Insert(xs[0], Sort(xs[1..], key), key)
  }

  lemma {:induction false} InsertSorts<T(!new)>(x: T, xs: seq<T>, key: T -> real)
    requires Descending(xs, key)
    ensures Descending(Insert(x, xs, key), key)
    ensures multiset(Insert(x, xs, key)) == multiset(xs) + multiset{x}
    ensures Insert(x, xs, key)[0] == x || (xs != [] && Insert(x, xs, key)[0] == xs[0])
  {
    if xs != [] && key(x) < key(xs[0]) {
      InsertSorts(x, xs[1..], key);
      assert xs == [xs[0]] + xs[1..];
      ConsDescending(xs[0], Insert(x, xs[1..], key), key);
    } else {
      ConsDescending(x, xs, key);
    }
  }

  lemma ConsDescending<T(!new)>(x: T, xs: seq<T>, key: T -> real)
    requires Descending(xs, key) && (xs != [] ==> key(x) >= key(xs[0]))
    ensures Descending([x] + xs, key)
  {
  }

  /** Sorting reorders and loses nothing. */
  lemma {:induction false} SortSorts<T(!new)>(xs: seq<T>, key: T -> real)
    ensures Descending(Sort(xs, key), key)
    ensures multiset(Sort(xs, key)) == multiset(xs)
  {
    if xs != [] {
      SortSorts(xs[1..], key);
      InsertSorts(xs[0], Sort(xs[1..], key), key);
      assert xs == [xs[0]] + xs[1..];
    }
  }

  lemma SortKeepsElements<T(!new)>(xs: seq<T>, key: T -> real)
    ensures |Sort(xs, key)| == |xs|
    ensures forall x :: x in Sort(xs, key) <==> x in xs
  {
    SortSorts(xs, key);
    assert |multiset(Sort(xs, key))| == |multiset(xs)|;
    forall x ensures x in Sort(xs, key) <==> x in xs {
      assert x in multiset(Sort(xs, key)) <==> x in multiset(xs);
    }
  }
}
