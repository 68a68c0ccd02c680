/** std::sort by an integer key. Only results that hold of every sorted permutation are used. */
module Sorting {

  ghost predicate SortedBy<T>(key: T -> int, xs: seq<T>) {
    forall i, j :: 0 <= i < j < |xs| ==> key(xs[i]) <= key(xs[j])
  }

  ghost predicate DistinctBy<T>(key: T -> int, xs: seq<T>) {
    forall i, j :: 0 <= i < j < |xs| ==> key(xs[i]) != key(xs[j])
  }

  function InsertBy<T>(key: T -> int, x: T, xs: seq<T>): (r: seq<T>)
    ensures multiset(r) == multiset([x]) + multiset(xs)
  {
    if xs == [] then [x]
    else if key(x) <= key(xs[0]) then [x] + xs
    else
      assert xs == [xs[0]] + xs[1..];
      [xs[0]] + InsertBy(key, x, xs[1..])
  }

  function SortBy<T>(key: T -> int, xs: seq<T>): (r: seq<T>)
    ensures multiset(r) == multiset(xs)
  {
    if xs == [] then []
    else
      assert xs == [xs[0]] + xs[1..];
      InsertBy(key, xs[0], SortBy(key, xs[1..]))
  }

  lemma {:induction false} InsertBySorted<T>(key: T -> int, x: T, xs: seq<T>)
    requires SortedBy(key, xs)
    ensures SortedBy(key, InsertBy(key, x, xs))
  {
    if xs != [] && key(x) > key(xs[0]) {
      InsertBySorted(key, x, xs[1..]);
      var rest := InsertBy(key, x, xs[1..]);
      forall j | 0 <= j < |rest|
        ensures key(xs[0]) <= key(rest[j])
      {
        assert rest[j] in multiset(rest);
      }
    }
  }

  lemma {:induction false} SortBySorted<T>(key: T -> int, xs: seq<T>)
    ensures SortedBy(key, SortBy(key, xs))
  {
    if xs != [] {
      SortBySorted(key, xs[1..]);
      InsertBySorted(key, xs[0], SortBy(key, xs[1..]));
    }
  }

  /** Distinctness of keys only depends on the elements. */
  lemma {:induction false} DistinctPermuted<T>(key: T -> int, xs: seq<T>, ys: seq<T>)
    requires multiset(xs) == multiset(ys) && DistinctBy(key, xs)
    ensures DistinctBy(key, ys)
  {
    forall i, j | 0 <= i < j < |ys|
      ensures key(ys[i]) != key(ys[j])
    {
      if key(ys[i]) == key(ys[j]) {
        assert ys[i] in multiset(xs) && ys[j] in multiset(xs);
        var a :| 0 <= a < |xs| && xs[a] == ys[i];
        var b :| 0 <= b < |xs| && xs[b] == ys[j];
        assert a == b;
        Twice(ys, i, j);
        Once(key, xs, a);
      }
    }
  }

  lemma {:induction false} Twice<T>(ys: seq<T>, i: nat, j: nat)
    requires i < j < |ys| && ys[i] == ys[j]
    ensures multiset(ys)[ys[i]] >= 2
  {
    assert ys == ys[..i] + [ys[i]] + ys[i + 1..j] + [ys[j]] + ys[j + 1..];
  }

  lemma {:induction false} Once<T>(key: T -> int, xs: seq<T>, a: nat)
    requires a < |xs| && DistinctBy(key, xs)
    ensures multiset(xs)[xs[a]] == 1
  {
    assert xs == xs[..a] + [xs[a]] + xs[a + 1..];
    assert xs[a] !in xs[..a] && xs[a] !in xs[a + 1..];
  }

  lemma {:induction false} SameHead<T>(key: T -> int, xs: seq<T>, ys: seq<T>)
    requires multiset(xs) == multiset(ys) && DistinctBy(key, xs)
    requires SortedBy(key, xs) && SortedBy(key, ys) && xs != []
    ensures ys != [] && ys[0] == xs[0]
  {
    assert xs[0] in multiset(ys);
    var a :| 0 <= a < |ys| && ys[a] == xs[0];
    assert ys[0] in multiset(xs);
    var b :| 0 <= b < |xs| && xs[b] == ys[0];
    assert key(ys[0]) <= key(ys[a]) && key(xs[0]) <= key(xs[b]);
  }

  lemma {:induction false} TailsAgree<T>(xs: seq<T>, ys: seq<T>)
    requires multiset(xs) == multiset(ys) && xs != [] && ys != [] && xs[0] == ys[0]
    ensures multiset(xs[1..]) == multiset(ys[1..])
  {
    assert xs == [xs[0]] + xs[1..] && ys == [ys[0]] + ys[1..];
    assert multiset(xs[1..]) == multiset(xs) - multiset{xs[0]};
    assert multiset(ys[1..]) == multiset(ys) - multiset{xs[0]};
  }

  /** With distinct keys there is only one sorted permutation. */
  lemma {:induction false} SortedUnique<T>(key: T -> int, xs: seq<T>, ys: seq<T>)
    requires multiset(xs) == multiset(ys) && DistinctBy(key, xs)
    requires SortedBy(key, xs) && SortedBy(key, ys)
    ensures xs == ys
    decreases |xs|
  {
    if xs == [] {
      assert |multiset(ys)| == 0;
    } else {
      SameHead(key, xs, ys);
      TailsAgree(xs, ys);
      SortedUnique(key, xs[1..], ys[1..]);
    }
  }
}
