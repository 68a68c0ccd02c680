/** Counting the elements of a sequence that satisfy a predicate. */
module Counting {

  function Count<T>(p: T -> bool, xs: seq<T>): (n: nat)
    ensures n <= |xs|
    decreases |xs|
  {
    if xs == [] then 0 else (if p(xs[0]) then 1 else 0) + Count(p, xs[1..])
  }

  lemma {:induction false} CountUpdate<T>(p: T -> bool, xs: seq<T>, i: nat, x: T)
    requires i < |xs|
    ensures Count(p, xs[i := x]) == Count(p, xs) - (if p(xs[i]) then 1 else 0) + (if p(x) then 1 else 0)
    decreases |xs|
  {
    var ys := xs[i := x];
    if i == 0 {
      assert ys[1..] == xs[1..];
    } else {
      CountUpdate(p, xs[1..], i - 1, x);
      assert ys[1..] == xs[1..][i - 1 := x];
    }
  }

  lemma {:induction false} CountNone<T>(p: T -> bool, xs: seq<T>)
    requires forall x :: x in xs ==> !p(x)
    ensures Count(p, xs) == 0
    decreases |xs|
  {
    if xs != [] {
      CountNone(p, xs[1..]);
    }
  }

  /** Fewer hits than elements leaves an element that is no hit. */
  lemma {:induction false} SomeMiss<T>(p: T -> bool, xs: seq<T>) returns (i: nat)
    requires Count(p, xs) < |xs|
    ensures i < |xs| && !p(xs[i])
    decreases |xs|
  {
    if p(xs[0]) {
      var j := SomeMiss(p, xs[1..]);
      i := j + 1;
    } else {
      i := 0;
    }
  }

  function UpTo(n: nat): (s: set<int>)
    ensures |s| == n && forall i :: i in s <==> 0 <= i < n
  {
    if n == 0 then {} else UpTo(n - 1) + {n - 1}
  }

  ghost predicate InjectiveBelow<K>(m: map<K, nat>, n: nat) {
    (forall k :: k in m ==> m[k] < n) && (forall a, b :: a in m && b in m && m[a] == m[b] ==> a == b)
  }

  function Image<K>(m: map<K, nat>): set<int> {
    set k | k in m :: m[k]
  }

  lemma {:induction false} ImageSize<K>(m: map<K, nat>, n: nat)
    requires InjectiveBelow(m, n)
    ensures |Image(m)| == |m|
    decreases |m|
  {
    if m != map[] {
      var k :| k in m;
      var rest := map x | x in m && x != k :: m[x];
      assert rest.Keys == m.Keys - {k};
      assert |rest| == |rest.Keys| && |m| == |m.Keys|;
      forall v
        ensures v in Image(rest) <==> v in Image(m) && v != m[k]
      {
        if v in Image(m) && v != m[k] {
          var x :| x in m && m[x] == v;
          assert x in rest;
        }
      }
      assert Image(rest) == Image(m) - {m[k]};
      assert m[k] in Image(m);
      ImageSize(rest, n);
    }
  }

  lemma {:induction false} SubsetSize<T>(a: set<T>, b: set<T>)
    requires a <= b
    ensures |a| <= |b|
    ensures |a| == |b| ==> a == b
    decreases |a|
  {
    if a == {} {
      assert |b| == 0 ==> b == {};
    } else {
      var x :| x in a;
      SubsetSize(a - {x}, b - {x});
      assert a == (a - {x}) + {x} && b == (b - {x}) + {x};
    }
  }

  ghost predicate Taken<K>(m: map<K, nat>, i: int) {
    exists k :: k in m && m[k] == i
  }

  /** Keys placed one per slot: there are as many keys as slots exactly when no slot is left. */
  lemma {:induction false} PlacedCount<K>(m: map<K, nat>, n: nat)
    requires InjectiveBelow(m, n)
    ensures |m| <= n
    ensures |m| == n ==> forall i :: 0 <= i < n ==> Taken(m, i)
    ensures (forall i :: 0 <= i < n ==> Taken(m, i)) ==> |m| == n
  {
    ImageSize(m, n);
    SubsetSize(Image(m), UpTo(n));
    if |m| == n {
      forall i | 0 <= i < n
        ensures Taken(m, i)
      {
        assert i in UpTo(n);
      }
    }
    if forall i :: 0 <= i < n ==> Taken(m, i) {
      forall i | i in UpTo(n)
        ensures i in Image(m)
      {
        assert Taken(m, i);
      }
      SubsetSize(UpTo(n), Image(m));
    }
  }

  lemma {:induction false} CountAppend<T>(p: T -> bool, xs: seq<T>, x: T)
    ensures Count(p, xs + [x]) == Count(p, xs) + (if p(x) then 1 else 0)
    decreases |xs|
  {
    if xs == [] {
      assert xs + [x] == [x];
    } else {
      assert (xs + [x])[1..] == xs[1..] + [x];
      CountAppend(p, xs[1..], x);
    }
  }
}
