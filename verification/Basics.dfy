/** Status codes, fixed-width integers and Kafka source positions shared by every module. */
module Basics {

  datatype Code =
    | Cancelled | InvalidArgument | NotFound | FailedPrecondition | Internal | Unavailable | Unknown

  datatype Option<+T> = None | Some(value: T)

  /** StatusOr<T>: a value, or the code of a non-ok status. Messages are not modelled. */
  datatype Result<+T> = Ok(get: T) | Err(code: Code) {
    predicate IsFailure() {
      Err?
    }

    function PropagateFailure<U>(): Result<U>
      requires Err?
    {
      Err(code)
    }

    function Extract(): T
      requires Ok?
    {
      get
    }
  }

  const TWO_8: int := 0x100
  const TWO_31: int := 0x8000_0000
  const TWO_32: int := 0x1_0000_0000
  const TWO_63: int := 0x8000_0000_0000_0000
  const TWO_64: int := 0x1_0000_0000_0000_0000

  type byte = x: int | 0 <= x < TWO_8
  type u32 = x: int | 0 <= x < TWO_32
  type u64 = x: int | 0 <= x < TWO_64
  type i32 = x: int | -TWO_31 <= x < TWO_31
  type i64 = x: int | -TWO_63 <= x < TWO_63

  /** A C++ std::string is a sequence of bytes: no text encoding is involved. */
  type bytes = seq<byte>

  /** StableHash64 with (key, seed, version): any deterministic function will do. */
  type HashFn = (u64, u64, u32) -> u64

  datatype SourcePosition = SourcePosition(partition: i32, offset: i64)

  datatype Decision = Stale | Idempotent | Newer

  predicate IsValidSourcePosition(p: SourcePosition) {
    p.partition >= 0 && p.offset >= 0
  }

  function ClassifySourcePositionUpdate(current: SourcePosition, candidate: SourcePosition): Result<Decision> {
    if !IsValidSourcePosition(current) || !IsValidSourcePosition(candidate) then Err(InvalidArgument)
    else if current.partition != candidate.partition then Err(FailedPrecondition)
    else if candidate.offset < current.offset then Ok(Stale)
    else if candidate.offset == current.offset then Ok(Idempotent)
    else Ok(Newer)
  }

  /** The order that ClassifySourcePositionUpdate induces on positions of one key. */
  predicate AtLeast(p: SourcePosition, q: SourcePosition) {
    p.partition == q.partition && p.offset >= q.offset
  }

  /** A power of two below 2^64, as `value != 0 && (value & (value - 1)) == 0` accepts it. */
  predicate IsPowerOfTwo(n: nat)
    decreases n
  {
    n == 1 || (n > 1 && n % 2 == 0 && IsPowerOfTwo(n / 2))
  }

  /** A power of two that fits 64 bits divides 2^64, so wrap-around does not disturb `hash % n`. */
  lemma {:induction false} PowerOfTwoDivides(n: nat, m: nat)
    requires IsPowerOfTwo(n) && IsPowerOfTwo(m) && n <= m
    ensures exists q :: q > 0 && m == q * n
    decreases n
  {
    if n == 1 {
      assert m == m * 1;
    } else {
      PowerOfTwoDivides(n / 2, m / 2);
      var q :| q > 0 && m / 2 == q * (n / 2);
      assert m == 2 * (q * (n / 2)) == q * n;
    }
  }

  lemma {:induction false} Doubles(n: nat) returns (m: nat)
    requires IsPowerOfTwo(n)
    ensures m == n + n && IsPowerOfTwo(m)
  {
    m := n + n;
    assert m % 2 == 0 && m / 2 == n;
  }

  lemma {:induction false} ScaleBy256(n: nat)
    requires IsPowerOfTwo(n)
    ensures IsPowerOfTwo(n * 0x100)
  {
    var m := Doubles(n);
    m := Doubles(m);
    m := Doubles(m);
    m := Doubles(m);
    m := Doubles(m);
    m := Doubles(m);
    m := Doubles(m);
    m := Doubles(m);
  }

  lemma {:induction false} TwoTo64IsPowerOfTwo()
    ensures IsPowerOfTwo(TWO_64)
  {
    ScaleBy256(1);
    ScaleBy256(0x100);
    ScaleBy256(0x1_0000);
    ScaleBy256(0x100_0000);
    ScaleBy256(0x1_0000_0000);
    ScaleBy256(0x100_0000_0000);
    ScaleBy256(0x1_0000_0000_0000);
    ScaleBy256(0x100_0000_0000_0000);
  }

  /** Adding a multiple of n does not change the remainder. */
  lemma {:induction false} ModAddMultiple(x: int, q: int, n: int)
    requires n > 0
    ensures (x + q * n) % n == x % n
  {
    var a := x + q * n;
    assert a == (x / n + q) * n + x % n;
    ModUnique(a, n, x / n + q, x % n);
  }

  lemma {:induction false} ModUnique(a: int, n: int, q: int, r: int)
    requires n > 0 && a == q * n + r && 0 <= r < n
    ensures a % n == r && a / n == q
  {
    var d := q - a / n;
    assert d * n == q * n - (a / n) * n;
    assert a == (a / n) * n + a % n;
    Multiples(d, n);
  }

  /** A non-zero multiple of n is at least n away from zero. */
  lemma {:induction false} Multiples(d: int, n: nat)
    ensures d > 0 ==> d * n >= n
    ensures d < 0 ==> d * n + n <= 0
    decreases if d < 0 then -d else d
  {
    if d > 1 {
      Multiples(d - 1, n);
      assert d * n == (d - 1) * n + n;
    } else if d < -1 {
      Multiples(d + 1, n);
      assert d * n == (d + 1) * n - n;
    }
  }

  lemma {:induction false} ModOfMod(x: nat, m: nat, q: nat, n: nat)
    requires n > 0 && m > 0 && m == q * n
    ensures (x % m) % n == x % n
  {
    var w := x / m;
    assert x == w * m + x % m;
    assert w * m == (w * q) * n;
    ModAddMultiple(x % m, w * q, n);
  }

  lemma {:induction false} SubSlice<T>(s: seq<T>, lo: nat, hi: nat, a: nat, b: nat)
    requires lo <= hi <= |s| && a <= b <= hi - lo
    ensures s[lo..hi][a..b] == s[lo + a..lo + b]
  {
    var x, y := s[lo..hi][a..b], s[lo + a..lo + b];
    assert forall i :: 0 <= i < b - a ==> x[i] == y[i];
  }

  lemma {:induction false} AppendedTail<T>(xs: seq<T>, ys: seq<T>)
    ensures (xs + ys)[|xs|..|xs| + |ys|] == ys
  {
  }
}
