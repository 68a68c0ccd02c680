/** FNV-1a over bytes: section checksums and layout fingerprints. */
module Fnv {
  import opened Basics

  function XorBits(a: nat, b: nat, n: nat): (r: nat)
    ensures n == 0 ==> r == 0
  {
    if n == 0 then 0 else (a % 2 + b % 2) % 2 + 2 * XorBits(a / 2, b / 2, n - 1)
  }

  /** hash ^ byte touches the low eight bits only. */
  function XorByte(hash: u64, b: byte): u64 {
    hash / 256 * 256 + XorBits(hash % 256, b, 8) % 256
  }

  const PRIME: nat := 1099511628211

  /** The inverse of the prime modulo 2^64. */
  const INVERSE: nat := 14886173955864302971

  function Fnv1a64(s: bytes): u64
    decreases |s|
  {
    if s == [] then 14695981039346656037
    else XorByte(Fnv1a64(s[..|s| - 1]), s[|s| - 1]) * PRIME % TWO_64
  }

  // ---- One changed byte changes the hash -----------------------------------------------------------

  function Halvings(n: nat): nat {
    if n == 0 then 1 else 2 * Halvings(n - 1)
  }

  lemma {:induction false} XorBound(a: nat, b: nat, n: nat)
    ensures XorBits(a, b, n) < Halvings(n)
  {
    if n > 0 {
      XorBound(a / 2, b / 2, n - 1);
    }
  }

  lemma {:induction false} XorParts(a: nat, b: nat, n: nat)
    requires n > 0
    ensures XorBits(a, b, n) / 2 == XorBits(a / 2, b / 2, n - 1) && XorBits(a, b, n) % 2 == (a % 2 + b % 2) % 2
  {
  }

  lemma {:induction false} ParityUndone(p: nat, q: nat)
    requires p < 2 && q < 2
    ensures ((p + q) % 2 + q) % 2 == p
  {
  }

  lemma {:induction false} XorUndone(a: nat, b: nat, n: nat)
    requires a < Halvings(n)
    ensures XorBits(XorBits(a, b, n), b, n) == a
  {
    if n > 0 {
      XorUndone(a / 2, b / 2, n - 1);
      XorParts(a, b, n);
      XorParts(XorBits(a, b, n), b, n);
      ParityUndone(a % 2, b % 2);
    }
  }

  lemma {:induction false} XorSame(a: nat, b: nat, n: nat)
    ensures XorBits(a, b, n) == XorBits(b, a, n)
  {
    if n > 0 {
      XorSame(a / 2, b / 2, n - 1);
    }
  }

  lemma {:induction false} EightHalvings()
    ensures Halvings(8) == 256
  {
    assert Halvings(4) == 16;
  }

  /** Different hashes, or different bytes, stay different. */
  lemma {:induction false} XorByteKeepsApart(x: u64, y: u64, a: byte, b: byte)
    ensures x != y ==> XorByte(x, a) != XorByte(y, a)
    ensures a != b ==> XorByte(x, a) != XorByte(x, b)
  {
    hide XorBits, Halvings;
    EightHalvings();
    XorBound(x % 256, a, 8);
    XorBound(y % 256, a, 8);
    XorBound(x % 256, b, 8);
    XorUndone(x % 256, a, 8);
    XorUndone(y % 256, a, 8);
    XorSame(x % 256, a, 8);
    XorSame(x % 256, b, 8);
    XorUndone(a, x % 256, 8);
    XorUndone(b, x % 256, 8);
  }

  /** Multiplying by the odd prime can be undone. */
  lemma {:induction false} TimesPrimeUndone(x: u64)
    ensures x * PRIME % TWO_64 * INVERSE % TWO_64 == x
  {
    var q, r := x * PRIME / TWO_64, x * PRIME % TWO_64;
    assert PRIME * INVERSE == 887285111055 * TWO_64 + 1;
    assert r * INVERSE == x + TWO_64 * (x * 887285111055 - q * INVERSE) by {
      assert x * PRIME == q * TWO_64 + r;
      assert x * (PRIME * INVERSE) == x * PRIME * INVERSE;
    }
    ModOf(r * INVERSE, x, x * 887285111055 - q * INVERSE);
  }

  lemma {:induction false} ModOf(n: nat, r: u64, k: int)
    requires n == r + TWO_64 * k
    ensures n % TWO_64 == r
  {
  }

  /** Whichever single byte of the input is changed, the hash changes. */
  lemma {:induction false} ChangedByteShows(s: bytes, i: nat, b: byte)
    requires i < |s| && s[i] != b
    ensures Fnv1a64(s[i := b]) != Fnv1a64(s)
    decreases |s|
  {
    var n := |s| - 1;
    var t := s[i := b];
    if i == n {
      assert t[..n] == s[..n];
    } else {
      assert t[..n] == s[..n][i := b];
      ChangedByteShows(s[..n], i, b);
    }
    var x, y := Fnv1a64(s[..n]), Fnv1a64(t[..n]);
    XorByteKeepsApart(x, y, s[n], t[n]);
    TimesPrimeUndone(XorByte(x, s[n]));
    TimesPrimeUndone(XorByte(y, t[n]));
  }
}
