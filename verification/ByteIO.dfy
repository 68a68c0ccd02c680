/** Little-endian integers, src/base/byte_io.h. */
module ByteIO {
  import opened Basics

  function Pow256(n: nat): (p: nat)
    ensures p > 0
  {
    if n == 0 then 1 else 256 * Pow256(n - 1)
  }

  lemma {:induction false} PowersOf256()
    ensures Pow256(1) == TWO_8 && Pow256(2) == 0x1_0000 && Pow256(4) == TWO_32 && Pow256(8) == TWO_64
  {
    assert Pow256(2) == 256 * Pow256(1);
    assert Pow256(4) == 256 * (256 * Pow256(2));
    assert Pow256(6) == 256 * (256 * Pow256(4));
    assert Pow256(8) == 256 * (256 * Pow256(6));
  }

  /** The w low bytes of v, least significant first. */
  function LE(v: nat, w: nat): (r: bytes)
    ensures |r| == w
  {
    if w == 0 then [] else [v % 256] + LE(v / 256, w - 1)
  }

  function FromLE(s: bytes): (v: nat)
    ensures v < Pow256(|s|)
  {
    if s == [] then 0 else s[0] + 256 * FromLE(s[1..])
  }

  /** Reading back what was written. */
  lemma {:induction false} FromLEofLE(v: nat, w: nat)
    requires v < Pow256(w)
    ensures FromLE(LE(v, w)) == v
  {
    if w > 0 {
      FromLEofLE(v / 256, w - 1);
      assert LE(v, w)[1..] == LE(v / 256, w - 1);
    }
  }

  /** Writing back what was read. */
  lemma {:induction false} LEofFromLE(s: bytes)
    ensures LE(FromLE(s), |s|) == s
  {
    if s != [] {
      LEofFromLE(s[1..]);
      assert FromLE(s) % 256 == s[0] && FromLE(s) / 256 == FromLE(s[1..]);
    }
  }

  /** Byte i is `(value >> (8 * i)) & 0xff`, the expression in the write loop. */
  lemma {:induction false} LEByte(v: nat, w: nat, i: nat)
    requires i < w
    ensures LE(v, w)[i] == v / Pow256(i) % 256
  {
    if i > 0 {
      LEByte(v / 256, w - 1, i - 1);
      DivDiv(v, 256, Pow256(i - 1));
    }
  }

  lemma {:induction false} DivDiv(v: nat, a: nat, b: nat)
    requires a > 0 && b > 0
    ensures a * b > 0 && v / a / b == v / (a * b)
  {
    var x := v / a;
    var q, r, t := x / b, x % b, v % a;
    MixedRadix(q, r, t, a, b);
    ModUnique(v, a * b, q, r * a + t);
  }

  lemma {:induction false} MixedRadix(q: nat, r: nat, t: nat, a: nat, b: nat)
    requires r < b && t < a
    ensures 0 <= r * a + t < a * b
    ensures (q * b + r) * a + t == q * (a * b) + (r * a + t)
  {
    MulMono(r + 1, b, a);
    assert (r + 1) * a == r * a + a;
    assert (q * b + r) * a == (q * b) * a + r * a;
    assert (q * b) * a == q * (a * b);
  }

  lemma {:induction false} MulMono(x: nat, y: nat, a: nat)
    requires x <= y
    ensures x * a <= y * a
  {
    if x < y {
      MulMono(x, y - 1, a);
    }
  }

  /** The read loop's partial sum grows by byte << (8 * i). */
  lemma {:induction false} FromLEAppend(s: bytes, b: byte)
    ensures FromLE(s + [b]) == FromLE(s) + b * Pow256(|s|)
  {
    if s != [] {
      FromLEAppend(s[1..], b);
      assert (s + [b])[1..] == s[1..] + [b];
      assert b * (256 * Pow256(|s| - 1)) == 256 * (b * Pow256(|s| - 1));
    }
  }

  /** The low bytes are the low part of the number. */
  lemma {:induction false} FromLEConcat(a: bytes, b: bytes)
    ensures FromLE(a + b) == FromLE(a) + Pow256(|a|) * FromLE(b)
  {
    if a == [] {
      assert a + b == b;
    } else {
      FromLEConcat(a[1..], b);
      assert (a + b)[1..] == a[1..] + b;
      Scaled(Pow256(|a| - 1), FromLE(b));
      hide Pow256;
    }
  }

  lemma {:induction false} Scaled(p: nat, v: nat)
    ensures 256 * (p * v) == 256 * p * v
  {
  }

  predicate InSpan(size: nat, offset: nat, count: nat) {
    offset <= size && size - offset >= count
  }

  /** ReadLittleEndian on an unsigned type of w bytes. */
  function ReadAt(s: bytes, offset: nat, w: nat): (r: Result<nat>)
    ensures if InSpan(|s|, offset, w) then r.Ok? && r.get < Pow256(w) else r == Err(InvalidArgument)
  {
    if InSpan(|s|, offset, w) then Ok(FromLE(s[offset..offset + w])) else Err(InvalidArgument)
  }

  /** s with content put over the bytes at an offset. */
  function Put(s: bytes, at: nat, content: bytes): (r: bytes)
    requires InSpan(|s|, at, |content|)
    ensures |r| == |s|
  {
    s[..at] + content + s[at + |content|..]
  }

  /** s with the w bytes at offset replaced by v. */
  function WriteAt(s: bytes, offset: nat, w: nat, v: nat): (r: bytes)
    requires InSpan(|s|, offset, w)
    ensures |r| == |s|
  {
    Put(s, offset, LE(v, w))
  }

  lemma {:induction false} PutIs(s: bytes, at: nat, content: bytes)
    requires InSpan(|s|, at, |content|)
    ensures Put(s, at, content) == s[..at] + content[..|content|] + s[at + |content|..]
  {
  }

  lemma {:induction false} PutOn(s: bytes, at: nat, content: bytes, more: bytes)
    requires at + |content| + |more| <= |s|
    ensures Put(Put(s, at, content), at + |content|, more) == Put(s, at, content + more)
  {
  }

  /** What is put is there, and nothing else has changed. */
  lemma {:induction false} PutThere(s: bytes, at: nat, content: bytes, lo: nat, hi: nat)
    requires at + |content| <= |s| && lo <= hi <= |s|
    ensures Put(s, at, content)[at..at + |content|] == content
    ensures hi <= at || at + |content| <= lo ==> Put(s, at, content)[lo..hi] == s[lo..hi]
  {
  }

  function Zeros(n: nat): (r: bytes)
    ensures |r| == n
  {
    seq(n, _ => 0)
  }

  lemma {:induction false} ZeroBytes(w: nat)
    ensures LE(0, w) == Zeros(w)
  {
    if w > 0 {
      ZeroBytes(w - 1);
      assert Zeros(w) == [0] + Zeros(w - 1);
    }
  }

  lemma {:induction false} ReadWritten(s: bytes, offset: nat, w: nat, v: nat)
    requires InSpan(|s|, offset, w) && v < Pow256(w)
    ensures ReadAt(WriteAt(s, offset, w, v), offset, w) == Ok(v)
  {
    FromLEofLE(v, w);
    assert WriteAt(s, offset, w, v)[offset..offset + w] == LE(v, w);
  }

  lemma {:induction false} SliceWrittenElsewhere(s: bytes, offset: nat, w: nat, v: nat, lo: nat, hi: nat)
    requires InSpan(|s|, offset, w)
    requires lo <= hi <= |s| && (hi <= offset || offset + w <= lo)
    ensures WriteAt(s, offset, w, v)[lo..hi] == s[lo..hi]
  {
  }

  lemma {:induction false} WriteStep(was: bytes, offset: nat, content: bytes, i: nat)
    requires i < |content| && InSpan(|was|, offset, |content|)
    ensures (was[..offset] + content[..i] + was[offset + i..])[offset + i := content[i]]
         == was[..offset] + content[..i + 1] + was[offset + i + 1..]
  {
  }

  method WriteLittleEndian(value: nat, width: nat, span: array<byte>, offset: nat) returns (r: Result<()>)
    modifies span
    ensures r == if InSpan(span.Length, offset, width) then Ok(()) else Err(InvalidArgument)
    ensures r.Ok? ==> span[..] == WriteAt(old(span[..]), offset, width, value)
    ensures r.Err? ==> span[..] == old(span[..])
  {
    hide LE, Pow256, Put;
    if offset > span.Length || span.Length - offset < width {
      return Err(InvalidArgument);
    }
    ghost var was := span[..];
    for i := 0 to width
      invariant span[..] == was[..offset] + LE(value, width)[..i] + was[offset + i..]
    {
      LEByte(value, width, i);
      WriteStep(was, offset, LE(value, width), i);
      ghost var before := span[..];
      span[offset + i] := value / Pow256(i) % 256;
      assert span[..] == before[offset + i := LE(value, width)[i]];
    }
    PutIs(was, offset, LE(value, width));
    r := Ok(());
  }

  method ReadLittleEndian(span: bytes, offset: nat, width: nat) returns (r: Result<nat>)
    ensures r == ReadAt(span, offset, width)
  {
    if offset > |span| || |span| - offset < width {
      return Err(InvalidArgument);
    }
    var v := 0;
    for i := 0 to width
      invariant v == FromLE(span[offset..offset + i])
    {
      FromLEAppend(span[offset..offset + i], span[offset + i]);
      assert span[offset..offset + i + 1] == span[offset..offset + i] + [span[offset + i]];
      v := v + span[offset + i] * Pow256(i);
    }
    r := Ok(v);
  }

  /** bit_cast between a signed and an unsigned integer of w bytes. */
  function ToUnsigned(v: int, w: nat): (u: int)
    requires InSigned(v, w)
    ensures 0 <= u < Pow256(w)
  {
    if v < 0 then v + Pow256(w) else v
  }

  function ToSigned(u: nat, w: nat): (v: int)
    requires u < Pow256(w)
    ensures InSigned(v, w)
  {
    if 2 * u < Pow256(w) then u else u - Pow256(w)
  }

  predicate InSigned(v: int, w: nat) {
    0 <= 2 * v + Pow256(w) && 2 * v < Pow256(w)
  }

  lemma {:induction false} SignedRoundTrip(v: int, u: nat, w: nat)
    requires InSigned(v, w) && u < Pow256(w)
    ensures ToSigned(ToUnsigned(v, w), w) == v
    ensures ToUnsigned(ToSigned(u, w), w) == u
  {
  }

  function AlignUp(value: nat, alignment: nat): (r: nat)
    ensures r >= value
    ensures alignment > 0 ==> r % alignment == 0 && r < value + alignment
  {
    if alignment == 0 then value
    else if value % alignment == 0 then value
    else
      var a := value + (alignment - value % alignment);
      assert a % alignment == 0 by {
        assert a == (value / alignment + 1) * alignment + 0;
        ModUnique(a, alignment, value / alignment + 1, 0);
      }
      a
  }

  /** A 16-byte reference to a value: where it is, its length and its element count. */
  datatype ValueRef16 = ValueRef16(offset: u64, byteLength: u32, elementCount: u32)

  function RefBytes(offset: nat, byteLength: nat, elementCount: nat): (r: bytes)
    ensures |r| == 16
  {
    LE(offset, 8) + LE(byteLength, 4) + LE(elementCount, 4)
  }

  function EncodeRef(ref: ValueRef16): (r: bytes)
    ensures |r| == 16
  {
    RefBytes(ref.offset, ref.byteLength, ref.elementCount)
  }

  function DecodeRefAt(s: bytes, offset: nat): (r: Result<ValueRef16>) {
    if !InSpan(|s|, offset, 16) then Err(InvalidArgument)
    else
      PowersOf256();
      var at :- ReadAt(s, offset, 8);
      var len :- ReadAt(s, offset + 8, 4);
      var n :- ReadAt(s, offset + 12, 4);
      Ok(ValueRef16(at, len, n))
  }

  lemma {:induction false} DecodeEncodedRef(s: bytes, offset: nat, ref: ValueRef16)
    requires InSpan(|s|, offset, 16) && s[offset..offset + 16] == EncodeRef(ref)
    ensures DecodeRefAt(s, offset) == Ok(ref)
  {
    PowersOf256();
    FromLEofLE(ref.offset, 8);
    FromLEofLE(ref.byteLength, 4);
    FromLEofLE(ref.elementCount, 4);
    var e := s[offset..offset + 16];
    SubSlice(s, offset, offset + 16, 0, 8);
    SubSlice(s, offset, offset + 16, 8, 12);
    SubSlice(s, offset, offset + 16, 12, 16);
    assert e[0..8] == LE(ref.offset, 8);
    assert e[8..12] == LE(ref.byteLength, 4);
    assert e[12..16] == LE(ref.elementCount, 4);
  }
}
