/** Field types, field values and their little-endian bytes, shared by the wire frame and the row codec. */
module Values {
  import opened Basics
  import opened ByteIO

  /** The enum has an underlying byte, and files can hold a code that names no enumerator. */
  datatype FieldType = Int8 | Int32 | Int64 | UInt64 | Bool | String | OtherType(code: byte)

  function TypeCode(t: FieldType): byte {
    match t
    case Int8 => 1 case Int32 => 2 case Int64 => 3 case UInt64 => 4 case Bool => 5 case String => 6
    case OtherType(code) => code
  }

  function TypeOf(code: byte): FieldType {
    if code == 1 then Int8 else if code == 2 then Int32 else if code == 3 then Int64
    else if code == 4 then UInt64 else if code == 5 then Bool else if code == 6 then String
    else OtherType(code)
  }

  function FieldTypeSize(t: FieldType): nat {
    match t
    case Int8 => 1 case Bool => 1 case Int32 => 4 case Int64 => 8 case UInt64 => 8 case String => 16
    case OtherType(_) => 0
  }

  function FieldTypeAlignment(t: FieldType): (a: nat)
    ensures a == 1 || a == 4 || a == 8
  {
    match t
    case Int8 => 1 case Bool => 1 case Int32 => 4 case Int64 => 8 case UInt64 => 8 case String => 8
    case OtherType(_) => 1
  }

  predicate Numeric(t: FieldType) {
    !t.String? && !t.OtherType?
  }

  /** The alternatives of the value variant; booleans are the numbers 0 and 1 of type Bool. */
  datatype Value =
    | Null
    | Num(ntype: FieldType, n: int)
    | Str(s: bytes)
    | NumList(ltype: FieldType, ns: seq<int>)
    | StrList(ss: seq<bytes>)

  predicate InRange(t: FieldType, n: int) {
    match t
    case Bool => 0 <= n <= 1
    case UInt64 => 0 <= n < Pow256(8)
    case _ => InSigned(n, FieldTypeSize(t))
  }

  /** The values that the C++ variant can hold. */
  ghost predicate IsValue(v: Value) {
    match v
    case Num(t, n) => Numeric(t) && InRange(t, n)
    case NumList(t, ns) => Numeric(t) && AllInRange(t, ns)
    case _ => true
  }

  ghost predicate AllInRange(t: FieldType, ns: seq<int>) {
    forall i :: 0 <= i < |ns| ==> InRange(t, ns[i])
  }

  function NumBits(t: FieldType, n: int): (u: nat)
    requires Numeric(t) && InRange(t, n)
    ensures u < Pow256(FieldTypeSize(t))
  {
    if t.Bool? || t.UInt64? then n else ToUnsigned(n, FieldTypeSize(t))
  }

  function NumBytes(t: FieldType, n: int): (s: bytes)
    requires Numeric(t) && InRange(t, n)
    ensures |s| == FieldTypeSize(t)
  {
    LE(NumBits(t, n), FieldTypeSize(t))
  }

  function ParseNum(t: FieldType, s: bytes): (r: Result<int>)
    requires Numeric(t)
    ensures r.Ok? ==> InRange(t, r.get)
  {
    if |s| != FieldTypeSize(t) then Err(InvalidArgument)
    else if t.Bool? then (if FromLE(s) > 1 then Err(InvalidArgument) else Ok(FromLE(s)))
    else if t.UInt64? then Ok(FromLE(s))
    else Ok(ToSigned(FromLE(s), FieldTypeSize(t)))
  }

  lemma {:induction false} ParseNumBytes(t: FieldType, n: int)
    requires Numeric(t) && InRange(t, n)
    ensures ParseNum(t, NumBytes(t, n)) == Ok(n)
  {
    FromLEofLE(NumBits(t, n), FieldTypeSize(t));
  }

  lemma {:induction false} NumBytesParse(t: FieldType, s: bytes)
    requires Numeric(t) && ParseNum(t, s).Ok?
    ensures NumBytes(t, ParseNum(t, s).get) == s
  {
    LEofFromLE(s);
    if !t.Bool? && !t.UInt64? {
      SignedRoundTrip(0, FromLE(s), FieldTypeSize(t));
    }
  }

  /** The elements back to back. */
  function ListBytes(t: FieldType, ns: seq<int>): (s: bytes)
    requires Numeric(t) && AllInRange(t, ns)
    ensures |s| == |ns| * FieldTypeSize(t)
  {
    if ns == [] then [] else NumBytes(t, ns[0]) + ListBytes(t, ns[1..])
  }

  /** Elements one after the other to the end of s; the first bad one is an error. */
  function ParseMany(t: FieldType, s: bytes): (r: Result<seq<int>>)
    requires Numeric(t)
    ensures r.Ok? ==> |s| == |r.get| * FieldTypeSize(t) && AllInRange(t, r.get)
  {
    var w := FieldTypeSize(t);
    if s == [] then Ok([])
    else if |s| < w then Err(InvalidArgument)
    else
      var first :- ParseNum(t, s[..w]);
      var rest :- ParseMany(t, s[w..]);
      OneMore(|rest|, w);
      Ok([first] + rest)
  }

  lemma {:induction false} OneMore(n: nat, w: nat)
    ensures (n + 1) * w == n * w + w
  {
  }

  /** DecodeScalarListBytes: s must hold exactly count elements. */
  function ParseList(t: FieldType, s: bytes, count: nat): (r: Result<seq<int>>)
    requires Numeric(t)
    ensures r.Ok? ==> |r.get| == count && AllInRange(t, r.get)
  {
    if |s| != count * FieldTypeSize(t) then Err(InvalidArgument)
    else
      var ns :- ParseMany(t, s);
      SameCount(|ns|, count, FieldTypeSize(t));
      Ok(ns)
  }

  lemma {:induction false} SameCount(a: nat, b: nat, w: nat)
    requires w > 0 && a * w == b * w
    ensures a == b
  {
    Multiples(a - b, w);
    assert (a - b) * w == a * w - b * w;
  }

  lemma {:induction false} ParseManyBytes(t: FieldType, ns: seq<int>)
    requires Numeric(t) && AllInRange(t, ns)
    ensures ParseMany(t, ListBytes(t, ns)) == Ok(ns)
  {
    if ns != [] {
      var w, s := FieldTypeSize(t), ListBytes(t, ns);
      ParseNumBytes(t, ns[0]);
      ParseManyBytes(t, ns[1..]);
      assert s[..w] == NumBytes(t, ns[0]) && s[w..] == ListBytes(t, ns[1..]);
      assert [ns[0]] + ns[1..] == ns;
    }
  }

  lemma {:induction false} ParseListBytes(t: FieldType, ns: seq<int>)
    requires Numeric(t) && AllInRange(t, ns)
    ensures ParseList(t, ListBytes(t, ns), |ns|) == Ok(ns)
  {
    ParseManyBytes(t, ns);
  }

  lemma {:induction false} ListBytesParse(t: FieldType, s: bytes)
    requires Numeric(t) && ParseMany(t, s).Ok?
    ensures ListBytes(t, ParseMany(t, s).get) == s
  {
    if s != [] {
      var w := FieldTypeSize(t);
      NumBytesParse(t, s[..w]);
      ListBytesParse(t, s[w..]);
      assert ParseMany(t, s).get[1..] == ParseMany(t, s[w..]).get;
      assert s == s[..w] + s[w..];
    }
  }

  lemma {:induction false} ListBytesAppend(t: FieldType, ns: seq<int>, n: int)
    requires Numeric(t) && AllInRange(t, ns) && InRange(t, n)
    ensures ListBytes(t, ns + [n]) == ListBytes(t, ns) + NumBytes(t, n)
  {
    if ns == [] {
      assert ns + [n] == [n];
    } else {
      assert (ns + [n])[1..] == ns[1..] + [n];
      ListBytesAppend(t, ns[1..], n);
    }
  }

  /** EncodeScalarListSpan: one in-place write per element into a buffer of the right size. */
  method EncodeScalarList(t: FieldType, ns: seq<int>) returns (r: Result<bytes>)
    requires t.OtherType? || t.String? || AllInRange(t, ns)
    ensures r == if Numeric(t) then Ok(ListBytes(t, ns)) else Err(InvalidArgument)
  {
    if t.OtherType? || t.String? {
      return Err(InvalidArgument);
    }
    var w := FieldTypeSize(t);
    var buffer := new byte[|ns| * w];
    for i := 0 to |ns|
      invariant AllInRange(t, ns[..i])
      invariant |ListBytes(t, ns[..i])| == i * w <= buffer.Length
      invariant buffer[..i * w] == ListBytes(t, ns[..i])
    {
      ghost var was := buffer[..];
      Room(i, |ns|, w);
      var written := WriteLittleEndian(NumBits(t, ns[i]), w, buffer, i * w);
      assert ns[..i + 1] == ns[..i] + [ns[i]];
      ListBytesAppend(t, ns[..i], ns[i]);
      assert was[..i * w] == ListBytes(t, ns[..i]);
      assert buffer[..i * w + w] == was[..i * w] + NumBytes(t, ns[i]);
    }
    assert ns[..|ns|] == ns;
    assert buffer[..] == buffer[..|ns| * w];
    r := Ok(buffer[..]);
  }

  lemma {:induction false} Room(i: nat, n: nat, w: nat)
    requires i < n
    ensures (i + 1) * w == i * w + w <= n * w
  {
    MulMono(i + 1, n, w);
  }

  function Prepend<T>(xs: seq<T>, r: Result<seq<T>>): Result<seq<T>> {
    match r case Ok(ys) => Ok(xs + ys) case Err(code) => Err(code)
  }

  lemma {:induction false} PrependOne<T>(xs: seq<T>, x: T, r: Result<seq<T>>)
    ensures Prepend(xs + [x], r) == Prepend(xs, Prepend([x], r))
    ensures Prepend([], r) == r
  {
    if r.Ok? {
      assert xs + [x] + r.get == xs + ([x] + r.get);
      assert [] + r.get == r.get;
    }
  }

  /** The reading loop: what is collected so far, then the parse of the rest. */
  method DecodeScalarList(t: FieldType, s: bytes, count: nat) returns (r: Result<seq<int>>)
    requires Numeric(t)
    ensures r == ParseList(t, s, count)
  {
    var w := FieldTypeSize(t);
    if |s| != count * w {
      return Err(InvalidArgument);
    }
    var values: seq<int> := [];
    PrependOne([], 0, ParseMany(t, s));
    assert s[0 * w..] == s;
    for i := 0 to count
      invariant i * w <= |s| == count * w
      invariant ParseMany(t, s) == Prepend(values, ParseMany(t, s[i * w..]))
    {
      Room(i, count, w);
      ghost var tail := s[i * w..];
      assert tail[..w] == s[i * w..(i + 1) * w] && tail[w..] == s[(i + 1) * w..];
      var value := ParseNum(t, s[i * w..(i + 1) * w]);
      if value.Err? {
        return Err(value.code);
      }
      PrependOne(values, value.get, ParseMany(t, tail[w..]));
      values := values + [value.get];
    }
    assert s[count * w..] == [] && values + [] == values;
    r := Ok(values);
  }

  /** Concatenated strings. */
  function Concat(ss: seq<bytes>): bytes {
    if ss == [] then [] else ss[0] + Concat(ss[1..])
  }

  /** Bytes of a string list in a frame after its count: each string with a 4-byte length. */
  function StringsLength(ss: seq<bytes>): nat {
    if ss == [] then 0 else 4 + |ss[0]| + StringsLength(ss[1..])
  }

  /** byte_length of the value in a "KVIU" frame; a frame can only carry lengths below 2^32. */
  function WireLength(v: Value): nat {
    match v
    case Null => 0
    case Num(t, _) => FieldTypeSize(t)
    case Str(s) => |s|
    case NumList(t, ns) => 4 + |ns| * FieldTypeSize(t)
    case StrList(ss) => 4 + StringsLength(ss)
  }

  lemma {:induction false} StringsLengthBounds(ss: seq<bytes>)
    ensures 4 * |ss| + |Concat(ss)| == StringsLength(ss)
    ensures forall s :: s in ss ==> |s| <= |Concat(ss)|
  {
    if ss != [] {
      StringsLengthBounds(ss[1..]);
    }
  }

  /** A decoded payload field. */
  datatype Field = Field(id: u32, value: Value)

  ghost predicate AreValues(fields: seq<Field>) {
    forall i :: 0 <= i < |fields| ==> IsValue(fields[i].value) && WireLength(fields[i].value) < TWO_32
  }

  ghost predicate DistinctIds(fields: seq<Field>) {
    forall i, j :: 0 <= i < j < |fields| ==> fields[i].id != fields[j].id
  }

  /** The payload's value for a field id. */
  function FindValue(fields: seq<Field>, id: u32): (r: Option<Value>)
    ensures r.None? <==> forall i :: 0 <= i < |fields| ==> fields[i].id != id
  {
    if fields == [] then None
    else if fields[0].id == id then Some(fields[0].value)
    else FindValue(fields[1..], id)
  }
}
