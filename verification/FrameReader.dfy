/** ByteReader and the decoding loops of src/ingest/update_applier.cc, proved against WireFrame's parser. */
module FrameReader {
  import opened Basics
  import opened ByteIO
  import opened Values
  import opened WireFrame

  class ByteReader {
    const s: bytes
    var offset: nat

    ghost predicate Valid()
      reads this
    {
      offset <= |s|
    }

    ghost function Rest(): bytes
      requires Valid()
      reads this
    {
      s[offset..]
    }

    constructor (s: bytes)
      ensures Valid() && offset == 0 && this.s == s && Rest() == s
    {
      this.s := s;
      offset := 0;
    }

    function Remaining(): nat
      requires Valid()
      reads this
    {
      |s| - offset
    }

    /** Reads and steps over an integer; a truncated payload leaves the reader where it was. */
    method ReadInteger(w: nat) returns (r: Result<nat>)
      requires Valid()
      modifies this
      ensures Valid() && r == ReadAt(old(Rest()), 0, w)
      ensures if r.Ok? then Rest() == old(Rest())[w..] else offset == old(offset)
    {
      if Remaining() < w {
        return Err(InvalidArgument);
      }
      r := ReadLittleEndian(s, offset, w);
      assert s[offset..][0..w] == s[offset..offset + w];
      offset := offset + w;
    }

    method ReadUInt8() returns (r: Result<byte>)
      requires Valid()
      modifies this
      ensures Valid() && r == if old(Rest()) == [] then Err(InvalidArgument) else Ok(old(Rest())[0])
      ensures if r.Ok? then Rest() == old(Rest())[1..] else offset == old(offset)
    {
      if Remaining() < 1 {
        return Err(InvalidArgument);
      }
      r := Ok(s[offset]);
      offset := offset + 1;
    }

    method ReadBytes(size: nat) returns (r: Result<bytes>)
      requires Valid()
      modifies this
      ensures Valid() && r == if |old(Rest())| < size then Err(InvalidArgument) else Ok(old(Rest())[..size])
      ensures if r.Ok? then Rest() == old(Rest())[size..] else offset == old(offset)
    {
      if Remaining() < size {
        return Err(InvalidArgument);
      }
      r := Ok(s[offset..offset + size]);
      assert s[offset..][..size] == s[offset..offset + size];
      offset := offset + size;
    }
  }

  /** ReadScalarList and ReadBoolList: the length must match the count before any element is read. */
  method ReadNumberList(t: FieldType, s: bytes) returns (r: Result<seq<int>>)
    requires Numeric(t)
    ensures r == ParseNumberList(t, s)
  {
    var reader := new ByteReader(s);
    var count := reader.ReadInteger(4);
    if count.Err? {
      return Err(count.code);
    }
    r := DecodeScalarList(t, s[4..], count.get);
  }

  lemma {:induction false} FrontString(s: bytes, n: nat)
    requires 4 + n <= |s|
    ensures s[4..][..n] == s[4..4 + n] && s[4..][n..] == s[4 + n..]
  {
  }

  /** A length and that many bytes. */
  method ReadPrefixed(reader: ByteReader) returns (r: Result<bytes>)
    requires reader.Valid()
    modifies reader
    ensures reader.Valid()
    ensures var n := ReadAt(old(reader.Rest()), 0, 4);
      if n.Ok? && 4 + n.get <= |old(reader.Rest())|
      then r == Ok(old(reader.Rest())[4..4 + n.get]) && reader.Rest() == old(reader.Rest())[4 + n.get..]
      else r == Err(InvalidArgument)
  {
    hide ReadAt;
    ghost var rest := reader.Rest();
    var length := reader.ReadInteger(4);
    if length.Err? {
      return Err(InvalidArgument);
    }
    r := reader.ReadBytes(length.get);
    if r.Ok? {
      FrontString(rest, length.get);
    }
  }

  method ReadStringList(s: bytes) returns (r: Result<seq<bytes>>)
    ensures r == ParseStringList(s)
  {
    hide ReadAt;
    var reader := new ByteReader(s);
    var count := reader.ReadInteger(4);
    if count.Err? {
      return Err(count.code);
    }
    var values: seq<bytes> := [];
    PrependOne([], [], ParseStrings(s[4..], count.get));
    for i := 0 to count.get
      invariant reader.Valid() && fresh(reader)
      invariant ParseStrings(s[4..], count.get) == Prepend(values, ParseStrings(reader.Rest(), count.get - i))
    {
      var raw := ReadPrefixed(reader);
      if raw.Err? {
        return Err(InvalidArgument);
      }
      PrependOne(values, raw.get, ParseStrings(reader.Rest(), count.get - i - 1));
      values := values + [raw.get];
    }
    if reader.Remaining() != 0 {
      return Err(InvalidArgument);
    }
    assert values + [] == values;
    r := Ok(values);
  }

  method DecodeValue(kind: byte, s: bytes) returns (r: Result<Value>)
    ensures r == ParseValue(kind, s)
  {
    hide ParseNumberList, ParseStringList, ParseNum;
    if kind == 0 {
      r := if s != [] then Err(InvalidArgument) else Ok(Null);
    } else if 1 <= kind <= 5 {
      var n := ParseNum(TypeOf(kind), s);
      r := match n case Ok(x) => Ok(Num(TypeOf(kind), x)) case Err(code) => Err(code);
    } else if kind == 6 {
      r := Ok(Str(s));
    } else if 17 <= kind <= 21 {
      var ns := ReadNumberList(TypeOf(kind - 16), s);
      r := match ns case Ok(xs) => Ok(NumList(TypeOf(kind - 16), xs)) case Err(code) => Err(code);
    } else if kind == 22 {
      var ss := ReadStringList(s);
      r := match ss case Ok(xs) => Ok(StrList(xs)) case Err(code) => Err(code);
    } else {
      r := Err(InvalidArgument);
    }
  }

  method DecodeField(reader: ByteReader, seen: set<u32>) returns (r: Result<Field>)
    requires reader.Valid()
    modifies reader
    ensures reader.Valid()
    ensures ParseField(old(reader.Rest()), seen)
         == match r { case Ok(f) => Ok((f, reader.Rest())) case Err(code) => Err(code) }
  {
    hide ReadAt, ParseValue;
    PowersOf256();
    ghost var s := reader.Rest();
    var id := reader.ReadInteger(4);
    if id.Err? {
      return Err(InvalidArgument);
    }
    if id.get in seen {
      return Err(InvalidArgument);
    }
    var kind := reader.ReadUInt8();
    if kind.Err? {
      return Err(InvalidArgument);
    }
    ReadShifted(s, 5, 4);
    assert s[4..][1..] == s[5..];
    var length := reader.ReadInteger(4);
    if length.Err? {
      return Err(InvalidArgument);
    }
    assert s[5..][4..] == s[9..];
    var raw := reader.ReadBytes(length.get);
    if raw.Err? {
      return Err(InvalidArgument);
    }
    assert raw.get == s[9..9 + length.get] && reader.Rest() == s[9 + length.get..];
    var value := DecodeValue(kind.get, raw.get);
    r := match value case Ok(v) => Ok(Field(id.get, v)) case Err(code) => Err(code);
  }

  lemma {:induction false} ReadShifted(s: bytes, at: nat, w: nat)
    requires at <= |s|
    ensures ReadAt(s, at, w) == ReadAt(s[at..], 0, w)
  {
    if InSpan(|s|, at, w) {
      assert s[at..][0..w] == s[at..at + w];
    }
  }

  /** DecodePayload: the fixed header, then one field per iteration with the ids seen so far. */
  method DecodePayload(s: bytes) returns (r: Result<seq<Field>>)
    ensures r == Parse(s)
  {
    hide FromLE, ParseField;
    if |s| < 12 || s[0] != MAGIC[0] || s[1] != MAGIC[1] || s[2] != MAGIC[2] || s[3] != MAGIC[3] {
      return Err(InvalidArgument);
    }
    assert s[..4] == MAGIC;
    var reader := new ByteReader(s[4..]);
    var version := reader.ReadInteger(2);
    assert s[4..][0..2] == s[4..6];
    if version.get != 1 {
      return Err(InvalidArgument);
    }
    var flags := reader.ReadInteger(2);
    assert s[4..][2..][0..2] == s[6..8];
    if flags.get != 0 {
      return Err(InvalidArgument);
    }
    var count := reader.ReadInteger(4);
    assert s[4..][2..][2..][0..4] == s[8..12];
    assert reader.Rest() == s[12..];
    r := DecodeFields(reader, count.get);
  }

  method DecodeFields(reader: ByteReader, count: nat) returns (r: Result<seq<Field>>)
    requires reader.Valid()
    modifies reader
    ensures r == ParseFields(old(reader.Rest()), count, {})
  {
    hide ParseField;
    ghost var s := reader.Rest();
    var fields: seq<Field> := [];
    var seen: set<u32> := {};
    PrependOne([], Field(0, Null), ParseFields(s, count, {}));
    for i := 0 to count
      invariant reader.Valid()
      invariant ParseFields(s, count, {}) == Prepend(fields, ParseFields(reader.Rest(), count - i, seen))
    {
      var field := DecodeField(reader, seen);
      if field.Err? {
        return Err(field.code);
      }
      PrependOne(fields, field.get, ParseFields(reader.Rest(), count - i - 1, seen + {field.get.id}));
      seen := seen + {field.get.id};
      fields := fields + [field.get];
    }
    if reader.Remaining() != 0 {
      return Err(InvalidArgument);
    }
    assert fields + [] == fields;
    r := Ok(fields);
  }
}
