/** The "KVIU" upsert payload, src/ingest/update_applier.cc: printer, parser and the byte reader's loops. */
module WireFrame {
  import opened Basics
  import opened ByteIO
  import opened Values

  // ---- The printer: the format comment ---------------------------------------------------------

  /** "KVIU" */
  const MAGIC: bytes := [75, 86, 73, 85]

  function KindOf(v: Value): byte
    requires IsValue(v)
  {
    match v
    case Null => 0
    case Num(t, _) => TypeCode(t)
    case Str(_) => 6
    case NumList(t, _) => 16 + TypeCode(t)
    case StrList(_) => 22
  }

  function PrintStrings(ss: seq<bytes>): (r: bytes)
    ensures |r| == StringsLength(ss)
  {
    if ss == [] then [] else LE(|ss[0]|, 4) + ss[0] + PrintStrings(ss[1..])
  }

  function PrintValue(v: Value): (r: bytes)
    requires IsValue(v)
    ensures |r| == WireLength(v)
  {
    match v
    case Null => []
    case Num(t, n) => NumBytes(t, n)
    case Str(s) => s
    case NumList(t, ns) => LE(|ns|, 4) + ListBytes(t, ns)
    case StrList(ss) => LE(|ss|, 4) + PrintStrings(ss)
  }

  function PrintField(f: Field): (r: bytes)
    requires IsValue(f.value)
    ensures |r| == 9 + WireLength(f.value)
  {
    LE(f.id, 4) + [KindOf(f.value)] + LE(WireLength(f.value), 4) + PrintValue(f.value)
  }

  function PrintFields(fields: seq<Field>): bytes
    requires AreValues(fields)
  {
    if fields == [] then [] else PrintField(fields[0]) + PrintFields(fields[1..])
  }

  function Print(fields: seq<Field>): bytes
    requires AreValues(fields)
  {
    MAGIC + LE(1, 2) + LE(0, 2) + LE(|fields|, 4) + PrintFields(fields)
  }

  // ---- The parser: what the reader accepts -----------------------------------------------------

  /** count length-prefixed strings, and nothing after them. */
  function ParseStrings(s: bytes, count: nat): (r: Result<seq<bytes>>)
    ensures r.Ok? ==> |r.get| == count
    decreases count
  {
    if count == 0 then (if s == [] then Ok([]) else Err(InvalidArgument))
    else
      var n :- ReadAt(s, 0, 4);
      if |s| - 4 < n then Err(InvalidArgument)
      else
        var rest :- ParseStrings(s[4 + n..], count - 1);
        Ok([s[4..4 + n]] + rest)
  }

  function ParseNumberList(t: FieldType, s: bytes): Result<seq<int>>
    requires Numeric(t)
  {
    var count :- ReadAt(s, 0, 4);
    ParseList(t, s[4..], count)
  }

  function ParseStringList(s: bytes): Result<seq<bytes>> {
    var count :- ReadAt(s, 0, 4);
    ParseStrings(s[4..], count)
  }

  /** DecodeValue: kinds 0, 1 to 6 and 17 to 22. */
  function ParseValue(kind: byte, s: bytes): (r: Result<Value>)
    ensures r.Ok? ==> IsValue(r.get)
  {
    if kind == 0 then (if s == [] then Ok(Null) else Err(InvalidArgument))
    else if 1 <= kind <= 5 then
      var n :- ParseNum(TypeOf(kind), s);
      Ok(Num(TypeOf(kind), n))
    else if kind == 6 then Ok(Str(s))
    else if 17 <= kind <= 21 then
      var ns :- ParseNumberList(TypeOf(kind - 16), s);
      Ok(NumList(TypeOf(kind - 16), ns))
    else if kind == 22 then
      var ss :- ParseStringList(s);
      Ok(StrList(ss))
    else Err(InvalidArgument)
  }

  /** One field at the front of s, and the bytes behind it. */
  function ParseField(s: bytes, seen: set<u32>): (r: Result<(Field, bytes)>)
    ensures r.Ok? ==> IsValue(r.get.0.value) && r.get.0.id !in seen && |r.get.1| < |s|
  {
    PowersOf256();
    var id :- ReadAt(s, 0, 4);
    if id in seen then Err(InvalidArgument)
    else if |s| < 5 then Err(InvalidArgument)
    else
      var n :- ReadAt(s, 5, 4);
      if |s| - 9 < n then Err(InvalidArgument)
      else
        var value :- ParseValue(s[4], s[9..9 + n]);
        Ok((Field(id, value), s[9 + n..]))
  }

  function ParseFields(s: bytes, count: nat, seen: set<u32>): (r: Result<seq<Field>>)
    ensures r.Ok? ==> |r.get| == count && forall i :: 0 <= i < count ==> IsValue(r.get[i].value) && r.get[i].id !in seen
    decreases count
  {
    if count == 0 then (if s == [] then Ok([]) else Err(InvalidArgument))
    else
      var first :- ParseField(s, seen);
      var rest :- ParseFields(first.1, count - 1, seen + {first.0.id});
      Ok([first.0] + rest)
  }

  function Parse(s: bytes): (r: Result<seq<Field>>)
    ensures r.Ok? ==> forall i :: 0 <= i < |r.get| ==> IsValue(r.get[i].value)
  {
    if |s| < 12 || s[..4] != MAGIC then Err(InvalidArgument)
    else
      var version, flags, count := FromLE(s[4..6]), FromLE(s[6..8]), FromLE(s[8..12]);
      if version != 1 || flags != 0 then Err(InvalidArgument)
      else ParseFields(s[12..], count, {})
  }

  // ---- Parsing what was printed ----------------------------------------------------------------

  /** An integer at the front, and what is left behind it. */
  lemma {:induction false} FrontInteger(v: nat, w: nat, rest: bytes)
    requires v < Pow256(w)
    ensures ReadAt(LE(v, w) + rest, 0, w) == Ok(v)
    ensures (LE(v, w) + rest)[w..] == rest
  {
    hide LE, FromLE;
    FromLEofLE(v, w);
    assert (LE(v, w) + rest)[0..w] == LE(v, w);
  }

  lemma {:induction false} ParsePrintedStrings(ss: seq<bytes>)
    requires forall s :: s in ss ==> |s| < TWO_32
    ensures ParseStrings(PrintStrings(ss), |ss|) == Ok(ss)
    decreases |ss|
  {
    hide LE, ReadAt;
    if ss != [] {
      PowersOf256();
      var n, rest := |ss[0]|, PrintStrings(ss[1..]);
      var s := PrintStrings(ss);
      assert s == LE(n, 4) + (ss[0] + rest);
      FrontInteger(n, 4, ss[0] + rest);
      assert s[4..4 + n] == ss[0] && s[4 + n..] == rest;
      ParsePrintedStrings(ss[1..]);
      assert [ss[0]] + ss[1..] == ss;
    }
  }

  lemma {:induction false} ParsePrintedValue(v: Value)
    requires IsValue(v) && WireLength(v) < TWO_32
    ensures ParseValue(KindOf(v), PrintValue(v)) == Ok(v)
  {
    hide LE, ReadAt, ParseNum, NumBytes, ParseList, ListBytes;
    PowersOf256();
    match v
    case Null =>
    case Num(t, n) => ParseNumBytes(t, n);
    case Str(s) =>
    case NumList(t, ns) =>
      MulMono(1, FieldTypeSize(t), |ns|);
      ParseListBytes(t, ns);
      FrontInteger(|ns|, 4, ListBytes(t, ns));
    case StrList(ss) =>
      StringsLengthBounds(ss);
      FrontInteger(|ss|, 4, PrintStrings(ss));
      ParsePrintedStrings(ss);
  }

  lemma {:induction false} ParsePrintedField(f: Field, rest: bytes, seen: set<u32>)
    requires IsValue(f.value) && WireLength(f.value) < TWO_32 && f.id !in seen
    ensures ParseField(PrintField(f) + rest, seen) == Ok((f, rest))
  {
    hide LE, ReadAt, ParseValue, PrintValue;
    PowersOf256();
    var n, text := WireLength(f.value), PrintValue(f.value);
    var kind := KindOf(f.value);
    var s := PrintField(f) + rest;
    assert s == LE(f.id, 4) + ([kind] + LE(n, 4) + text + rest);
    FrontInteger(f.id, 4, [kind] + LE(n, 4) + text + rest);
    FrontInteger(n, 4, text + rest);
    ReadInside(LE(f.id, 4) + [kind], LE(n, 4) + (text + rest), 4);
    assert s == LE(f.id, 4) + [kind] + (LE(n, 4) + (text + rest));
    assert s[4] == kind && s[9..9 + n] == text && s[9 + n..] == rest;
    ParsePrintedValue(f.value);
  }

  /** Reading behind a prefix is reading at the front of the rest. */
  lemma {:induction false} ReadInside(prefix: bytes, s: bytes, w: nat)
    ensures ReadAt(prefix + s, |prefix|, w) == ReadAt(s, 0, w)
  {
    if w <= |s| {
      assert (prefix + s)[|prefix|..|prefix| + w] == s[0..w];
    }
  }

  lemma {:induction false} ParsePrintedFields(fields: seq<Field>, seen: set<u32>)
    requires AreValues(fields) && DistinctIds(fields) && forall i :: 0 <= i < |fields| ==> fields[i].id !in seen
    ensures ParseFields(PrintFields(fields), |fields|, seen) == Ok(fields)
    decreases |fields|
  {
    hide ParseField, PrintField;
    if fields != [] {
      ParsePrintedField(fields[0], PrintFields(fields[1..]), seen);
      ParsePrintedFields(fields[1..], seen + {fields[0].id});
      assert [fields[0]] + fields[1..] == fields;
    }
  }

  /** Decoding a printed payload gives it back. */
  lemma {:induction false} ParsePrint(fields: seq<Field>)
    requires AreValues(fields) && DistinctIds(fields) && |fields| < TWO_32
    ensures Parse(Print(fields)) == Ok(fields)
  {
    hide LE, FromLE, ParseFields, PrintFields;
    PowersOf256();
    var body, count, s := PrintFields(fields), LE(|fields|, 4), Print(fields);
    assert s[..4] == MAGIC && s[4..6] == LE(1, 2) && s[6..8] == LE(0, 2) && s[8..12] == count && s[12..] == body;
    FromLEofLE(1, 2);
    FromLEofLE(0, 2);
    FromLEofLE(|fields|, 4);
    ParsePrintedFields(fields, {});
  }

  // ---- Printing what was parsed ----------------------------------------------------------------

  lemma {:induction false} ReprintInteger(s: bytes, at: nat, w: nat)
    requires ReadAt(s, at, w).Ok?
    ensures LE(ReadAt(s, at, w).get, w) == s[at..at + w]
  {
    LEofFromLE(s[at..at + w]);
  }

  lemma {:induction false} ReprintStrings(s: bytes, count: nat)
    requires ParseStrings(s, count).Ok?
    ensures PrintStrings(ParseStrings(s, count).get) == s
    decreases count
  {
    hide LE, FromLE;
    if count > 0 {
      var n := ReadAt(s, 0, 4).get;
      var ss := ParseStrings(s, count).get;
      ReprintInteger(s, 0, 4);
      ReprintStrings(s[4 + n..], count - 1);
      assert ss[1..] == ParseStrings(s[4 + n..], count - 1).get && ss[0] == s[4..4 + n];
      assert s == s[0..4] + s[4..4 + n] + s[4 + n..];
    }
  }

  lemma {:induction false} ReprintValue(kind: byte, s: bytes)
    requires ParseValue(kind, s).Ok?
    ensures var v := ParseValue(kind, s).get;
      KindOf(v) == kind && PrintValue(v) == s && WireLength(v) == |s|
  {
    hide LE, FromLE, ParseNum, NumBytes;
    PowersOf256();
    if 1 <= kind <= 5 {
      NumBytesParse(TypeOf(kind), s);
    } else if 17 <= kind <= 21 {
      ReprintInteger(s, 0, 4);
      ListBytesParse(TypeOf(kind - 16), s[4..]);
      assert s == s[0..4] + s[4..];
    } else if kind == 22 {
      ReprintInteger(s, 0, 4);
      ReprintStrings(s[4..], ReadAt(s, 0, 4).get);
      assert s == s[0..4] + s[4..];
    }
  }

  lemma {:induction false} ReprintField(s: bytes, seen: set<u32>)
    requires ParseField(s, seen).Ok?
    ensures var (f, rest) := ParseField(s, seen).get;
      WireLength(f.value) < TWO_32 && PrintField(f) + rest == s
  {
    hide LE, FromLE, ParseValue, PrintValue;
    PowersOf256();
    var n := ReadAt(s, 5, 4).get;
    ReprintInteger(s, 0, 4);
    ReprintInteger(s, 5, 4);
    ReprintValue(s[4], s[9..9 + n]);
    assert s == s[0..4] + [s[4]] + s[5..9] + s[9..9 + n] + s[9 + n..];
  }

  lemma {:induction false} ReprintFields(s: bytes, count: nat, seen: set<u32>)
    requires ParseFields(s, count, seen).Ok?
    ensures AreValues(ParseFields(s, count, seen).get) && DistinctIds(ParseFields(s, count, seen).get)
    ensures PrintFields(ParseFields(s, count, seen).get) == s
    decreases count
  {
    hide ParseField, PrintField;
    if count > 0 {
      var (f, rest) := ParseField(s, seen).get;
      var fields := ParseFields(s, count, seen).get;
      ReprintField(s, seen);
      ReprintFields(rest, count - 1, seen + {f.id});
      assert fields[1..] == ParseFields(rest, count - 1, seen + {f.id}).get;
      forall i | 0 <= i < |fields|
        ensures WireLength(fields[i].value) < TWO_32
      {
        assert i > 0 ==> fields[i] == fields[1..][i - 1];
      }
      forall i, j | 0 <= i < j < |fields|
        ensures fields[i].id != fields[j].id
      {
        assert fields[j] == fields[1..][j - 1];
        assert i > 0 ==> fields[i] == fields[1..][i - 1];
      }
    }
  }

  /** Re-printing any accepted frame gives the same bytes: with ParsePrint, decoding is a bijection. */
  lemma {:induction false} PrintParse(s: bytes)
    requires Parse(s).Ok?
    ensures AreValues(Parse(s).get) && DistinctIds(Parse(s).get) && |Parse(s).get| < TWO_32
    ensures Print(Parse(s).get) == s
  {
    hide LE, FromLE, ParseFields, PrintFields;
    PowersOf256();
    LEofFromLE(s[4..6]);
    LEofFromLE(s[6..8]);
    LEofFromLE(s[8..12]);
    ReprintFields(s[12..], FromLE(s[8..12]), {});
    assert s == s[..4] + s[4..6] + s[6..8] + s[8..12] + s[12..];
  }
}
