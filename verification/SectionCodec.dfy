/** Length-prefixed data in artifact sections: the readers and writers of src/artifact; they undo each other. */
module SectionCodec {
  import opened Basics
  import opened ByteIO
  import opened FrameReader

  /** A value read off the front of some bytes, and the bytes after it. */
  datatype Taken<+T> = Taken(value: T, rest: bytes)

  function TakeInt(s: bytes, w: nat): (r: Result<Taken<nat>>)
    ensures r.Ok? <==> |s| >= w
    ensures r.Ok? ==> r.get.value < Pow256(w) && r.get.rest == s[w..]
    ensures r.Err? ==> r.code == InvalidArgument
  {
    if |s| < w then Err(InvalidArgument) else Ok(Taken(FromLE(s[..w]), s[w..]))
  }

  lemma {:induction false} IntTaken(v: nat, w: nat, tail: bytes)
    requires v < Pow256(w)
    ensures TakeInt(LE(v, w) + tail, w) == Ok(Taken(v, tail))
  {
    FromLEofLE(v, w);
    assert (LE(v, w) + tail)[..w] == LE(v, w) && (LE(v, w) + tail)[w..] == tail;
  }

  /** ReadString with w = 4, ReadBlob with w = 8. */
  function TakeBytes(s: bytes, w: nat): (r: Result<Taken<bytes>>)
    ensures r.Ok? ==> |r.get.rest| + w + |r.get.value| == |s|
    ensures r.Err? ==> r.code == InvalidArgument
  {
    var size :- TakeInt(s, w);
    if |size.rest| < size.value then Err(InvalidArgument)
    else Ok(Taken(size.rest[..size.value], size.rest[size.value..]))
  }

  function PrintBytes(b: bytes, w: nat): bytes {
    LE(|b|, w) + b
  }

  lemma {:induction false} BytesTaken(b: bytes, w: nat, tail: bytes)
    requires |b| < Pow256(w)
    ensures TakeBytes(PrintBytes(b, w) + tail, w) == Ok(Taken(b, tail))
  {
    hide LE, FromLE, Pow256;
    assert PrintBytes(b, w) + tail == LE(|b|, w) + (b + tail);
    IntTaken(|b|, w, b + tail);
    assert (b + tail)[..|b|] == b && (b + tail)[|b|..] == tail;
  }

  function TakeList(s: bytes, n: nat, w: nat): (r: Result<Taken<seq<bytes>>>)
    ensures r.Err? ==> r.code == InvalidArgument
    decreases n
  {
    if n == 0 then Ok(Taken([], s))
    else
      var first :- TakeBytes(s, w);
      var more :- TakeList(first.rest, n - 1, w);
      Ok(Taken([first.value] + more.value, more.rest))
  }

  function PrintList(bs: seq<bytes>, w: nat): bytes {
    if bs == [] then [] else PrintBytes(bs[0], w) + PrintList(bs[1..], w)
  }

  /** Every length fits its prefix. */
  ghost predicate Printable(bs: seq<bytes>, w: nat) {
    forall i :: 0 <= i < |bs| ==> |bs[i]| < Pow256(w)
  }

  lemma {:induction false} ListTaken(bs: seq<bytes>, w: nat, tail: bytes)
    requires Printable(bs, w)
    ensures TakeList(PrintList(bs, w) + tail, |bs|, w) == Ok(Taken(bs, tail))
  {
    hide PrintBytes, TakeBytes, Pow256;
    if bs == [] {
      assert PrintList(bs, w) + tail == tail;
    } else {
      assert Printable(bs[1..], w) && |bs[0]| < Pow256(w);
      ListTaken(bs[1..], w, tail);
      BytesTaken(bs[0], w, PrintList(bs[1..], w) + tail);
      assert PrintList(bs, w) + tail == PrintBytes(bs[0], w) + (PrintList(bs[1..], w) + tail);
      assert [bs[0]] + bs[1..] == bs;
    }
  }

  /** A 32-bit count and that many byte strings: ReadStringList with w = 4. */
  function TakeCounted(s: bytes, w: nat): (r: Result<Taken<seq<bytes>>>)
    ensures r.Err? ==> r.code == InvalidArgument
  {
    var count :- TakeInt(s, 4);
    TakeList(count.rest, count.value, w)
  }

  function PrintCounted(bs: seq<bytes>, w: nat): bytes {
    LE(|bs|, 4) + PrintList(bs, w)
  }

  ghost predicate CountedPrintable(bs: seq<bytes>, w: nat) {
    |bs| < TWO_32 && Printable(bs, w)
  }

  lemma {:induction false} CountedTaken(bs: seq<bytes>, w: nat, tail: bytes)
    requires CountedPrintable(bs, w)
    ensures TakeCounted(PrintCounted(bs, w) + tail, w) == Ok(Taken(bs, tail))
  {
    hide LE, FromLE, TakeList, PrintList, Pow256;
    PowersOf256();
    assert PrintCounted(bs, w) + tail == LE(|bs|, 4) + (PrintList(bs, w) + tail);
    IntTaken(|bs|, 4, PrintList(bs, w) + tail);
    ListTaken(bs, w, tail);
  }

  function TakeLists(s: bytes, n: nat): (r: Result<Taken<seq<seq<bytes>>>>)
    ensures r.Err? ==> r.code == InvalidArgument
    decreases n
  {
    if n == 0 then Ok(Taken([], s))
    else
      var first :- TakeCounted(s, 4);
      var more :- TakeLists(first.rest, n - 1);
      Ok(Taken([first.value] + more.value, more.rest))
  }

  function PrintLists(lists: seq<seq<bytes>>): bytes {
    if lists == [] then [] else PrintCounted(lists[0], 4) + PrintLists(lists[1..])
  }

  ghost predicate ListsPrintable(lists: seq<seq<bytes>>) {
    |lists| < TWO_32 && forall i :: 0 <= i < |lists| ==> CountedPrintable(lists[i], 4)
  }

  lemma {:induction false} ListsTaken(lists: seq<seq<bytes>>, tail: bytes)
    requires ListsPrintable(lists)
    ensures TakeLists(PrintLists(lists) + tail, |lists|) == Ok(Taken(lists, tail))
  {
    hide PrintCounted, TakeCounted;
    if lists == [] {
      assert PrintLists(lists) + tail == tail;
    } else {
      assert CountedPrintable(lists[0], 4);
      ListsTaken(lists[1..], tail);
      CountedTaken(lists[0], 4, PrintLists(lists[1..]) + tail);
      assert PrintLists(lists) + tail == PrintCounted(lists[0], 4) + (PrintLists(lists[1..]) + tail);
      assert [lists[0]] + lists[1..] == lists;
    }
  }

  // ---- Reading with a cursor ---------------------------------------------------------------------

  /** What a read leaves behind: its value and the rest, or the error. */
  ghost predicate Took<T>(taken: Result<Taken<T>>, r: Result<T>, rest: bytes) {
    match taken
    case Ok(t) => r == Ok(t.value) && rest == t.rest
    case Err(code) => r == Err(code)
  }

  method ReadInt(reader: ByteReader, w: nat) returns (r: Result<nat>)
    requires reader.Valid()
    modifies reader
    ensures reader.Valid() && Took(TakeInt(old(reader.Rest()), w), r, reader.Rest())
  {
    r := reader.ReadInteger(w);
  }

  method ReadBytes(reader: ByteReader, w: nat) returns (r: Result<bytes>)
    requires reader.Valid()
    modifies reader
    ensures reader.Valid() && Took(TakeBytes(old(reader.Rest()), w), r, reader.Rest())
  {
    hide TakeInt;
    var size := ReadInt(reader, w);
    if size.Err? {
      return Err(size.code);
    }
    r := reader.ReadBytes(size.get);
  }

  /** What is left to do of a list after `done`. */
  function Continue<T>(done: seq<T>, more: Result<Taken<seq<T>>>): Result<Taken<seq<T>>> {
    match more
    case Ok(t) => Ok(Taken(done + t.value, t.rest))
    case Err(code) => Err(code)
  }

  lemma {:induction false} ContinueOne<T>(done: seq<T>, x: T, more: Result<Taken<seq<T>>>)
    ensures Continue(done + [x], more) == Continue(done, Continue([x], more))
    ensures Continue([], more) == more
  {
    if more.Ok? {
      assert done + [x] + more.get.value == done + ([x] + more.get.value);
      assert [] + more.get.value == more.get.value;
    }
  }

  method ReadList(reader: ByteReader, n: nat, w: nat) returns (r: Result<seq<bytes>>)
    requires reader.Valid()
    modifies reader
    ensures reader.Valid() && Took(TakeList(old(reader.Rest()), n, w), r, reader.Rest())
  {
    hide TakeBytes;
    var values: seq<bytes> := [];
    ContinueOne([], [], TakeList(reader.Rest(), n, w));
    for i := 0 to n
      invariant reader.Valid()
      invariant TakeList(old(reader.Rest()), n, w) == Continue(values, TakeList(reader.Rest(), n - i, w))
    {
      var value := ReadBytes(reader, w);
      if value.Err? {
        return Err(value.code);
      }
      ContinueOne(values, value.get, TakeList(reader.Rest(), n - i - 1, w));
      values := values + [value.get];
    }
    assert values + [] == values;
    r := Ok(values);
  }

  method ReadCounted(reader: ByteReader, w: nat) returns (r: Result<seq<bytes>>)
    requires reader.Valid()
    modifies reader
    ensures reader.Valid() && Took(TakeCounted(old(reader.Rest()), w), r, reader.Rest())
  {
    hide TakeInt, TakeList;
    var count := ReadInt(reader, 4);
    if count.Err? {
      return Err(count.code);
    }
    r := ReadList(reader, count.get, w);
  }

  method ReadLists(reader: ByteReader, n: nat) returns (r: Result<seq<seq<bytes>>>)
    requires reader.Valid()
    modifies reader
    ensures reader.Valid() && Took(TakeLists(old(reader.Rest()), n), r, reader.Rest())
  {
    hide TakeCounted;
    var lists: seq<seq<bytes>> := [];
    ContinueOne([], [], TakeLists(reader.Rest(), n));
    for i := 0 to n
      invariant reader.Valid()
      invariant TakeLists(old(reader.Rest()), n) == Continue(lists, TakeLists(reader.Rest(), n - i))
    {
      var list := ReadCounted(reader, 4);
      if list.Err? {
        return Err(list.code);
      }
      ContinueOne(lists, list.get, TakeLists(reader.Rest(), n - i - 1));
      lists := lists + [list.get];
    }
    assert lists + [] == lists;
    r := Ok(lists);
  }

  // ---- Writing -----------------------------------------------------------------------------------

  method AppendBytes(out: bytes, b: bytes, w: nat) returns (r: Result<bytes>)
    ensures r == if |b| < Pow256(w) then Ok(out + PrintBytes(b, w)) else Err(InvalidArgument)
  {
    if |b| >= Pow256(w) {
      return Err(InvalidArgument);
    }
    r := Ok(out + LE(|b|, w) + b);
    assert out + LE(|b|, w) + b == out + (LE(|b|, w) + b);
  }

  lemma {:induction false} PrintListAppend(bs: seq<bytes>, b: bytes, w: nat)
    ensures PrintList(bs + [b], w) == PrintList(bs, w) + PrintBytes(b, w)
  {
    hide PrintBytes;
    if bs == [] {
      assert [b][1..] == [] && PrintList([b], w) == PrintBytes(b, w) + PrintList([], w);
    } else {
      assert (bs + [b])[1..] == bs[1..] + [b];
      PrintListAppend(bs[1..], b, w);
      assert PrintBytes(bs[0], w) + (PrintList(bs[1..], w) + PrintBytes(b, w))
          == PrintBytes(bs[0], w) + PrintList(bs[1..], w) + PrintBytes(b, w);
    }
  }

  /** AppendStringList with w = 4. */
  method AppendCounted(out: bytes, bs: seq<bytes>, w: nat) returns (r: Result<bytes>)
    ensures r.Ok? <==> CountedPrintable(bs, w)
    ensures r == if r.Ok? then Ok(out + PrintCounted(bs, w)) else Err(InvalidArgument)
  {
    hide PrintBytes, PrintList, LE, Pow256;
    if |bs| >= TWO_32 {
      return Err(InvalidArgument);
    }
    var grown := out + LE(|bs|, 4);
    NothingPrinted(out, bs, w);
    for i := 0 to |bs|
      invariant grown == out + (LE(|bs|, 4) + PrintList(bs[..i], w))
      invariant forall k :: 0 <= k < i ==> |bs[k]| < Pow256(w)
    {
      PrintListAppend(bs[..i], bs[i], w);
      assert bs[..i] + [bs[i]] == bs[..i + 1];
      ghost var before := grown;
      var appended := AppendBytes(grown, bs[i], w);
      if appended.Err? {
        return Err(appended.code);
      }
      grown := appended.get;
      assert grown == out + (LE(|bs|, 4) + PrintList(bs[..i], w) + PrintBytes(bs[i], w));
    }
    assert bs[..|bs|] == bs;
    r := Ok(grown);
  }

  lemma {:induction false} NothingPrinted(out: bytes, bs: seq<bytes>, w: nat)
    ensures out + LE(|bs|, 4) == out + (LE(|bs|, 4) + PrintList(bs[..0], w))
  {
    assert bs[..0] == [] && PrintList([], w) == [];
  }
}
