/** The row payload section: SerializeRowPayloads and ReadPayloadAt, src/artifact. */
module RowPayloads {
  import opened Basics
  import opened ByteIO
  import opened FrameReader
  import opened SectionCodec
  import opened Snapshot

  function TakePayload(s: bytes): (r: Result<Taken<RowPayload>>)
    ensures r.Err? ==> r.code == InvalidArgument
  {
    var arena :- TakeBytes(s, 8);
    var strings :- TakeCounted(arena.rest, 4);
    var scalarLists :- TakeCounted(strings.rest, 8);
    var count :- TakeInt(scalarLists.rest, 4);
    var stringLists :- TakeLists(count.rest, count.value);
    var elements :- TakeCounted(stringLists.rest, 4);
    Ok(Taken(RowPayload(arena.value, strings.value, scalarLists.value, stringLists.value, elements.value),
             elements.rest))
  }

  function PrintPayload(p: RowPayload): bytes {
    PrintBytes(p.arena, 8) + PrintCounted(p.strings, 4) + PrintCounted(p.scalarLists, 8)
    + LE(|p.stringLists|, 4) + PrintLists(p.stringLists) + PrintCounted(p.elements, 4)
  }

  /** The size checks of SerializeRowPayloads. */
  ghost predicate PayloadPrintable(p: RowPayload) {
    && |p.arena| < TWO_64 && CountedPrintable(p.strings, 4) && CountedPrintable(p.scalarLists, 8)
    && ListsPrintable(p.stringLists) && CountedPrintable(p.elements, 4)
  }

  lemma {:induction false} PayloadTaken(p: RowPayload, tail: bytes)
    requires PayloadPrintable(p)
    ensures TakePayload(PrintPayload(p) + tail) == Ok(Taken(p, tail))
  {
    hide TakeBytes, TakeCounted, TakeInt, TakeLists, PrintBytes, PrintCounted, PrintLists, LE, CountedPrintable, Pow256;
    PowersOf256();
    assert |p.stringLists| < TWO_32;
    var t5 := PrintCounted(p.elements, 4) + tail;
    var t4 := PrintLists(p.stringLists) + t5;
    var t3 := LE(|p.stringLists|, 4) + t4;
    var t2 := PrintCounted(p.scalarLists, 8) + t3;
    var t1 := PrintCounted(p.strings, 4) + t2;
    assert PrintPayload(p) + tail == PrintBytes(p.arena, 8) + t1;
    BytesTaken(p.arena, 8, t1);
    CountedTaken(p.strings, 4, t2);
    CountedTaken(p.scalarLists, 8, t3);
    IntTaken(|p.stringLists|, 4, t4);
    ListsTaken(p.stringLists, t5);
    CountedTaken(p.elements, 4, tail);
  }

  function PrintPayloads(ps: seq<RowPayload>): bytes {
    if ps == [] then [] else PrintPayload(ps[0]) + PrintPayloads(ps[1..])
  }

  function PrintPayloadSection(ps: seq<RowPayload>): bytes {
    LE(|ps|, 8) + PrintPayloads(ps)
  }

  ghost predicate AllPrintable(ps: seq<RowPayload>) {
    |ps| < TWO_64 && forall i :: 0 <= i < |ps| ==> PayloadPrintable(ps[i])
  }

  /** The payload at index k of those on the front of s. */
  function NthPayload(s: bytes, k: nat): (r: Result<RowPayload>)
    ensures r.Err? ==> r.code == InvalidArgument
    decreases k
  {
    var first :- TakePayload(s);
    if k == 0 then Ok(first.value) else NthPayload(first.rest, k - 1)
  }

  function PayloadAt(s: bytes, k: nat): (r: Result<RowPayload>)
    ensures r.Err? ==> r.code == InvalidArgument
  {
    var count :- TakeInt(s, 8);
    if k >= count.value then Err(InvalidArgument) else NthPayload(count.rest, k)
  }

  lemma {:induction false} NthPrinted(ps: seq<RowPayload>, k: nat)
    requires k < |ps| && forall i :: 0 <= i < |ps| ==> PayloadPrintable(ps[i])
    ensures NthPayload(PrintPayloads(ps), k) == Ok(ps[k])
    decreases k
  {
    hide TakePayload, PrintPayload, PayloadPrintable;
    PayloadTaken(ps[0], PrintPayloads(ps[1..]));
    if k > 0 {
      NthPrinted(ps[1..], k - 1);
    }
  }

  /** Reading back any payload of a written section gives the payload. */
  lemma {:induction false} PayloadReadsBack(ps: seq<RowPayload>, k: nat)
    requires AllPrintable(ps)
    ensures PayloadAt(PrintPayloadSection(ps), k) == if k < |ps| then Ok(ps[k]) else Err(InvalidArgument)
  {
    hide TakeInt, LE, PayloadPrintable, NthPayload, PrintPayloads, Pow256;
    PowersOf256();
    IntTaken(|ps|, 8, PrintPayloads(ps));
    if k < |ps| {
      NthPrinted(ps, k);
    }
  }

  method ReadPayload(reader: ByteReader) returns (r: Result<RowPayload>)
    requires reader.Valid()
    modifies reader
    ensures reader.Valid() && Took(TakePayload(old(reader.Rest())), r, reader.Rest())
  {
    hide TakeBytes, TakeCounted, TakeInt, TakeLists;
    var arena := ReadBytes(reader, 8);
    if arena.Err? {
      return Err(arena.code);
    }
    var strings := ReadCounted(reader, 4);
    if strings.Err? {
      return Err(strings.code);
    }
    var scalarLists := ReadCounted(reader, 8);
    if scalarLists.Err? {
      return Err(scalarLists.code);
    }
    var count := ReadInt(reader, 4);
    if count.Err? {
      return Err(count.code);
    }
    var stringLists := ReadLists(reader, count.get);
    if stringLists.Err? {
      return Err(stringLists.code);
    }
    var elements := ReadCounted(reader, 4);
    if elements.Err? {
      return Err(elements.code);
    }
    r := Ok(RowPayload(arena.get, strings.get, scalarLists.get, stringLists.get, elements.get));
  }

  /** ReadPayloadAt: reads the payloads one after the other up to the wanted one. */
  method ReadPayloadAt(s: bytes, wanted: nat) returns (r: Result<RowPayload>)
    ensures r == PayloadAt(s, wanted)
  {
    hide TakeInt, TakePayload, NthPayload;
    var reader := new ByteReader(s);
    var count := ReadInt(reader, 8);
    if count.Err? {
      return Err(count.code);
    }
    if wanted >= count.get {
      return Err(InvalidArgument);
    }
    for i := 0 to count.get
      invariant reader.Valid() && i <= wanted && fresh(reader)
      invariant PayloadAt(s, wanted) == NthPayload(reader.Rest(), wanted - i)
    {
      NthUnfolds(reader.Rest(), wanted - i);
      var payload := ReadPayload(reader);
      if payload.Err? {
        return Err(payload.code);
      }
      if i == wanted {
        return payload;
      }
    }
    assert false;
    r := Err(Internal);
  }

  lemma {:induction false} NthUnfolds(s: bytes, k: nat)
    ensures NthPayload(s, k) == match TakePayload(s)
      case Err(code) => Err(code)
      case Ok(first) => if k == 0 then Ok(first.value) else NthPayload(first.rest, k - 1)
  {
  }

  method AppendPayload(out: bytes, p: RowPayload) returns (r: Result<bytes>)
    ensures r.Ok? <==> PayloadPrintable(p)
    ensures r == if r.Ok? then Ok(out + PrintPayload(p)) else Err(InvalidArgument)
  {
    hide PrintBytes, PrintCounted, PrintLists, LE, CountedPrintable, Pow256;
    PowersOf256();
    r := AppendBytes(out, p.arena, 8);
    if r.Err? {
      return;
    }
    r := AppendCounted(r.get, p.strings, 4);
    if r.Err? {
      return;
    }
    r := AppendCounted(r.get, p.scalarLists, 8);
    if r.Err? {
      return;
    }
    r := AppendLists(r.get, p.stringLists);
    if r.Err? {
      return;
    }
    r := AppendCounted(r.get, p.elements, 4);
    assert r.Ok? ==> r.get == out + PrintPayload(p);
  }

  method AppendLists(out: bytes, lists: seq<seq<bytes>>) returns (r: Result<bytes>)
    ensures r.Ok? <==> ListsPrintable(lists)
    ensures r == if r.Ok? then Ok(out + (LE(|lists|, 4) + PrintLists(lists))) else Err(InvalidArgument)
  {
    hide PrintCounted, LE, CountedPrintable, PrintLists;
    if |lists| >= TWO_32 {
      return Err(InvalidArgument);
    }
    var grown := out + LE(|lists|, 4);
    NoListsPrinted(out, lists);
    for i := 0 to |lists|
      invariant grown == out + (LE(|lists|, 4) + PrintLists(lists[..i]))
      invariant forall k :: 0 <= k < i ==> CountedPrintable(lists[k], 4)
    {
      PrintListsAppend(lists[..i], lists[i]);
      assert lists[..i] + [lists[i]] == lists[..i + 1];
      var appended := AppendCounted(grown, lists[i], 4);
      if appended.Err? {
        return Err(appended.code);
      }
      grown := appended.get;
      assert grown == out + (LE(|lists|, 4) + PrintLists(lists[..i]) + PrintCounted(lists[i], 4));
    }
    assert lists[..|lists|] == lists;
    r := Ok(grown);
  }

  lemma {:induction false} NoListsPrinted(out: bytes, lists: seq<seq<bytes>>)
    ensures out + LE(|lists|, 4) == out + (LE(|lists|, 4) + PrintLists(lists[..0]))
  {
    assert lists[..0] == [] && PrintLists([]) == [];
  }

  lemma {:induction false} PrintListsAppend(lists: seq<seq<bytes>>, list: seq<bytes>)
    ensures PrintLists(lists + [list]) == PrintLists(lists) + PrintCounted(list, 4)
  {
    hide PrintCounted;
    if lists == [] {
      assert [list][1..] == [] && PrintLists([list]) == PrintCounted(list, 4) + PrintLists([]);
    } else {
      assert (lists + [list])[1..] == lists[1..] + [list];
      PrintListsAppend(lists[1..], list);
      assert PrintCounted(lists[0], 4) + (PrintLists(lists[1..]) + PrintCounted(list, 4))
          == PrintCounted(lists[0], 4) + PrintLists(lists[1..]) + PrintCounted(list, 4);
    }
  }

  lemma {:induction false} PrintPayloadsAppend(ps: seq<RowPayload>, p: RowPayload)
    ensures PrintPayloads(ps + [p]) == PrintPayloads(ps) + PrintPayload(p)
  {
    hide PrintPayload;
    if ps == [] {
      assert [p][1..] == [] && PrintPayloads([p]) == PrintPayload(p) + PrintPayloads([]);
    } else {
      assert (ps + [p])[1..] == ps[1..] + [p];
      PrintPayloadsAppend(ps[1..], p);
      assert PrintPayload(ps[0]) + (PrintPayloads(ps[1..]) + PrintPayload(p))
          == PrintPayload(ps[0]) + PrintPayloads(ps[1..]) + PrintPayload(p);
    }
  }

  method SerializeRowPayloads(ps: seq<RowPayload>) returns (r: Result<bytes>)
    ensures r.Ok? <==> AllPrintable(ps)
    ensures r == if r.Ok? then Ok(PrintPayloadSection(ps)) else Err(InvalidArgument)
  {
    hide PrintPayload, PayloadPrintable, LE, PrintPayloads;
    if |ps| >= TWO_64 {
      return Err(InvalidArgument);
    }
    var grown := LE(|ps|, 8);
    NoPayloadsPrinted(ps);
    for i := 0 to |ps|
      invariant grown == LE(|ps|, 8) + PrintPayloads(ps[..i])
      invariant forall k :: 0 <= k < i ==> PayloadPrintable(ps[k])
    {
      PrintPayloadsAppend(ps[..i], ps[i]);
      assert ps[..i] + [ps[i]] == ps[..i + 1];
      var appended := AppendPayload(grown, ps[i]);
      if appended.Err? {
        return Err(appended.code);
      }
      grown := appended.get;
      assert grown == LE(|ps|, 8) + (PrintPayloads(ps[..i]) + PrintPayload(ps[i]));
    }
    assert ps[..|ps|] == ps;
    r := Ok(grown);
  }

  lemma {:induction false} NoPayloadsPrinted(ps: seq<RowPayload>)
    ensures LE(|ps|, 8) == LE(|ps|, 8) + PrintPayloads(ps[..0])
  {
    assert ps[..0] == [] && PrintPayloads([]) == [];
  }

  /** ValidatePayloadRowCount: the count agrees, and the last payload, so all of them, can be read. */
  function PayloadRowCountOk(s: bytes, expected: nat): Result<()> {
    var count :- TakeInt(s, 8);
    if count.value != expected then Err(FailedPrecondition)
    else if expected == 0 && |s| != 8 then Err(InvalidArgument)
    else if expected == 0 then Ok(())
    else
      var last :- PayloadAt(s, expected - 1);
      Ok(())
  }

  /** A section that passes the check has every payload up to the expected count. */
  lemma {:induction false} CheckedPayloads(s: bytes, expected: nat, k: nat)
    requires PayloadRowCountOk(s, expected).Ok?
    ensures k < expected <==> PayloadAt(s, k).Ok?
  {
    hide TakePayload, TakeInt;
    if k < expected {
      NthNeedsEarlier(TakeInt(s, 8).get.rest, expected - 1, k);
    }
  }

  lemma {:induction false} NthNeedsEarlier(s: bytes, n: nat, k: nat)
    requires NthPayload(s, n).Ok? && k <= n
    ensures NthPayload(s, k).Ok?
    decreases k
  {
    hide TakePayload;
    if k > 0 {
      NthNeedsEarlier(TakePayload(s).get.rest, n - 1, k - 1);
    }
  }
}
