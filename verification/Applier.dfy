/** UpdateApplier, src/ingest/update_applier.cc: decode once, encode for every route, then publish to every route. */
module Applier {
  import opened Basics
  import opened Values
  import opened Schema
  import opened RowStorage
  import opened RowCodec
  import opened RealtimeDelta
  import WireFrame
  import FrameReader
  import RowWriter

  datatype Message = Message(topic: bytes, partition: i32, offset: i64, key: u64, payload: bytes)

  datatype Route = Route(
    shardCount: nat, hashSeed: u64, hashVersion: u32, layout: Option<RowLayout>,
    shards: seq<Option<RealtimeDeltaAtomicTable>>)

  function ValidateRoute(route: Route): Result<()> {
    if route.layout.None? then Err(FailedPrecondition)
    else if !IsPowerOfTwo(route.shardCount) then Err(InvalidArgument)
    else if |route.shards| != route.shardCount then Err(InvalidArgument)
    else if None in route.shards then Err(FailedPrecondition)
    else Ok(())
  }

  function ValidateRoutes(targets: seq<Route>): (r: Result<()>)
    ensures r.Ok? ==> forall i :: 0 <= i < |targets| ==> ValidateRoute(targets[i]).Ok?
  {
    if targets == [] then Ok(())
    else
      var first :- ValidateRoute(targets[0]);
      ValidateRoutes(targets[1..])
  }

  function ValidateOptions(topic: bytes, targets: seq<Route>): (r: Result<()>)
    ensures r.Ok? ==> forall i :: 0 <= i < |targets| ==> ValidateRoute(targets[i]).Ok?
  {
    if topic == [] then Err(InvalidArgument)
    else if targets == [] then Err(FailedPrecondition)
    else ValidateRoutes(targets)
  }

  function ValidateMessage(message: Message, topic: bytes): Result<()> {
    if message.topic == [] then Err(InvalidArgument)
    else if message.topic != topic then Err(FailedPrecondition)
    else if message.partition < 0 || message.offset < 0 then Err(InvalidArgument)
    else Ok(())
  }

  /** hash & (shard_count - 1) for a power of two. */
  function ShardFor(h: HashFn, key: u64, route: Route): (shard: nat)
    requires route.shardCount > 0
    ensures shard < route.shardCount
  {
    h(key, route.hashSeed, route.hashVersion) % route.shardCount
  }

  function TableFor(h: HashFn, key: u64, route: Route): (t: RealtimeDeltaAtomicTable)
    requires ValidateRoute(route).Ok?
    ensures Some(t) in route.shards
  {
    var shard := ShardFor(h, key, route);
    assert route.shards[shard] in route.shards;
    route.shards[shard].value
  }

  function PositionOf(message: Message): SourcePosition {
    SourcePosition(message.partition, message.offset)
  }

  /** The row that a message becomes in a table with this layout, if its payload decodes and encodes. */
  ghost function MessageRef(message: Message, layout: Option<RowLayout>): Option<RowRef> {
    var fields := WireFrame.Parse(message.payload);
    if layout.Some? && fields.Ok? && AreValues(fields.get) && EncodeForLayout(layout.value, fields.get).Ok?
    then Some(RowRef(message.key, PositionOf(message), EncodeForLayout(layout.value, fields.get).get))
    else None
  }

  /** The checks, the decoding and the encodings that come before the first publish all succeed. */
  ghost predicate Prepared(topic: bytes, targets: seq<Route>, message: Message) {
    && ValidateOptions(topic, targets).Ok?
    && ValidateMessage(message, topic).Ok?
    && WireFrame.Parse(message.payload).Ok?
    && forall i :: 0 <= i < |targets| ==> MessageRef(message, targets[i].layout).Some?
  }

  lemma {:induction false} RoutesValid(targets: seq<Route>)
    ensures ValidateRoutes(targets).Ok? <==> forall i :: 0 <= i < |targets| ==> ValidateRoute(targets[i]).Ok?
  {
    hide ValidateRoute;
    if targets != [] {
      RoutesValid(targets[1..]);
      if forall i :: 0 <= i < |targets| ==> ValidateRoute(targets[i]).Ok? {
        forall i | 0 <= i < |targets| - 1
          ensures ValidateRoute(targets[1..][i]).Ok?
        {
          assert targets[1..][i] == targets[i + 1];
        }
      }
    }
  }

  /** The encodings of a payload that has parsed. */
  ghost predicate Encodes(route: Route, payload: bytes) {
    && WireFrame.Parse(payload).Ok? && AreValues(WireFrame.Parse(payload).get)
    && route.layout.Some? && EncodeForLayout(route.layout.value, WireFrame.Parse(payload).get).Ok?
  }

  /**
   * A message is prepared exactly if it is of the applier's topic, at a valid position, its payload parses and encodes
   * for every route, and every route has a power of two of shards, all present.
   */
  lemma {:induction false} PreparedMeans(topic: bytes, targets: seq<Route>, message: Message)
    ensures Prepared(topic, targets, message) <==>
      && topic != [] && message.topic == topic && message.partition >= 0 && message.offset >= 0
      && WireFrame.Parse(message.payload).Ok? && targets != []
      && forall i :: 0 <= i < |targets| ==>
           && IsPowerOfTwo(targets[i].shardCount) && |targets[i].shards| == targets[i].shardCount
           && None !in targets[i].shards && Encodes(targets[i], message.payload)
  {
    hide WireFrame.Parse, IsPowerOfTwo, EncodeForLayout;
    RoutesValid(targets);
    if WireFrame.Parse(message.payload).Ok? {
      WireFrame.PrintParse(message.payload);
    }
    if Prepared(topic, targets, message) {
      forall i | 0 <= i < |targets|
        ensures Encodes(targets[i], message.payload) && ValidateRoute(targets[i]).Ok?
      {
        assert MessageRef(message, targets[i].layout).Some?;
      }
    } else if forall i :: 0 <= i < |targets| ==> Encodes(targets[i], message.payload) {
      forall i | 0 <= i < |targets|
        ensures MessageRef(message, targets[i].layout).Some?
      {
        assert Encodes(targets[i], message.payload);
      }
    }
  }

  /** A table that took the row, or already showed one at or after its position. */
  ghost predicate Took(capacity: nat, before: map<u64, RowRef>, after: map<u64, RowRef>, ref: Option<RowRef>) {
    && ref.Some? && PublishTo(capacity, before, ref.value, false).0.Ok?
    && after == PublishTo(capacity, before, ref.value, false).1
  }

  /** Publishing the same row again changes nothing, so routes may share a table. */
  lemma {:induction false} TookIsIdempotent(
      capacity: nat, before: map<u64, RowRef>, after: map<u64, RowRef>, ref: RowRef, shut: bool)
    requires GoodRef(ref) && Took(capacity, before, after, Some(ref))
    ensures PublishTo(capacity, after, ref, shut) == (Ok(false), after)
    ensures ref.key in after && AtLeast(after[ref.key].position, ref.position)
  {
  }

  lemma {:induction false} FreshRow(l: RowLayout, fields: seq<Field>)
    requires WellFormed(l) && AreValues(fields) && DistinctIds(fields) && EncodeForLayout(l, fields).Ok?
    ensures |EncodeForLayout(l, fields).get.rowSlot| == l.rowSlotSize
    ensures EncodeForLayout(l, fields).get.schemaVersion == l.schemaVersion
    ensures EncodeForLayout(l, fields).get.fingerprint == l.fingerprint
    ensures MaterializeRow(l, EncodeForLayout(l, fields).get).Ok?
  {
    EncodedHeader(l, fields, CreateEncodedRow(l));
  }

  /** Two layouts are one, or their schema versions or fingerprints differ. */
  predicate ToldApart(a: Option<RowLayout>, b: Option<RowLayout>) {
    a == b || a.None? || b.None?
    || a.value.schemaVersion != b.value.schemaVersion || a.value.fingerprint != b.value.fingerprint
  }

  /** A publish of one row to one table: taken exactly if the row is of the layout and the table is open to it. */
  method PublishBuilt(t: RealtimeDeltaAtomicTable, ref: RowRef) returns (r: Result<()>)
    requires t.Valid() && GoodRef(ref)
    modifies t, t.index, t.index.slots
    ensures t.Valid() && t.Open(ref.key, ref.position.partition) == old(t.Open(ref.key, ref.position.partition))
    ensures r.Ok? <==>
      BuildRowRef(t.layout, ref.key, ref.position, ref.encoded).Ok? && t.Open(ref.key, ref.position.partition)
    ensures if r.Ok? then Took(t.index.capacity, old(Replay(t.rows)), Replay(t.rows), Some(ref))
            else Replay(t.rows) == old(Replay(t.rows))
  {
    hide PublishTo, Replay, PublishRow, MaterializeRow, BuildRowRef, RealtimeDeltaAtomicTable.Valid;
    ghost var was, shut := t.rows, t.index.ShutOut(ref.key);
    ghost var open := t.Open(ref.key, ref.position.partition);
    t.OpenExactly(ref);
    r := t.Publish(ref.key, ref.position, ref.encoded);
    if BuildRowRef(t.layout, ref.key, ref.position, ref.encoded).Ok? {
      PublishOutcome(t.index.capacity, was, ref, shut, r, t.rows);
      if r.Ok? {
        TookIsIdempotent(t.index.capacity, Replay(was), Replay(t.rows), ref, false);
      }
    }
    assert t.Open(ref.key, ref.position.partition) == open;
  }

  class UpdateApplier {
    const hash: HashFn
    const topic: bytes
    const targets: seq<Route>

    constructor (hash: HashFn, topic: bytes, targets: seq<Route>)
      ensures this.hash == hash && this.topic == topic && this.targets == targets
    {
      this.hash, this.topic, this.targets := hash, topic, targets;
    }

    ghost function Tables(): set<RealtimeDeltaAtomicTable> {
      set i, j | 0 <= i < |targets| && 0 <= j < |targets[i].shards| && targets[i].shards[j].Some?
        :: targets[i].shards[j].value
    }

    ghost function Footprint(): set<object> {
      (set t | t in Tables() :: t as object) + (set t | t in Tables() :: t.index as object)
      + (set t | t in Tables() :: t.index.slots as object)
    }

    /** Tables are sound, do not share storage, and tell another layout than their route's by version or fingerprint. */
    ghost predicate Valid()
      reads Footprint()
    {
      && (forall t :: t in Tables() ==> t.Valid())
      && (forall t, u :: t in Tables() && u in Tables() && t != u ==>
            t.index != u.index && t.index.slots != u.index.slots)
      && (forall i, j :: 0 <= i < |targets| && 0 <= j < |targets[i].shards| && targets[i].shards[j].Some? ==>
            ToldApart(targets[i].layout, targets[i].shards[j].value.layout))
      && (forall i :: 0 <= i < |targets| && targets[i].layout.Some? ==> WellFormed(targets[i].layout.value))
    }

    ghost function Shown(): (m: map<RealtimeDeltaAtomicTable, map<u64, RowRef>>)
      reads Footprint()
      ensures m.Keys == Tables()
    {
      map t | t in Tables() :: Replay(t.rows)
    }

    /** Which tables take an update of the message's key and partition. */
    ghost function Openings(message: Message): (m: map<RealtimeDeltaAtomicTable, bool>)
      reads Footprint()
      ensures m.Keys == Tables()
    {
      map t | t in Tables() :: t.Open(message.key, message.partition)
    }

    /** The message passes all checks, and the table of each route is of the route's layout and takes the update. */
    ghost predicate Accepts(open: map<RealtimeDeltaAtomicTable, bool>, message: Message) {
      Prepared(topic, targets, message) && forall i :: 0 <= i < |targets| ==> RouteTakes(open, message, i)
    }

    ghost predicate RouteTakes(open: map<RealtimeDeltaAtomicTable, bool>, message: Message, i: nat)
      requires i < |targets|
    {
      && ValidateRoute(targets[i]).Ok?
      && var t := TableFor(hash, message.key, targets[i]);
         t in open && t.layout == targets[i].layout && open[t]
    }

    /** From `start` to `now`, tables took the message's row or stayed, and the first n routes' tables took it. */
    ghost predicate Progress(
        start: map<RealtimeDeltaAtomicTable, map<u64, RowRef>>, now: map<RealtimeDeltaAtomicTable, map<u64, RowRef>>,
        message: Message, n: nat)
      requires n <= |targets| && forall i :: 0 <= i < n ==> ValidateRoute(targets[i]).Ok?
    {
      && start.Keys == now.Keys == Tables()
      && (forall t :: t in Tables() ==>
            now[t] == start[t] || Took(t.index.capacity, start[t], now[t], MessageRef(message, t.layout)))
      && (forall i :: 0 <= i < n ==>
            var t := TableFor(hash, message.key, targets[i]);
            t in Tables() && t.layout == targets[i].layout
            && Took(t.index.capacity, start[t], now[t], MessageRef(message, t.layout)))
    }

    lemma {:induction false} ProgressStep(
        start: map<RealtimeDeltaAtomicTable, map<u64, RowRef>>, mid: map<RealtimeDeltaAtomicTable, map<u64, RowRef>>,
        now: map<RealtimeDeltaAtomicTable, map<u64, RowRef>>, message: Message, i: nat, ref: RowRef)
      requires i < |targets| && forall k :: 0 <= k <= i ==> ValidateRoute(targets[k]).Ok?
      requires Progress(start, mid, message, i) && now.Keys == Tables() && GoodRef(ref)
      requires MessageRef(message, targets[i].layout) == Some(ref)
      requires var t := TableFor(hash, message.key, targets[i]);
        && t in Tables() && t.layout == targets[i].layout && Took(t.index.capacity, mid[t], now[t], Some(ref))
        && forall u :: u in Tables() && u != t ==> now[u] == mid[u]
      ensures Progress(start, now, message, i + 1)
    {
      hide Took, MessageRef, ValidateRoute, Tables;
      var t := TableFor(hash, message.key, targets[i]);
      TookAgain(t.index.capacity, start[t], mid[t], now[t], ref);
    }

    /** The code of the first check that fails, options, metadata and payload; after these, that of an encoding. */
    ghost predicate RefusedWith(message: Message, code: Code) {
      var fields := WireFrame.Parse(message.payload);
      if ValidateOptions(topic, targets).Err? then code == ValidateOptions(topic, targets).code
      else if ValidateMessage(message, topic).Err? then code == ValidateMessage(message, topic).code
      else fields.Err? ==> code == fields.code
    }

    method Apply(message: Message) returns (r: Result<()>)
      requires Valid()
      modifies Footprint()
      ensures Valid()
      // decoding or encoding fails for some route: no table changes
      ensures !Prepared(topic, targets, message) ==>
        r.Err? && RefusedWith(message, r.code) && forall t :: t in Tables() ==> t.rows == old(t.rows)
      // each table shows what it showed, or that with the message's row published to it
      ensures Progress(old(Shown()), Shown(), message, 0)
      // accepted exactly if all checks pass and every route's table is open, and it stays so: every table took the row
      ensures r.Ok? <==> Accepts(Openings(message), message)
      ensures Openings(message) == old(Openings(message))
      ensures r.Ok? ==> Prepared(topic, targets, message) && Progress(old(Shown()), Shown(), message, |targets|)
    {
      hide Prepared, MessageRef, ValidateRoute, Progress, Took, Replay, Sealed, AllBuilt, WellFormed, RouteTakes;
      hide RefusedWith;
      hide RealtimeAtomicHashMap.Valid, RealtimeAtomicHashMap.ShutOut, ToldApart, TableFor, WireFrame.Parse;
      hide RealtimeDeltaAtomicTable.Open, RealtimeDeltaAtomicTable.Valid;
      ghost var start := Shown();
      NoProgress(start, message);
      var encoded := Prepare(message);
      assert Shown() == start;
      if encoded.Err? {
        return Err(encoded.code);
      }
      r := PublishAll(message, encoded.get);
      if r.Ok? {
        ProgressAtAll(start, Shown(), message);
      }
    }

    lemma {:induction false} ProgressAtAll(
        start: map<RealtimeDeltaAtomicTable, map<u64, RowRef>>, now: map<RealtimeDeltaAtomicTable, map<u64, RowRef>>,
        message: Message)
      requires forall i :: 0 <= i < |targets| ==> ValidateRoute(targets[i]).Ok?
      requires Progress(start, now, message, |targets|)
      ensures Progress(start, now, message, 0)
    {
    }

    /** Everything Apply does before it publishes: the rows for all routes, or the first error. */
    method Prepare(message: Message) returns (r: Result<seq<EncodedRow>>)
      ensures r.Ok? <==> Prepared(topic, targets, message)
      ensures r.Err? ==> RefusedWith(message, r.code)
      ensures r.Ok? ==> forall i :: 0 <= i < |targets| ==> ValidateRoute(targets[i]).Ok?
      ensures r.Ok? ==> |r.get| == |targets| && forall i :: 0 <= i < |targets| ==>
        MessageRef(message, targets[i].layout) == Some(RowRef(message.key, PositionOf(message), r.get[i]))
    {
      hide EncodeForLayout, WireFrame.Parse, ValidateRoute, MessageRef;
      var options := ValidateOptions(topic, targets);
      if options.Err? {
        return Err(options.code);
      }
      var metadata := ValidateMessage(message, topic);
      if metadata.Err? {
        return Err(metadata.code);
      }
      var decoded := FrameReader.DecodePayload(message.payload);
      if decoded.Err? {
        return Err(decoded.code);
      }
      r := EncodeForRoutes(message, decoded.get);
    }

    /** Encode for every route before anything is published. */
    method EncodeForRoutes(message: Message, fields: seq<Field>) returns (r: Result<seq<EncodedRow>>)
      requires WireFrame.Parse(message.payload) == Ok(fields)
      requires forall i :: 0 <= i < |targets| ==> ValidateRoute(targets[i]).Ok?
      ensures r.Ok? <==> forall i :: 0 <= i < |targets| ==> MessageRef(message, targets[i].layout).Some?
      ensures r.Ok? ==> |r.get| == |targets| && forall i :: 0 <= i < |targets| ==>
        MessageRef(message, targets[i].layout) == Some(RowRef(message.key, PositionOf(message), r.get[i]))
    {
      hide EncodeForLayout, WireFrame.Parse;
      WireFrame.PrintParse(message.payload);
      var rows: seq<EncodedRow> := [];
      for i := 0 to |targets|
        invariant |rows| == i
        invariant forall k :: 0 <= k < i ==>
          MessageRef(message, targets[k].layout) == Some(RowRef(message.key, PositionOf(message), rows[k]))
      {
        assert ValidateRoute(targets[i]).Ok?;
        var encoded := RowWriter.EncodePayload(targets[i].layout.value, fields);
        if encoded.Err? {
          assert MessageRef(message, targets[i].layout).None?;
          return Err(encoded.code);
        }
        rows := rows + [encoded.get];
      }
      r := Ok(rows);
    }

    /** A publish to one table leaves the others as they are. */
    method PublishIn(t: RealtimeDeltaAtomicTable, ref: RowRef, message: Message) returns (r: Result<()>)
      requires Valid() && t in Tables() && GoodRef(ref)
      requires ref.key == message.key && ref.position.partition == message.partition
      modifies Footprint()
      ensures Valid()
      ensures forall u :: u in Tables() && u != t ==> u.rows == old(u.rows)
      ensures forall u :: u in Tables() ==> u.Open(message.key, message.partition) == old(Openings(message))[u]
      ensures r.Ok? <==> BuildRowRef(t.layout, ref.key, ref.position, ref.encoded).Ok? && old(Openings(message))[t]
      ensures if r.Ok? then Took(t.index.capacity, old(Replay(t.rows)), Replay(t.rows), Some(ref))
              else Replay(t.rows) == old(Replay(t.rows))
    {
      hide Replay, Took, BuildRowRef, WellFormed, ToldApart, Sealed, AllBuilt, PublishTo;
      hide RealtimeAtomicHashMap.Valid, RealtimeAtomicHashMap.ShutOut;
      r := PublishBuilt(t, ref);
    }

    /** One publish touches one table: it shows the row, or what it showed before if the table refused. */
    method PublishOne(i: nat, message: Message, encoded: EncodedRow) returns (r: Result<()>)
      requires Valid() && i < |targets| && ValidateRoute(targets[i]).Ok? && Prepared(topic, targets, message)
      requires MessageRef(message, targets[i].layout) == Some(RowRef(message.key, PositionOf(message), encoded))
      modifies Footprint()
      ensures Valid() && Openings(message) == old(Openings(message))
      ensures r.Ok? <==> RouteTakes(Openings(message), message, i)
      ensures forall u :: u in Tables() && u != TableFor(hash, message.key, targets[i]) ==>
        Shown()[u] == old(Shown())[u]
      ensures var t := TableFor(hash, message.key, targets[i]);
        && t in Tables()
        && if r.Ok? then t.layout == targets[i].layout
                         && Took(t.index.capacity, old(Shown())[t], Shown()[t], MessageRef(message, targets[i].layout))
           else Shown()[t] == old(Shown())[t]
    {
      hide EncodeForLayout, Replay, Prepared, MessageRef, Took, Valid, Footprint, Tables, TableFor;
      hide RealtimeDeltaAtomicTable.Open, PublishTo;
      hide Sealed, WireFrame.Parse, BuildRowRef, WellFormed, ValidateRoute;
      var t := TableFor(hash, message.key, targets[i]);
      TableIsSound(i, message.key);
      BuiltFromMessage(i, message, encoded);
      r := PublishIn(t, RowRef(message.key, PositionOf(message), encoded), message);
    }

    lemma {:induction false} NoProgress(start: map<RealtimeDeltaAtomicTable, map<u64, RowRef>>, message: Message)
      requires start.Keys == Tables()
      ensures Progress(start, start, message, 0)
    {
    }

    lemma {:induction false} TableIsSound(i: nat, key: u64)
      requires Valid() && i < |targets| && ValidateRoute(targets[i]).Ok?
      ensures TableFor(hash, key, targets[i]) in Tables()
      ensures ToldApart(targets[i].layout, TableFor(hash, key, targets[i]).layout)
    {
      hide ValidateRoute, WellFormed, ToldApart;
      var t := TableFor(hash, key, targets[i]);
      var j :| 0 <= j < |targets[i].shards| && targets[i].shards[j] == Some(t);
      assert targets[i].shards[j].value == t;
    }

    lemma {:induction false} BuiltFromMessage(i: nat, message: Message, encoded: EncodedRow)
      requires Valid() && i < |targets| && Prepared(topic, targets, message)
      requires MessageRef(message, targets[i].layout) == Some(RowRef(message.key, PositionOf(message), encoded))
      ensures BuildRowRef(targets[i].layout, message.key, PositionOf(message), encoded)
           == Ok(RowRef(message.key, PositionOf(message), encoded))
      ensures forall other :: ToldApart(targets[i].layout, other) && other != targets[i].layout ==>
        BuildRowRef(other, message.key, PositionOf(message), encoded).Err?
      ensures GoodRef(RowRef(message.key, PositionOf(message), encoded))
    {
      hide MaterializeRow, WellFormed, EncodeForLayout, WireFrame.Parse, BuildRowRef;
      WireFrame.PrintParse(message.payload);
      FreshRow(targets[i].layout.value, WireFrame.Parse(message.payload).get);
      BuiltRef(targets[i].layout.value, message.key, PositionOf(message), encoded);
      forall other | ToldApart(targets[i].layout, other) && other != targets[i].layout
        ensures BuildRowRef(other, message.key, PositionOf(message), encoded).Err?
      {
        OtherLayoutRefuses(targets[i].layout.value, other, message.key, PositionOf(message), encoded);
      }
    }

    method PublishAll(message: Message, encoded: seq<EncodedRow>) returns (r: Result<()>)
      requires Valid() && Prepared(topic, targets, message) && |encoded| == |targets|
      requires forall i :: 0 <= i < |targets| ==>
        MessageRef(message, targets[i].layout) == Some(RowRef(message.key, PositionOf(message), encoded[i]))
      modifies Footprint()
      ensures Valid() && Openings(message) == old(Openings(message))
      ensures r.Ok? <==> forall i :: 0 <= i < |targets| ==> RouteTakes(Openings(message), message, i)
      ensures Progress(old(Shown()), Shown(), message, if r.Ok? then |targets| else 0)
    {
      hide Took, MessageRef, ValidateRoute, Tables, Valid, Shown, RouteTakes, Openings, BuildRowRef, TableFor, Prepared;
      NoProgress(Shown(), message);
      PreparedPosition(topic, targets, message);
      for i := 0 to |targets|
        invariant Valid() && Progress(old(Shown()), Shown(), message, i)
        invariant Openings(message) == old(Openings(message))
        invariant forall k :: 0 <= k < i ==> RouteTakes(Openings(message), message, k)
      {
        TableIsSound(i, message.key);
        BuiltFromMessage(i, message, encoded[i]);
        ghost var mid := Shown();
        var published := PublishOne(i, message, encoded[i]);
        if published.Err? {
          SameMaps(mid, Shown(), TableFor(hash, message.key, targets[i]));
          return Err(published.code);
        }
        ProgressStep(old(Shown()), mid, Shown(), message, i, RowRef(message.key, PositionOf(message), encoded[i]));
      }
      r := Ok(());
    }

    /** Every route's table shows the message's key at or past the message's position. */
    ghost predicate HasTaken(shown: map<RealtimeDeltaAtomicTable, map<u64, RowRef>>, message: Message) {
      && (forall i :: 0 <= i < |targets| ==> ValidateRoute(targets[i]).Ok?)
      && forall i :: 0 <= i < |targets| ==> ShownAt(shown, TableFor(hash, message.key, targets[i]), message)
    }

    lemma {:induction false} AppliedIsTaken(
        start: map<RealtimeDeltaAtomicTable, map<u64, RowRef>>, now: map<RealtimeDeltaAtomicTable, map<u64, RowRef>>,
        message: Message)
      requires Prepared(topic, targets, message) && Progress(start, now, message, |targets|)
      ensures HasTaken(now, message)
    {
      hide Took, ValidateRoute, Tables, TableFor, Prepared, MessageRef, ShownAt;
      PreparedPosition(topic, targets, message);
      forall i | 0 <= i < |targets|
        ensures ShownAt(now, TableFor(hash, message.key, targets[i]), message)
      {
        var t := TableFor(hash, message.key, targets[i]);
        TookShows(t, start[t], now, message);
      }
    }

    lemma {:induction false} TakenStaysTaken(
        start: map<RealtimeDeltaAtomicTable, map<u64, RowRef>>, now: map<RealtimeDeltaAtomicTable, map<u64, RowRef>>,
        message: Message, earlier: Message)
      requires HasTaken(start, earlier) && Progress(start, now, message, 0)
      ensures HasTaken(now, earlier)
    {
      hide Took, ValidateRoute, Tables, TableFor, MessageRef;
      forall i | 0 <= i < |targets|
        ensures ShownAt(now, TableFor(hash, earlier.key, targets[i]), earlier)
      {
        var t := TableFor(hash, earlier.key, targets[i]);
        assert ShownAt(start, t, earlier);
        if now[t] != start[t] {
          TookKeeps(t.index.capacity, start[t], now[t], MessageRef(message, t.layout), earlier);
        }
      }
    }

    /** Messages in order up to the first that fails; a message once taken stays taken. */
    method ApplyBatch(messages: seq<Message>) returns (r: Result<()>, ghost applied: nat)
      requires Valid()
      modifies Footprint()
      ensures Valid()
      ensures applied <= |messages| && (r.Ok? <==> applied == |messages|)
      ensures r.Err? ==> !Accepts(Openings(messages[applied]), messages[applied])
      ensures forall i :: 0 <= i < applied ==> Prepared(topic, targets, messages[i]) && HasTaken(Shown(), messages[i])
      ensures forall m :: HasTaken(old(Shown()), m) ==> HasTaken(Shown(), m)
    {
      hide Prepared, Progress, HasTaken, Valid, Shown, Footprint, Tables, Accepts;
      applied := 0;
      for i := 0 to |messages|
        invariant Valid() && applied == i
        invariant forall k :: 0 <= k < i ==> Prepared(topic, targets, messages[k]) && HasTaken(Shown(), messages[k])
        invariant forall m :: HasTaken(old(Shown()), m) ==> HasTaken(Shown(), m)
      {
        ghost var before := Shown();
        r := Apply(messages[i]);
        forall m | HasTaken(before, m)
          ensures HasTaken(Shown(), m)
        {
          TakenStaysTaken(before, Shown(), messages[i], m);
        }
        if r.Err? {
          return;
        }
        AppliedIsTaken(before, Shown(), messages[i]);
        applied := i + 1;
      }
      r := Ok(());
    }
  }

  /** The table shows the message's key at or past the message's position. */
  ghost predicate ShownAt(
      shown: map<RealtimeDeltaAtomicTable, map<u64, RowRef>>, t: RealtimeDeltaAtomicTable, message: Message)
  {
    t in shown && message.key in shown[t] && AtLeast(shown[t][message.key].position, PositionOf(message))
  }

  lemma {:induction false} TookShows(
      t: RealtimeDeltaAtomicTable, before: map<u64, RowRef>, shown: map<RealtimeDeltaAtomicTable, map<u64, RowRef>>,
      message: Message)
    requires t in shown && Took(t.index.capacity, before, shown[t], MessageRef(message, t.layout))
    requires message.partition >= 0 && message.offset >= 0
    ensures ShownAt(shown, t, message)
  {
    hide WireFrame.Parse, EncodeForLayout;
    TookIsIdempotent(t.index.capacity, before, shown[t], MessageRef(message, t.layout).value, false);
  }

  lemma {:induction false} PreparedPosition(topic: bytes, targets: seq<Route>, message: Message)
    requires Prepared(topic, targets, message)
    ensures message.partition >= 0 && message.offset >= 0
    ensures forall i :: 0 <= i < |targets| ==> ValidateRoute(targets[i]).Ok?
  {
    hide WireFrame.Parse, MessageRef, ValidateRoute;
  }

  lemma {:induction false} TookKeeps(
      capacity: nat, before: map<u64, RowRef>, after: map<u64, RowRef>, ref: Option<RowRef>, earlier: Message)
    requires Took(capacity, before, after, ref)
    requires earlier.key in before && AtLeast(before[earlier.key].position, PositionOf(earlier))
    ensures earlier.key in after && AtLeast(after[earlier.key].position, PositionOf(earlier))
  {
  }

  lemma {:induction false} SameMaps<K, V>(m: map<K, V>, n: map<K, V>, k: K)
    requires m.Keys == n.Keys && k in m && m[k] == n[k] && forall x :: x in m && x != k ==> n[x] == m[x]
    ensures m == n
  {
  }

  lemma {:induction false} TookAgain(
      capacity: nat, before: map<u64, RowRef>, mid: map<u64, RowRef>, after: map<u64, RowRef>, ref: RowRef)
    requires GoodRef(ref) && (mid == before || Took(capacity, before, mid, Some(ref)))
    requires Took(capacity, mid, after, Some(ref))
    ensures Took(capacity, before, after, Some(ref))
  {
    if mid != before {
      TookIsIdempotent(capacity, before, mid, ref, false);
    }
  }

  lemma {:induction false} PublishOutcome(
      capacity: nat, rows: seq<StoredRow>, ref: RowRef, shut: bool, r: Result<()>, rows': seq<StoredRow>)
    requires (r, rows') == PublishRow(capacity, rows, ref, shut)
    ensures var (told, shown) := PublishTo(capacity, Replay(rows), ref, false);
      if r.Ok? then told.Ok? && Replay(rows') == shown else Replay(rows') == Replay(rows)
  {
    hide PublishTo, Replay;
    ReplayAppend(rows, StoredRow(ref, false));
    ReplayAppend(rows, StoredRow(ref, true));
    TakenIsNewer(capacity, Replay(rows), ref, shut);
    PublishedOrNot(capacity, Replay(rows), ref, shut);
  }

  lemma {:induction false} BuiltRef(l: RowLayout, key: u64, position: SourcePosition, encoded: EncodedRow)
    requires IsValidSourcePosition(position) && MaterializeRow(l, encoded).Ok?
    requires |encoded.rowSlot| == l.rowSlotSize && encoded.schemaVersion == l.schemaVersion
      && encoded.fingerprint == l.fingerprint
    ensures BuildRowRef(Some(l), key, position, encoded) == Ok(RowRef(key, position, encoded))
  {
  }

  /** A table of another layout answers with an error. */
  lemma {:induction false} OtherLayoutRefuses(
      l: RowLayout, other: Option<RowLayout>, key: u64, position: SourcePosition, encoded: EncodedRow)
    requires ToldApart(Some(l), other) && other != Some(l)
    requires encoded.schemaVersion == l.schemaVersion && encoded.fingerprint == l.fingerprint
    ensures BuildRowRef(other, key, position, encoded).Err?
  {
    hide MaterializeRow;
  }

  /** What PublishRow leaves visible, told or refused. */
  lemma {:induction false} PublishedOrNot(capacity: nat, m: map<u64, RowRef>, ref: RowRef, shut: bool)
    ensures PublishTo(capacity, m, ref, shut).0.Err? ==> PublishTo(capacity, m, ref, shut).1 == m
    ensures PublishTo(capacity, m, ref, shut).0 == Ok(false) ==> PublishTo(capacity, m, ref, shut).1 == m
    ensures PublishTo(capacity, m, ref, shut).0.Ok? ==>
      PublishTo(capacity, m, ref, shut) == PublishTo(capacity, m, ref, false)
  {
  }

  /**
   * End to end: once a message was applied as the newest for its key, reading the key gives a row whose every
   * layout field is the payload's value for it, and the default, or absent, where the payload has none.
   */
  lemma {:induction false} AppliedRowReads(
      message: Message, l: RowLayout, capacity: nat, before: map<u64, RowRef>, after: map<u64, RowRef>, g: FieldLayout)
    requires WellFormed(l) && g in l.fields && Took(capacity, before, after, MessageRef(message, Some(l)))
    requires message.key !in before || before[message.key].position.offset < message.offset
    ensures message.key in after && WireFrame.Parse(message.payload).Ok?
    ensures var read := ReadValue(Row(l, after[message.key].encoded), g.fieldId, g.ftype, g.isList);
      match FindValue(WireFrame.Parse(message.payload).get, g.fieldId)
      case Some(v) => read == Ok(v)
      case None =>
        if g.defaultValue != Null then read == Ok(g.defaultValue) else g.nullable && read == Err(NotFound)
  {
    hide ReadValue, EncodeForLayout, WireFrame.Parse, WellFormed;
    WireFrame.PrintParse(message.payload);
    EncodedRowReads(l, WireFrame.Parse(message.payload).get, g);
    TakenIsNewer(capacity, before, MessageRef(message, Some(l)).value, false);
  }

  /** So it reads in the table of every route, once Apply has accepted it. */
  lemma {:induction false} RouteRowReads(
      applier: UpdateApplier, start: map<RealtimeDeltaAtomicTable, map<u64, RowRef>>,
      now: map<RealtimeDeltaAtomicTable, map<u64, RowRef>>, message: Message, i: nat, l: RowLayout, g: FieldLayout)
    requires forall k :: 0 <= k < |applier.targets| ==> ValidateRoute(applier.targets[k]).Ok?
    requires applier.Progress(start, now, message, |applier.targets|) && i < |applier.targets|
    requires applier.targets[i].layout == Some(l) && WellFormed(l) && g in l.fields
    requires NewestIn(start, TableFor(applier.hash, message.key, applier.targets[i]), message)
    ensures var t := TableFor(applier.hash, message.key, applier.targets[i]);
      && t in now && message.key in now[t] && WireFrame.Parse(message.payload).Ok?
      && var read := ReadValue(Row(l, now[t][message.key].encoded), g.fieldId, g.ftype, g.isList);
      match FindValue(WireFrame.Parse(message.payload).get, g.fieldId)
      case Some(v) => read == Ok(v)
      case None =>
        if g.defaultValue != Null then read == Ok(g.defaultValue) else g.nullable && read == Err(NotFound)
  {
    hide ReadValue, WireFrame.Parse, WellFormed, Took, MessageRef, ValidateRoute, TableFor, FindValue;
    var t := TableFor(applier.hash, message.key, applier.targets[i]);
    AppliedRowReads(message, l, t.index.capacity, start[t], now[t], g);
  }

  predicate NewestIn(
      shown: map<RealtimeDeltaAtomicTable, map<u64, RowRef>>, t: RealtimeDeltaAtomicTable, message: Message) {
    t in shown && (message.key !in shown[t] || shown[t][message.key].position.offset < message.offset)
  }
}
