/**
 * From an applied message to a read of its key: src/ingest/update_applier.cc:749-772 and
 * src/api/forward_index.cc:96-134 hash a key to the same shard, if route and index are configured alike.
 */
module RouteReads {
  import opened Basics
  import opened Values
  import opened Schema
  import opened RowStorage
  import opened RowCodec
  import opened RealtimeDelta
  import opened Applier
  import opened Shards
  import ForwardIndex
  import WireFrame

  /** The directory's shards read through the route's tables. */
  ghost predicate Mounted(route: Route, options: ForwardIndex.Options, d: ForwardIndex.Directory) {
    && ValidateRoute(route).Ok?
    && options.shardCount == route.shardCount && options.hashSeed == route.hashSeed
    && options.hashVersion == route.hashVersion
    && |d.shards| == |route.shards|
    && forall i :: 0 <= i < |d.shards| ==> d.shards[i].Some? && d.shards[i].value.realtime == route.shards[i]
  }

  /** The index asks the shard whose table the applier published to. */
  lemma {:induction false} SameShard(
      h: HashFn, key: u64, route: Route, options: ForwardIndex.Options, d: ForwardIndex.Directory)
    requires Mounted(route, options, d)
    ensures options.shardCount == |d.shards| > 0
    ensures var s := d.shards[ForwardIndex.ShardFor(h, options, key)];
      s.Some? && s.value.realtime == Some(TableFor(h, key, route))
  {
  }

  /** What the realtime layer shows decides the read, whatever lies below. */
  lemma {:induction false} ShownIsRead(
      h: HashFn, key: u64, route: Route, options: ForwardIndex.Options, d: ForwardIndex.Directory, l: RowLayout)
    requires Mounted(route, options, d)
    requires TableFor(h, key, route).layout == Some(l) && key in Replay(TableFor(h, key, route).rows)
    ensures options.shardCount == |d.shards| > 0
    ensures d.Answer(h, options, key) == Ok(Some(Row(l, Replay(TableFor(h, key, route).rows)[key].encoded)))
  {
    hide Replay, TableFor, Mounted, ForwardIndex.ShardFor;
    SameShard(h, key, route, options, d);
    var s := d.shards[ForwardIndex.ShardFor(h, options, key)].value;
    FirstHitDecides(s.Readings(h, key), 0);
  }

  /** Every field of the row is the payload's value for it, else its default, else not found. */
  ghost predicate ReadsAsSent(l: RowLayout, fields: seq<Field>, row: Row) {
    forall g :: g in l.fields ==> FieldReadsAsSent(fields, row, g)
  }

  ghost predicate FieldReadsAsSent(fields: seq<Field>, row: Row, g: FieldLayout) {
    var read := ReadValue(row, g.fieldId, g.ftype, g.isList);
    match FindValue(fields, g.fieldId)
    case Some(v) => read == Ok(v)
    case None => if g.defaultValue != Null then read == Ok(g.defaultValue) else g.nullable && read == Err(NotFound)
  }

  /** Apply accepted the message as the newest of its key; `start` is what the tables showed before. */
  ghost predicate AcceptedAsNewest(
      applier: UpdateApplier, start: map<RealtimeDeltaAtomicTable, map<u64, RowRef>>, message: Message, i: nat)
    reads applier.Footprint()
  {
    && i < |applier.targets|
    && Prepared(applier.topic, applier.targets, message)
    && (forall k :: 0 <= k < |applier.targets| ==> ValidateRoute(applier.targets[k]).Ok?)
    && applier.Progress(start, applier.Shown(), message, |applier.targets|)
    && NewestIn(start, TableFor(applier.hash, message.key, applier.targets[i]), message)
    && applier.targets[i].layout.Some? && WellFormed(applier.targets[i].layout.value)
  }

  /** The message that Apply accepted as the newest of its key is what a Get of the key then returns. */
  lemma {:induction false} AppliedIsRead(
      applier: UpdateApplier, start: map<RealtimeDeltaAtomicTable, map<u64, RowRef>>, message: Message, i: nat,
      options: ForwardIndex.Options, d: ForwardIndex.Directory)
    requires AcceptedAsNewest(applier, start, message, i) && Mounted(applier.targets[i], options, d)
    ensures options.shardCount == |d.shards| > 0 && WireFrame.Parse(message.payload).Ok?
    ensures var read := d.Answer(applier.hash, options, message.key);
      && read.Ok? && read.get.Some?
      && ReadsAsSent(applier.targets[i].layout.value, WireFrame.Parse(message.payload).get, read.get.value)
  {
    hide Took, ValidateRoute, TableFor, MessageRef, Replay, ReadValue, WellFormed, WireFrame.Parse, Mounted, NewestIn;
    hide FieldReadsAsSent;
    var l := applier.targets[i].layout.value;
    var t := TableFor(applier.hash, message.key, applier.targets[i]);
    AppliedIsShown(applier, start, message, i);
    ShownIsRead(applier.hash, message.key, applier.targets[i], options, d, l);
    forall g | g in l.fields
      ensures FieldReadsAsSent(
          WireFrame.Parse(message.payload).get, Row(l, applier.Shown()[t][message.key].encoded), g)
    {
      FieldOfApplied(applier, start, message, i, l, g);
    }
  }

  lemma {:induction false} FieldOfApplied(
      applier: UpdateApplier, start: map<RealtimeDeltaAtomicTable, map<u64, RowRef>>, message: Message, i: nat,
      l: RowLayout, g: FieldLayout)
    requires AcceptedAsNewest(applier, start, message, i) && applier.targets[i].layout == Some(l) && g in l.fields
    ensures var t := TableFor(applier.hash, message.key, applier.targets[i]);
      && WireFrame.Parse(message.payload).Ok? && t in applier.Shown() && message.key in applier.Shown()[t]
      && FieldReadsAsSent(
          WireFrame.Parse(message.payload).get, Row(l, applier.Shown()[t][message.key].encoded), g)
  {
    hide Took, ValidateRoute, TableFor, MessageRef, ReadValue, WellFormed, WireFrame.Parse, FindValue, NewestIn;
    RouteRowReads(applier, start, applier.Shown(), message, i, l, g);
  }

  /** Whichever other update won, the key then reads at or past the message's position. */
  lemma {:induction false} AppliedIsShown(
      applier: UpdateApplier, start: map<RealtimeDeltaAtomicTable, map<u64, RowRef>>, message: Message, i: nat)
    requires AcceptedAsNewest(applier, start, message, i)
    ensures var t := TableFor(applier.hash, message.key, applier.targets[i]);
      && t in applier.Tables() && t.layout == applier.targets[i].layout && message.key in Replay(t.rows)
      && applier.Shown()[t] == Replay(t.rows) && AtLeast(Replay(t.rows)[message.key].position, PositionOf(message))
    ensures WireFrame.Parse(message.payload).Ok?
  {
    hide Took, ValidateRoute, TableFor, MessageRef, WellFormed, WireFrame.Parse, NewestIn, Replay;
    applier.AppliedIsTaken(start, applier.Shown(), message);
    var t := TableFor(applier.hash, message.key, applier.targets[i]);
    assert ShownAt(applier.Shown(), t, message);
  }

  /** And so in an MGet, at every position that asks for the key. */
  lemma {:induction false} AppliedIsReadInBulk(
      applier: UpdateApplier, start: map<RealtimeDeltaAtomicTable, map<u64, RowRef>>, message: Message, i: nat,
      options: ForwardIndex.Options, d: ForwardIndex.Directory, keys: seq<u64>, rows: seq<Option<Row>>, p: nat)
    requires AcceptedAsNewest(applier, start, message, i) && Mounted(applier.targets[i], options, d)
    requires options.shardCount == |d.shards| > 0 && |rows| == |keys|
    requires forall j :: 0 <= j < |keys| ==> d.Answer(applier.hash, options, keys[j]) == Ok(rows[j])
    requires p < |keys| && keys[p] == message.key
    ensures rows[p].Some? && WireFrame.Parse(message.payload).Ok?
    ensures ReadsAsSent(applier.targets[i].layout.value, WireFrame.Parse(message.payload).get, rows[p].value)
  {
    hide AcceptedAsNewest, Mounted, ReadsAsSent, WireFrame.Parse;
    AppliedIsRead(applier, start, message, i, options, d);
  }
}
