# A verified model of kv_index

kv_index is a sharded key/value store for rows of typed fields. A shard answers a read from three layers: a realtime
table that Kafka updates are published to, a compact delta, and a full snapshot. Compaction and rebase move rows down
the layers; artifacts are the files that full snapshots are shipped in; an asynchronous load brings a new set of
shards into service. This project models that behaviour in Dafny and proves what it is for.

| file | models |
|---|---|
| `Basics`, `ByteIO`, `Counting`, `Sorting`, `Probing`, `Fnv` | status codes and results, source positions, little-endian bytes, counting and sorting facts, the wrapped probe sequence, checksums |
| `ConcurrentMap` | the lock-free realtime map as a machine: any number of publishers and readers, one shared access per step |
| `RealtimeDelta` | the realtime map and table as classes, the published-row log, boundary scans, replay |
| `Linearization`, `SoloRuns` | the two models of the map agree: every interleaving is a sequential run of publishes, and a call that runs alone ends as the sequential call does |
| `FrozenTable`, `FrozenIndex` | the frozen primary-key index, on cells and on bytes: build, validate, look up, list |
| `Values`, `Schema`, `RowStorage`, `RowCodec`, `RowWriter`, `RowAcceptance` | values, schemas and compiled layouts, field writers and readers in the five encodings, and exactly which payloads encode |
| `WireFrame`, `FrameReader`, `Applier` | the KVIU frame, its decoder, and applying a message to the tables of every route |
| `Snapshot`, `ShardState`, `Compaction`, `LayerRuns`, `ShardRuns` | snapshots, layered reads, compaction and rebase, runs of them with publishes in between, and that a shard's cutovers are steps of the runs |
| `ForwardIndex`, `RouteReads` | reads of many keys scattered over the shards, and that they find what was applied |
| `AsyncLoad`, `LoadOutcomes` | the artifact load as a machine, with cancellation at any point; how it ends |
| `Coordinator`, `CommitRuns` | poll, apply, commit; and runs with failures and re-seeks |
| `LoadRuns` | a load whose runner is such a run, from the artifact's checkpoint |
| `SectionCodec`, `RowPayloads`, `ArtifactSections`, `ArtifactSchema`, `SectionDirectory`, `ArtifactFormat`, `ArtifactFile`, `ArtifactWriter`, `MappedBacking`, `ArtifactIntegrity` | artifact files: sections, directory and its checks, writer, parser, the mapped backing, altered files |

Code that changes state step by step is a class or a method with loops, proved against a function or predicate; the
main results are lemmas about those. Interleavings and environments are state machines with an event for each step.

## Conventions

- The hash is any function of key, seed and version. The fingerprint and the section checksum are FNV-1a.
- A status is its code. An exception thrown to a reader is the code it was made from.
- Strings are byte sequences. Booleans are the numbers 0 and 1 of type Bool.
- Memory is sequentially consistent. A weak compare-exchange that fails for no reason is a step of its own.
- A vector of 2^63 bytes cannot be held; running into that limit is the code Unknown.

## What the proofs show about the code

- A probe sequence covers the realtime table for every hash exactly when the capacity divides 2^64
  (`Probing.CoversIffDivides`). With another capacity a new key can be shut out while slots are free
  (`RealtimeDelta.RealtimeAtomicHashMap.ShutOutWithRoom`, `RealtimeDelta.RefusedWithRoom`). Runs of publishes, scans, compactions and rebases are proved
  for tables of any capacity, with such refusals at any point.
- A publish answers Unavailable only while another publish is between reserving the probed slot and occupying it
  (`Linearization.AnswerIsSequential`); with none in flight one that runs alone ends as the sequential one
  (`SoloRuns.PublishAlone`), and a Get that runs alone ends with what is visible even then (`SoloRuns.GetAlone`).
- An index is built for up to 7 * 2^56 rows (`FrozenIndex.PlanFits`); the growth of the capacity itself stops at the
  larger bound (2^64 - 7) / 8 (`FrozenIndex.CapacityExists`).
- Compaction keeps no source positions. An update of a key that the current table does not show is safe exactly when
  it is newer than what was acknowledged for the key, in the same partition, or is that update again, or carries the
  row shown anyway (`LayerRuns.FreshIsExact`,
  and `LayerRuns.FreshIsExactAtCutover` for the table that is to take over). `LayerRuns.OlderUpdateHidesNewer` has
  short runs in which an older update hides a newer one.
- Polling on after a message failed to apply is safe exactly when nothing before the consumer's position is missing
  in the partitions of the next committed batch (`CommitRuns.CommitIsSafeExactly`); `CommitRuns.PollingOnLosesMessages`
  is the failing case. PollApplyCommitOnce itself leaves it to its caller to seek back.
- ParseArtifact sorts sections by offset alone. The overlap check can pass exactly for sections that do not overlap,
  and it passes whatever the sort does with ties exactly if, besides, no empty section shares its offset with a
  non-empty one (`SectionDirectory.SortDecidesOnlyTies`; the smallest case is `SectionDirectory.TiesAreAmbiguous`).
  A shard without rows writes such a pair: the directory of its file passes under one sort and fails under another
  (`MappedBacking.WrittenPassesExactly`).
- A schema section leaves out default values, which the fingerprint includes. A layout reads back exactly when none of
  its fields has a default value (`ArtifactSchema.SchemaReadsBackExactly`).
- Rows of a layout without fields have no slot and cannot be read back from a snapshot (`Snapshot.SnapshotBuilder.Seal`).
- The writer computes the first size of its file, header and directory, in 32 bits
  (src/artifact/artifact_writer.cc:315-319). A file that it writes passes the parser's checks of header and directory
  exactly while that size has not wrapped around (`MappedBacking.WrittenPassesExactly`): after a wrap the directory is
  written over the payloads, or the write fails for lack of room. 9,586,980 shards with a progress section are the
  first case: they are written and refused (`ArtifactWriter.WrappingWriteSucceeds`, `MappedBacking.WrappedFileIsRefused`).
- The parser computes entry offsets in 32 bits (src/artifact/artifact_format.cc:296-298). Entry 67,108,862 would be read
  from the start of the file, where the magic number is no section type; so every accepted file has a directory that
  ends within 2^32 (`ArtifactFormat.NoEntryWraps`).
- A written file gives back its layout and progress exactly if its first size has not wrapped, no field has a default
  and the progress is valid; no sort refuses it exactly if, besides, the layout has a slot and every shard a row
  (`MappedBacking.WrittenReadsBackExactly`).

## Model

| member | source | states |
|---|---|---|
| ByteIO.WriteLittleEndian | src/base/byte_io.h:40-60 | the byte loop puts exactly the little-endian bytes at the offset and keeps all others; out of bounds is an error that changes nothing |
| ByteIO.ReadLittleEndian | src/base/byte_io.h:63-80 | the accumulating loop is the little-endian value of the bytes read |
| ByteIO.FromLEofLE | src/base/byte_io.h:40-80 | reading back a written integer of any width gives it back |
| ByteIO.LEofFromLE | src/base/byte_io.h:40-80 | writing back a read integer gives the same bytes |
| ByteIO.ReadWritten | src/base/byte_io.h:40-80 | a value written into a span is what is read at its offset |
| ByteIO.AlignUp | src/base/byte_io.h:15-29 | the least multiple of the alignment at or above the value; alignment zero leaves the value |
| ByteIO.DecodeEncodedRef | src/base/byte_io.h:93-125 | a 16-byte value reference decodes to what was encoded |
| Probing.ProbesCover | src/store/realtime_delta.cc:60-68 | with a capacity that divides 2^64 the wrapped probe sequence of any hash reaches every slot |
| Probing.PowerOfTwoCovers | src/store/realtime_delta.cc:60-68 | every power of two up to 2^64 is such a capacity |
| Probing.LastSlotLost | src/store/realtime_delta.cc:60-68 | with any other capacity a key with hash 2^64 - 1 never reaches the last slot |
| Probing.CoversIffDivides | src/store/realtime_delta.cc:60-68 | the sequence covers the table for every hash if and only if the capacity divides 2^64 |
| ConcurrentMap.InitOk | src/store/realtime_delta.cc:46-51 | the empty map with idle threads satisfies the invariant |
| ConcurrentMap.StepKeepsInv | src/store/realtime_delta.cc:70-176 | every atomic step of any publisher or reader keeps the invariant |
| ConcurrentMap.RunKeepsInv | src/store/realtime_delta.cc:70-176 | so does every interleaving |
| ConcurrentMap.SlotsOnlyAdvance | src/store/realtime_delta.cc:105-149 | over any run slots only go Empty, Reserved, Occupied, and an occupied slot keeps its key |
| ConcurrentMap.SlotSafety | src/store/realtime_delta.cc:105-149 | in every reachable state an occupied slot has a row of its key, no key owns two slots, and all earlier probes of an owned key are occupied by other keys, so a reserved slot never hides a visible key |
| ConcurrentMap.VisibleNeverGoesBack | src/store/realtime_delta.cc:70-94 | once visible, a key stays visible in its partition with an offset that never decreases |
| ConcurrentMap.PublishedIsServed | src/store/realtime_delta.cc:105-149 | after a publish returned Ok its key is served at or past the published position from then on |
| ConcurrentMap.GetSeesItsStart | src/store/realtime_delta.cc:151-176 | a Get that starts when its key is visible hits, without error, at or past the position visible at its start |
| ConcurrentMap.ReadsNeverGoBack | src/store/realtime_delta.cc:151-176 | a later Get never returns an older position than an earlier one, whatever runs between and during them |
| ConcurrentMap.CountIsExact | src/store/realtime_delta.cc:141-145 | the unique key count is the number of occupied slots whenever no publisher is about to increment it |
| ConcurrentMap.ExhaustedMeansFull | src/store/realtime_delta.cc:120-148 | with a dividing capacity a publisher runs out of probes only when every slot holds another key |
| Linearization.StepIsPublish | src/store/realtime_delta.cc:70-149 | a step of the concurrent map leaves what readers see alone, or changes it as one accepted publish of the sequential map does |
| Linearization.RunIsSequential | src/store/realtime_delta.cc:70-149 | after any interleaving readers see what a sequential run of the publishes that took effect shows |
| Linearization.AnswerIsSequential | src/store/realtime_delta.cc:70-149 | whatever step ends a publish: Unavailable only if another publish in flight has the probed slot reserved; Ok(true) only if the row became visible; every other answer is what the sequential map tells at that step, its state unchanged |
| Linearization.GetIsARead | src/store/realtime_delta.cc:151-176 | a Get ends with exactly the row that is visible at its last step |
| SoloRuns.EndsAlone | src/store/realtime_delta.cc:70-149 | from any point of a publish, with no other in flight: scheduled alone it ends, and answer and visible map are those of the sequential publish |
| SoloRuns.PublishAlone | src/store/realtime_delta.cc:105-149 | so does a whole call: existing keys are updated if newer, new keys are taken while a probe meets an empty slot, else refused |
| SoloRuns.GetAlone | src/store/realtime_delta.cc:151-176 | a Get scheduled alone ends with the visible row and changes nothing, whatever slots are reserved |
| RealtimeDelta.RealtimeAtomicHashMap.Get | src/store/realtime_delta.cc:151-176 | the probe loop returns exactly the entry of the map the slots stand for, and never errs |
| RealtimeDelta.RealtimeAtomicHashMap.PublishAndReport | src/store/realtime_delta.cc:105-149 | the whole outcome: invalid rows rejected, newer accepted, stale and idempotent reported, cross-partition refused; a new key is refused exactly if the table is full or none of its probes meets an empty slot; the map changes only when accepted |
| RealtimeDelta.RealtimeAtomicHashMap.ShutOutMeansFull | src/store/realtime_delta.cc:120-148 | with a capacity that divides 2^64 no probe meets an empty slot only in a full table |
| RealtimeDelta.RealtimeAtomicHashMap.ShutOutWithRoom | src/store/realtime_delta.cc:120-148 | with any other capacity a key of hash 2^64 - 1 is shut out while the last slot is free |
| RealtimeDelta.RefusedWithRoom | src/store/realtime_delta.cc:105-149 | in reach: two publishes into three slots, and the third is refused with one free |
| RealtimeDelta.RealtimeAtomicHashMap.PublishExisting | src/store/realtime_delta.cc:70-94 | a row replaces the visible one exactly if it is newer |
| RealtimeDelta.PublishKeepsLog | src/store/realtime_delta.cc:264-290 | after any publish, refused ones included, the list of rows replays to what the map shows |
| RealtimeDelta.ScanIsReplay | src/store/realtime_delta.cc:317-341 | scanning a prefix of the rows never errs and collects what readers saw after it |
| RealtimeDelta.BoundaryScanIsTimeTravel | src/store/realtime_delta.cc:311-361 | a scan up to a captured boundary returns what was visible then, whatever was published or refused since, in a table of any capacity |
| RealtimeDelta.RunShowsNewest | src/store/realtime_delta.cc:264-309 | coherent updates in any order, into a table of any capacity: the newest acknowledged one of each key is shown; all are acknowledged if the keys fit and keys are shut out of a full table only |
| RealtimeDelta.OrdersConverge | src/store/realtime_delta.cc:264-309 | two orders of the same updates, with repeats, into such tables with room for the keys, all succeed and end with the same rows |
| RealtimeDelta.PublishRun | src/store/realtime_delta.cc:228-290 | a run of publishes into a new table; with a capacity that divides 2^64 and room for the keys all succeed and the newest of each key is shown |
| RealtimeDelta.ReplayConverges | src/store/realtime_delta.cc:264-309 | two runs that acknowledge the same updates, in any orders and with repeats, end with the same row for every key |
| RealtimeDelta.BuildRowRef | src/store/realtime_delta.cc:228-262 | what passes the checks has a valid position and is a complete row of the table's layout |
| RealtimeDelta.ReplayBuilt | src/store/realtime_delta.cc:228-290 | every visible row is filed under its own key and was built for the table's layout |
| RealtimeDelta.RealtimeDeltaAtomicTable.Publish | src/store/realtime_delta.cc:264-290 | the new row list and result of every publish, keeping list and map in agreement |
| RealtimeDelta.RealtimeDeltaAtomicTable.Get | src/store/realtime_delta.cc:292-309 | reads return exactly the replay of the row list |
| RealtimeDelta.RealtimeDeltaAtomicTable.ScanVisibleRows | src/store/realtime_delta.cc:317-361 | never an error: the rows visible at the boundary, each key once, by ascending key |
| RealtimeDelta.ListByKey | src/store/realtime_delta.cc:343-360 | the hash map's entries, complete and sorted by key |
| FrozenTable.FindIsExact | src/store/frozen_primary_key_index.cc:425-463 | on a sound table a lookup never errs or exhausts the slots, and hits exactly the stored keys |
| FrozenTable.InsertKeepsTable | src/store/frozen_primary_key_index.cc:567-591 | filling the first empty slot of a probe chain keeps every other key reachable |
| FrozenTable.VacantAhead | src/store/frozen_primary_key_index.cc:567-591 | while a slot is empty the unbounded probe loop comes nearer to one with every step |
| FrozenTable.FindListsEntries | src/store/frozen_primary_key_index.cc:425-493 | a lookup returns an offset exactly for the listed entries, with their offset |
| FrozenTable.EntriesDistinct | src/store/frozen_primary_key_index.cc:465-493 | no key is listed twice |
| FrozenIndex.HeaderReads | src/store/frozen_primary_key_index.cc:68-241 | the 80-byte header reads back as the metadata it was written from |
| FrozenIndex.CalculateCapacity | src/store/frozen_primary_key_index.cc:46-66 | the doubling loop is the specified growth from the group width to at least ceil(8n/7), refusing to pass 2^64 |
| FrozenIndex.CapacityMeetsBound | src/store/frozen_primary_key_index.cc:46-66 | every computed capacity is a power of two that meets the 7/8 bound of Validate without overflow, and above 16 half of it would not hold the rows |
| FrozenIndex.CapacityExists | src/store/frozen_primary_key_index.cc:46-66 | for group width 16 there is a capacity if and only if there are at most (2^64 - 7) / 8 rows |
| FrozenIndex.PlanFits | src/store/frozen_primary_key_index.cc:495-552 | the metadata of an index can be planned if and only if the group width is 16 and there are at most 7 * 2^56 rows |
| FrozenIndex.Validate | src/store/frozen_primary_key_index.cc:348-423 | accepts exactly sound bytes: good metadata, mirrored control bytes, reachable distinct keys, the right count |
| FrozenIndex.Reachable | src/store/frozen_primary_key_index.cc:399-411 | the probe loop of Validate decides whether a key reaches its slot |
| FrozenIndex.View.Lookup | src/store/frozen_primary_key_index.cc:425-463 | the scanning loop is the lookup on cells |
| FrozenIndex.View.ListEntries | src/store/frozen_primary_key_index.cc:465-493 | the entries are the occupied slots, in order |
| FrozenIndex.AcceptedLookups | src/store/frozen_primary_key_index.cc:348-493 | for any accepted bytes: no lookup errs, and one returns an offset exactly if Entries lists it |
| FrozenIndex.AcceptedEntriesDistinct | src/store/frozen_primary_key_index.cc:465-493 | accepted bytes list no key twice |
| FrozenIndex.Build | src/store/frozen_primary_key_index.cc:495-598 | terminates; succeeds if and only if the group width is 16, the keys are distinct and there are at most 7 * 2^56 of them; Validate accepts its bytes, whose entries are a permutation of the input |
| FrozenIndex.BuiltLookups | src/store/frozen_primary_key_index.cc:425-598 | on built bytes every lookup is the entry map, for all 2^64 keys |
| FrozenIndex.FindVacant | src/store/frozen_primary_key_index.cc:567-575 | the probing loop ends at an empty slot behind occupied ones |
| Values.EncodeScalarList | src/model/row_storage.h:54-89 | the buffer loop writes each element in its width |
| Values.DecodeScalarList | src/ingest/update_applier.cc:193-239 | a list is read exactly if its length matches its count, else it is an error |
| Values.ParseListBytes | src/ingest/update_applier.cc:193-239 | list bytes parse back to the list |
| Values.ListBytesParse | src/ingest/update_applier.cc:193-239 | accepted list bytes are the bytes of the list they parse to |
| Schema.RuntimeSchema.AddField | src/model/schema.cc:277-287 | refuses used and retired ids and policy violations, else appends; field ids are never reused |
| Schema.RuntimeSchema.DeleteField | src/model/schema.cc:289-302 | the first active field with the id moves to the retired ones, marked deleted |
| Schema.Compile | src/model/schema.cc:327-383 | the three passes compute the specified layout and fingerprint |
| Schema.CompiledIsWellFormed | src/model/schema.cc:327-383 | for every schema: presence bits in the bitmap; slots aligned, in bounds, off the bitmap, pairwise disjoint |
| Schema.CompiledKeepsSpecs | src/model/schema.cc:327-383 | a compiled layout has one field for each of the schema, by ascending id, with its name, type, nullability, encoding and default |
| Schema.CompiledIsTight | src/model/schema.cc:327-383 | no slot is wasted: bitmap, fixed slots and reference area each start as soon as alignment allows, and references follow each other |
| Schema.InsertionOrderIrrelevant | src/model/schema.cc:327-383 | the layout, fingerprint included, does not depend on the order of insertion |
| Schema.SlotsDisjoint | src/model/schema.cc:345-380 | no two slots overlap, fixed or reference |
| RowStorage.SlotWritten | src/model/row_storage.cc:290-320 | writing a slot puts the content there and sets the presence bit |
| RowStorage.OtherSlotKept | src/model/row_storage.cc:290-320 | the slot and presence of another field stay as they were |
| RowCodec.WrittenReadsBack | src/model/row_storage.cc:290-638 | a written field is present and reads back exactly, in all five encodings and both shapes |
| RowCodec.OtherFieldKept | src/model/row_storage.cc:290-417 | writing one field never changes what is read from another |
| RowCodec.EncodedRowReads | src/ingest/update_applier.cc:717-747 | of an encoded payload every layout field reads as the payload's value; one without a value as its default, else, being nullable, as NotFound |
| RowAcceptance.WritesExactly | src/model/row_storage.cc:322-638 | a field is written if and only if the value is of its type and shape and the pools have room; how much they grow |
| RowAcceptance.EncodesExactly | src/ingest/update_applier.cc:717-747 | a payload encodes for a layout if and only if every value that the layout knows fits its field, the pools hold all of them, and no field is without a value, a default and nullability |
| RowAcceptance.ReadsAreTyped | src/model/row_storage.cc:54-95 | an unknown field reads as NotFound, a field asked for by another type or shape as InvalidArgument |
| RowWriter.EncodedRowBuffer.SetFieldPresent | src/model/row_storage.cc:290-303 | the in-place bit is the specified one |
| RowWriter.EncodedRowBuffer.WriteValueRefField | src/model/row_storage.cc:305-320 | reference written and field marked, or an error |
| RowWriter.EncodedRowBuffer.WriteScalarField | src/model/row_storage.h:91-118 | the in-place write is the specified row |
| RowWriter.EncodedRowBuffer.WriteStringField | src/model/row_storage.cc:322-363 | arena and dictionary strings as specified |
| RowWriter.EncodedRowBuffer.WriteNumberListField | src/ingest/update_applier.cc:546-575 | arena and dictionary lists as specified |
| RowWriter.EncodedRowBuffer.WriteArenaStringListField | src/ingest/update_applier.cc:385-436 | the loop writes the reference table and then the text it refers to |
| RowWriter.EncodedRowBuffer.WriteElementDictionaryField | src/ingest/update_applier.cc:690-712 | elements are appended to the dictionary and their ids to the arena |
| RowWriter.EncodedRowBuffer.WriteFieldValue | src/ingest/update_applier.cc:476-715 | every combination of type, shape and encoding does what the specification says |
| RowWriter.DecodeArenaStringList | src/model/row_storage.cc:246-280 | the reading loop returns the strings of the reference table, or the first error |
| RowWriter.DecodeElementList | src/model/row_storage.cc:608-632 | the reading loop returns the dictionary elements of the ids, or the first error |
| RowWriter.EncodePayload | src/ingest/update_applier.cc:717-747 | the loop over the payload is the specified encoding |
| WireFrame.ParsePrint | src/ingest/update_applier.cc:22-28 | decoding a printed payload gives it back |
| WireFrame.PrintParse | src/ingest/update_applier.cc:313-378 | re-printing any accepted frame gives the same bytes, so decoding is a bijection onto payloads with distinct ids |
| FrameReader.DecodePayload | src/ingest/update_applier.cc:313-378 | the cursor-driven decoder is the specified parser |
| FrameReader.DecodeValue | src/ingest/update_applier.cc:276-311 | every wire kind decodes to its value, with exact lengths |
| FrameReader.ByteReader.ReadInteger | src/ingest/update_applier.cc:80-121 | reads and steps over an integer, or leaves the cursor |
| Applier.PreparedMeans | src/ingest/update_applier.cc:127-189 | a message passes all checks if and only if topic and position are valid, the payload parses and encodes for every route, and every route has a power of two of shards, all present |
| Applier.UpdateApplier.Apply | src/ingest/update_applier.cc:768-813 | succeeds if and only if the message passes all checks and every route's table is of its layout and shows the key in the message's partition or has an empty slot for it; a message that fails to decode or encode for any route changes no table; otherwise each table keeps its rows or takes the message's, and on success every route's table took it |
| Applier.UpdateApplier.ApplyBatch | src/ingest/update_applier.cc:815-822 | messages are applied up to the first that is not accepted; each applied one is shown at or past its position in every route's table, and stays so |
| Applier.AppliedRowReads | src/ingest/update_applier.cc:717-813 | end to end: a message applied as the newest of its key reads back field by field; where it has no value the default, else NotFound |
| Applier.RouteRowReads | src/ingest/update_applier.cc:768-813 | once Apply accepted the message, it reads so in the table of every route |
| Applier.UpdateApplier.TakenStaysTaken | src/ingest/update_applier.cc:815-822 | no later message undoes an earlier one |
| Snapshot.EnumerateSnapshotRows | src/store/snapshot.cc:75-98 | the rows of the listed entries, or the first error |
| Snapshot.EnumeratedLists | src/store/snapshot.cc:75-98 | a backing that serves a map enumerates it: each key once with its row, nothing else |
| Snapshot.Get | src/store/snapshot.cc:104-128 | point reads validate, look up, fetch and materialize, passing on each error |
| Snapshot.SnapshotBuilder.AddRow | src/store/snapshot_builder.cc:19-60 | which rows are refused, and that an accepted one is appended to all four vectors in step |
| Snapshot.SnapshotBuilder.Seal | src/store/snapshot_builder.cc:62-83 | succeeds if and only if there are at most 7 * 2^56 rows; the sealed backing serves exactly the added rows, if and only if the layout has a slot or there are no rows; its index is sound and made with the options |
| Snapshot.KeyServed | src/store/snapshot_builder.cc:19-83 | every key of a sealed backing finds its row, any other key misses |
| Snapshot.StoredReads | src/store/snapshot.cc:34-73 | the row stored at index i is what EncodedRowAt returns at i times the slot size |
| Shards.Get | src/runtime/shard_state.cc:31-64 | the fall-through is the first layer that does not miss |
| Shards.MGet | src/runtime/shard_state.cc:66-78 | all reads in key order, or the first error |
| Shards.FirstHitDecides | src/runtime/shard_state.cc:31-64 | a layer's error or row is returned as soon as all layers above miss, whatever lies below |
| Shards.ReadsAreOverlay | src/runtime/shard_state.cc:31-64 | for layers that hold rows of one layout, reads never err and are the overlay realtime, compact, full |
| Compaction.AddRowIfNew | src/rebuild/compaction.cc:27-38 | a row is added only under a new key |
| Compaction.BuildCompactedDeltaSnapshot | src/rebuild/compaction.cc:42-97 | mode and layout checks; the result serves the rows visible at the boundary over the compact rows, under an index made with the options; succeeds for fitting rows, at most 7 * 2^56 and within the size limit of the slots |
| Compaction.CheckSameLayout | src/rebuild/full_rebase.cc:12-44 | accepts exactly backings of one layout with sound indexes of the same hash settings |
| Compaction.AgreeExactly | src/rebuild/full_rebase.cc:12-44 | backings agree if and only if version, fingerprint and slot size are equal and some options are those both indexes were made with |
| Compaction.BuildRebasedFullSnapshot | src/rebuild/full_rebase.cc:80-144 | mode, active-load and layout checks; the result serves compact over full, under an index made with the options; succeeds for fitting rows, at most 7 * 2^56 and within the size limit of the slots |
| Compaction.FinishFullRebase | src/rebuild/full_rebase.cc:146-165 | refuses while the previous realtime layer shows a row; else the new state has no compact layer |
| Compaction.CompactionCutover | src/rebuild/compaction.cc:99-116 | after the cutover the compact layer holds the scanned rows over the old compact rows, the full layer is kept |
| Compaction.RebaseCutover | src/rebuild/full_rebase.cc:146-165 | after the cutover the full layer holds both snapshots |
| LayerRuns.StepKeepsInv | src/rebuild/compaction.cc:42-116 | each publish, refused early or not, capture, build, finish and abandon keeps both the serving and the successor table over their layers current |
| LayerRuns.NothingLost | src/rebuild/full_rebase.cc:59-165 | over any run with routed updates, reads after each cutover give the newest acknowledged update of a key, or its base row |
| LayerRuns.FreshIsExact | src/rebuild/compaction.cc:64-74 | on an idle or mirroring shard an acknowledged update keeps reads right if and only if it is fresh or carries the row shown anyway |
| LayerRuns.FreshIsExactAtCutover | src/rebuild/compaction.cc:99-116 | so does an update that the successor of a running job takes, judged after the cutover |
| LayerRuns.OlderUpdateHidesNewer | src/rebuild/compaction.cc:64-116 | the failing case, in reach: after or during a compaction an older update of the key is acknowledged and hides the compacted row |
| LayerRuns.CompactionMovesDown | src/rebuild/compaction.cc:42-116 | capture, build and finish move what the table shows into the compact layer |
| ShardRuns.CompactionIsFinish | src/rebuild/compaction.cc:99-116 | the cutover of a compaction of a shard is the Finish step of the run it stands for |
| ShardRuns.RebaseIsFinish | src/rebuild/full_rebase.cc:146-165 | so is the cutover of a rebase, which happens exactly if the realtime layer shows nothing |
| ShardRuns.ReadsLoseNothing | src/runtime/shard_state.cc:31-64 | after any run with routed updates the shard reads every key without error as its newest acknowledged update, or its base row |
| ForwardIndex.Get | src/api/forward_index.cc:103-117 | the answer of the key's shard; a missing shard is a miss |
| ForwardIndex.Scatter | src/api/forward_index.cc:119-126 | every position is listed once, under its key's shard, in order |
| ForwardIndex.MGet | src/api/forward_index.cc:119-163 | position by position exactly what Get answers, duplicates and misses included; fails only with the error of some key |
| RouteReads.AppliedIsRead | src/ingest/update_applier.cc:749-813 | the message that Apply accepted as the newest of its key is what a Get of the key then returns, field by field |
| RouteReads.AppliedIsReadInBulk | src/api/forward_index.cc:119-163 | and what an MGet has at every position of that key |
| AsyncLoad.CatchUpRequired | src/rebuild/async_load.cc:68-75 | true exactly if some partition's committed offset is below its target |
| AsyncLoad.UpdateObservedSafeProgress | src/rebuild/async_load.cc:91-114 | targets keep their order and rise to what was observed; a missing partition is an error |
| AsyncLoad.CaptureCovers | src/rebuild/async_load.cc:444-490 | after each capture every target is at least the artifact's and every observed watermark |
| AsyncLoad.StepKeepsInv | src/rebuild/async_load.cc:279-528 | every step of worker, CancelLoad and destructor keeps the protocol's invariant and a terminal code |
| AsyncLoad.PublishedInOrder | src/rebuild/async_load.cc:328-527 | published shards are the counted prefix; none before all are loaded, prewarmed and caught up with every watermark seen; success means all |
| AsyncLoad.TargetsOnlyRise | src/rebuild/async_load.cc:91-114 | from the first capture on no step drops or reorders a partition or lowers its target |
| AsyncLoad.TerminalIsForever | src/api/forward_index.cc:202-221 | a stored terminal code never changes and never becomes non-terminal again |
| AsyncLoad.CancelStopsPublishing | src/api/forward_index.cc:247-264 | after CancelLoad returned true at most one more shard is published, and the load stays cancelled |
| LoadOutcomes.PublishedIsAccepted | src/rebuild/async_load.cc:511-524 | over every run the published shards are exactly those whose publish call answered Ok, in order |
| LoadOutcomes.ErrorEndsLoad | src/rebuild/async_load.cc:355-519 | a call of the worker that errs ends the load: nothing more is published, and it is stored as Failed, as cancelled if a poll was or CancelLoad came first |
| LoadOutcomes.DestroyStopsPublishing | src/api/forward_index.cc:78-93 | once the destructor has set the flags at most one more shard is published |
| LoadOutcomes.LoadSucceeds | src/rebuild/async_load.cc:279-528 | a load whose calls succeed, that nobody cancels, and whose captures report the targets reached from some point on, ends: Succeeded, with every shard published in order and reported so |
| LoadOutcomes.SnapshotLoadSucceeds | src/rebuild/async_load.cc:376-411 | without a realtime layer it is enough that every call answers Ok |
| Coordinator.ValidateBatchTopicAndPositions | src/ingest/update_coordinator.cc:29-48 | the error of the first bad message, or ok |
| Coordinator.BuildCommitCheckpoint | src/ingest/update_coordinator.cc:50-82 | one entry per partition of the batch, one past its highest offset, without overflow; fails exactly on an offset that cannot advance |
| Coordinator.UpdateCoordinator.PollApplyCommitOnce | src/ingest/update_coordinator.cc:91-129 | invalid options, a failed poll and an empty batch answer as they should, without a commit; any other batch is committed past, once every table has taken every message, unless a message is out of place or the applier does not accept the next one; then tables have taken a prefix of it |
| CommitRuns.PollIsStep | src/ingest/update_coordinator.cc:91-129 | a call that meets the contract of PollApplyCommitOnce is a step of the runs: its checkpoint is the committed one, and tables have taken what counts as applied |
| CommitRuns.CheckpointIsAdvance | src/ingest/update_coordinator.cc:50-82 | the checkpoint of a batch has exactly the positions that consuming it leads to |
| CommitRuns.StepKeepsInv | src/ingest/update_coordinator.cc:91-129 | one poll or re-seek keeps everything below the committed offsets applied |
| CommitRuns.CommittedIsApplied | src/ingest/update_coordinator.cc:91-129 | over runs that stop at a failed message until they seek back, every message below a committed offset was applied |
| CommitRuns.CommitIsSafeExactly | src/ingest/update_coordinator.cc:102-128 | a committed batch is safe if and only if nothing before the position of its partitions is missing |
| CommitRuns.PollingOnLosesMessages | src/ingest/update_coordinator.cc:102-128 | the failing case: polling on after an error commits past a message that was never applied |
| LoadRuns.PublishedIsReplayed | src/rebuild/async_load.cc:424-492 | nothing is published before every message between the artifact's checkpoint and any watermark seen has been applied |
| SectionCodec.ReadList | src/artifact/mmap_snapshot_backing.cc:137-154 | the cursor loop reads the specified list and leaves the rest |
| SectionCodec.ReadBytes | src/artifact/mmap_snapshot_backing.cc:105-135 | a length and that many bytes, or an error |
| SectionCodec.AppendCounted | src/artifact/artifact_writer.cc:178-194 | the appended list, or an error exactly when a length does not fit its prefix |
| SectionCodec.CountedTaken | src/artifact/artifact_writer.cc:178-194 | a written list reads back, whatever follows it |
| RowPayloads.SerializeRowPayloads | src/artifact/artifact_writer.cc:196-255 | the section bytes, or an error exactly when some size does not fit |
| RowPayloads.ReadPayloadAt | src/artifact/mmap_snapshot_backing.cc:156-220 | the scan returns the wanted payload, or an error past the end |
| RowPayloads.PayloadReadsBack | src/artifact/mmap_snapshot_backing.cc:156-220 | any payload of a written section reads back; any other index is an error |
| RowPayloads.CheckedPayloads | src/artifact/mmap_snapshot_backing.cc:222-241 | a section that passes the row count check has a payload exactly below that count |
| ArtifactSections.ParseSourceProgressSection | src/artifact/artifact_format.cc:129-179 | the loop with its seen set is the specified parser |
| ArtifactSections.TakenEntriesAreGood | src/artifact/artifact_format.cc:129-179 | accepted entries are valid and have a partition each |
| ArtifactSections.SerializeSourceProgress | src/artifact/artifact_writer.cc:131-162 | the section bytes, or an error exactly when a size does not fit |
| ArtifactSections.ProgressReadsBackExactly | src/artifact/artifact_format.cc:129-179 | progress survives the file if and only if it is valid, with one entry for each partition |
| ArtifactSchema.ParseSchemaSection | src/artifact/artifact_format.cc:65-127 | the loop over AddField and the compilation are the specified parser |
| ArtifactSchema.SerializeSchema | src/artifact/artifact_writer.cc:99-129 | the section bytes, or an error exactly when a size does not fit |
| ArtifactSchema.SchemaSection | src/artifact/artifact_writer.cc:115-127 | reading back gives the layout without defaults exactly if its fingerprint is the written one, else an error |
| ArtifactSchema.SchemaReadsBackExactly | src/artifact/artifact_format.cc:65-127 | a layout survives the file if and only if no field has a default value |
| SectionDirectory.ReadEntries | src/artifact/artifact_format.cc:293-334 | accepts exactly directories of known types and shards, in bounds, one per type and shard, read at the 32-bit entry offsets |
| SectionDirectory.AdjacentMeansApart | src/artifact/artifact_format.cc:336-347 | the adjacent check on any sorted copy proves that no two sections share a byte |
| SectionDirectory.SortDecidesOnlyTies | src/artifact/artifact_format.cc:336-347 | some sort passes the check if and only if no two sections overlap; every sort does if and only if, besides, no empty section ties with a non-empty one |
| SectionDirectory.TiesAreAmbiguous | src/artifact/artifact_format.cc:336-347 | the smallest case: an empty section at the start of another passes in one order and fails in the other |
| SectionDirectory.AdjacentFit | src/artifact/artifact_format.cc:341-347 | lengths sum to at most the file behind the directory |
| SectionDirectory.FindIsUnambiguous | src/artifact/artifact_format.cc:199-207 | a section that is there is the one that is found |
| SectionDirectory.CheckChecksums | src/artifact/artifact_format.cc:349-355 | true exactly if every section matches its checksum |
| Fnv.ChangedByteShows | src/artifact/artifact_format.cc:209-216 | changing any one byte of the input changes the checksum |
| ArtifactFormat.HeaderReadsBack | src/artifact/artifact_format.cc:218-283 | written header fields read back and meet matching expectations, whatever the unwritten bytes hold |
| ArtifactFormat.NoEntryWraps | src/artifact/artifact_format.cc:285-315 | a directory that ends past 2^32 is never accepted; in all others no entry offset wraps |
| ArtifactFormat.ParsesExactly | src/artifact/artifact_format.cc:218-404 | the conditions, on the bytes alone, under which some sort and every sort of the sections lets a file parse |
| ArtifactFormat.ParseArtifact | src/artifact/artifact_format.cc:218-404 | the answer for the order that the sort produced; accepted files have a directory within 2^32 and sections in bounds after it, non-overlapping, unique, matching their checksums, with bounded total length; without ties that is also enough |
| ArtifactIntegrity.AlteredSectionIsRefused | src/artifact/artifact_format.cc:349-355 | a file that parses is refused under every sort once any one byte of any section was changed |
| ArtifactIntegrity.ParsedMeetsExpectations | src/artifact/artifact_format.cc:218-404 | a file that parses has the expected sharding and hash settings, progress where it is required, and the layout that its header names |
| ArtifactFile.DirectoryReadsBack | src/artifact/artifact_writer.cc:67-97 | the written directory reads back as the recorded sections while it ends within 2^32 |
| ArtifactFile.PayloadInFile | src/artifact/artifact_writer.cc:257-272 | every recorded section covers exactly its payload |
| ArtifactFile.WrittenDirectoryOk | src/artifact/artifact_writer.cc:257-480 | a file whose first size has not wrapped passes every directory check under some sort, empty parts included |
| ArtifactFile.TiesOfParts | src/artifact/artifact_writer.cc:257-272 | no empty section ties if no part is empty; one does if an empty part is followed by one with content |
| ArtifactFile.OverReadsBack | src/artifact/artifact_writer.cc:393-468 | header and entries written over any bytes read back, and the bytes behind the directory stay |
| ArtifactFile.OverZeros | src/artifact/artifact_writer.cc:393-468 | written over the zeros of a first size that has not wrapped they give header, directory, payloads |
| ArtifactFile.PartIsFound | src/artifact/artifact_format.cc:199-207 | the reader finds each part's payload under its type and shard |
| ArtifactWriter.AddSection | src/artifact/artifact_writer.cc:257-272 | payload and section record grow together |
| ArtifactWriter.BuildShardSnapshot | src/artifact/artifact_writer.cc:274-286 | succeeds exactly for rows of the layout under distinct keys within the size limits; the backing serves the shard's rows |
| ArtifactWriter.PatchHeader | src/artifact/artifact_writer.cc:393-459 | the in-place writes put the header's fields over the file and touch nothing else |
| ArtifactWriter.PatchDirectory | src/artifact/artifact_writer.cc:461-468 | the in-place writes put the entries at their 64-bit offsets, or fail exactly if the last one does not fit |
| ArtifactWriter.WriteArtifactWithShards | src/artifact/artifact_writer.cc:288-480 | succeeds exactly if CanWrite; the bytes are header and directory over a first size of 32 bits and the sections of backings that serve the shards' rows |
| ArtifactWriter.FileHoldsHeader | src/artifact/artifact_writer.cc:315-319 | even a size that wraps to zero leaves room for the header |
| ArtifactWriter.WrittenPlainly | src/artifact/artifact_writer.cc:315-468 | while the size has not wrapped the file is header, directory, payloads |
| ArtifactWriter.WrappingWriteSucceeds | src/artifact/artifact_writer.cc:315-319 | 9,586,980 shards with a progress section wrap the size to zero, and are written |
| MappedBacking.LoadShard | src/artifact/mmap_snapshot_backing.cc:317-397 | loads only files that parse, with a directory within 2^32; gives the shard that the sections hold, always if every sort lets the file parse |
| MappedBacking.MappedRowIsOwnedRow | src/artifact/mmap_snapshot_backing.cc:399-436 | at every offset, valid or not, the mapped backing returns what the owned one does |
| MappedBacking.WrittenPassesExactly | src/artifact/artifact_writer.cc:315-480 | a written file passes header and directory checks under some sort if and only if its first size has not wrapped, under every sort if and only if, besides, no shard's slots are empty |
| MappedBacking.WrappedFileIsRefused | src/artifact/artifact_writer.cc:315-480 | the first wrapped file is written and then refused under every sort |
| MappedBacking.WrittenReadsBackExactly | src/artifact/artifact_format.cc:218-404 | the exact condition under which a written file gives back its layout and progress, for some sort and for every sort |
| MappedBacking.FileRefinesSnapshot | src/artifact/mmap_snapshot_backing.cc:317-436 | a readable file gives the same layout and progress, every shard loads, with rows or without, every offset has the same row, every key reads the same; every sort accepts it if and only if every shard has a row |

## Helper facts

These members state facts that Dafny needs no proof body for; the members above use them: `FrozenIndex.MetadataMeaning`
(what the chain of checked arithmetic accepts), `FrozenIndex.TimesEight` (the division test of the checked
multiplication), `RowCodec.CastsKeep` (the 32-bit casts lose nothing within the frame), `Applier.TookIsIdempotent`
(publishing a row again changes nothing), `RowAcceptance.MaterializesExactly` (a row is accepted exactly if header and
size fit and no required field is missing), `RowAcceptance.PolicyExactly` (the encodings and defaults that a schema
takes), `RouteReads.ShownIsRead` (a key that the route's table shows is what the directory answers),
`Compaction.ResolvesExactly` and `Compaction.FinishExactly` (when a compaction has a layout, and what its cutover
keeps), `LayerRuns.RebaseMovesDown` (a rebase moves the compact layer down, or leaves the shard as it was).

## Left out

- RunExternalArtifactLoad: is a machine of its steps and not one method, because its poll loop is bounded by its environment alone and other threads act between any two steps.
- ArtifactWriter.WriteArtifactWithShards: the returned bytes stand for the file, its stream is not modelled; a vector that grows to 2^63 bytes is the code Unknown.
- FrozenIndex.Build: does not bound the index by what a vector can hold; from 7 * 2^55 + 1 rows on it has 2^63 bytes or more.
- LoadOutcomes.LoadSucceeds: says from when on captures report the targets reached; whether the runner gets there depends on the messages that keep arriving.
- Coordinator.BuildCommitCheckpoint: returns a map from partition to next offset; the order of the entries in the original's vector is not modelled.
- LayerRuns.NothingLost: assumes that one rebuild runs at a time, that updates after the boundary reach the successor table, and that an update of a key which the table does not show is newer than what was acknowledged for it, in the same partition, or is that update again; nothing in the code enforces these. A mirrored update that the serving table takes and the successor refuses is excluded too: it would be visible without having been acknowledged.
- CommitRuns.CommittedIsApplied: counts a message as applied if it was applied at some time; a crash also loses the tables, which a load then rebuilds from the artifact.
- AsyncLoad.PublishedInOrder: takes progress and layout from shard 0 as the original does; LoadRuns.PublishedIsReplayed is for a runner that reports its committed offsets.
- Applier.UpdateApplier.Apply: a table whose layout differs from its route's is told from it by schema version or fingerprint; two layouts with the same of both are left out.
- ByteIO.AlignUp: computes in unbounded integers; the wrap-around at 2^64 is left out, for layouts of that size cannot be held.
- Reserving room for a count read from the input (src/artifact/artifact_format.cc:139, 294): how much memory a decoder asks for ahead is not modelled.
- Order of load generations: they are load ids, and two loads may publish in either order.
- Kafka client, its configuration and topic lists: only what poll, progress and commit return is there.
- Files, directories, URIs, mapping and page prewarming: a file is its bytes, prewarming a step that succeeds or fails.
- Row accessors that skip field resolution (src/model/row_storage.cc:31-96): reads resolve the field by id.
- Statistics, byte counters, thresholds, version strings, lag and status messages: reporting only.
- Null shared pointers for map, table or backing: an optional layout or layer stands for those that callers can leave out.
- Encoding names in configuration files (src/model/schema.cc:222-275) and the offline tools: they re-do encodings covered here.
- ReserveSlotForTesting, test factories and the test peer.
- Weak memory order and reclamation of rows.
