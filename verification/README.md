# SevenDB in Dafny

A model of the parts of SevenDB where state, bytes and order are hardest to get right, with proofs
of what they promise. `dafny verify dfyconfig.toml` checks all of it.

**The packed list** (`Varint`, `Decimal`, `EntryCodec`, `PlainList`, `ByteLists`, `Deques`,
`BasicDeques`, `ListRuns`, `CapacityPanic`, `StaleByte`, `DequeDump`). A list of strings lives as variable-length entries in a
doubly linked list of byte buffers with a cursor into the first. The model keeps the pointers, the
buffers with their capacities and the bytes. Every operation is proved to be the operation on a plain
sequence of strings, and whole command sequences give the same replies on the packed deque, the flat
deque and the sequence.

**The emission outbox** (`Emission`, `OutboxManager`, `OutboxHistory`, `DoubleApplication`,
`LaggingPass`, `Delivery`, `SendOrder`, `Retention`, `GapFreeResume`, `ExactResume`, `RebindResume`,
`Notifiers`). Committed writes and purges build an outbox per subscription; a notifier sends from it,
clients acknowledge, reconnect and come back under another name. Proved over every run: no update is
lost, acks increase, nothing is sent twice or out of order, two interleaved passes over the log
converge, and exactly when a resumed client sees no gap.

**The segmented raft WAL** (`Segments`, `SegmentNames`, `WalLog`, `ReplayOrder`, `WalWriters`,
`WalSessions`, `WalRuns`, `WalFaults`, `WalPruning`, `HardSurvival`, `WalValidators`, `ShadowNodes`,
`NodeFaults`). A directory is a map from segment numbers to bytes. CRC-32 and protobuf are
uninterpreted functions. Proved: what replay returns for every run, rotation and cut, and in which
order; what a session behind any tail makes of it; what pruning keeps, also beside appends; exactly
when the last hard state survives; that the validator ring agrees with the log.

**Sketches, matching, store, ids** (`CountMin`, `Bloom`, `Wildcard`, `Stores`, `CyclicId`).

`Bytes` and `Sequences` hold byte words and facts about sequences used throughout.

## What the proofs show about the code

Where a promised property is false of the code, the code is modelled as it is, a lemma gives the
input, and another says exactly when the property holds.

- Numeric strings come back in canonical form: `007` is read as `7` (`EntryCodec.UnchangedByStorage`).
- A number written with 21 or more bytes, such as zero-padded, is given a slot of the wrong size, and
  a push of it to the packed deque panics (`EntryCodec.PaddedZerosUndersized`, `Deques.Deque.RPush`).
- A left push computes a capacity below its length and panics exactly when the cursor stands more than
  256 bytes into the head buffer and the entry does not fit in front of it (`Deques.Deque.LPush`,
  `CapacityPanic.FourCommands`).
- Entry bodies of exactly 16383, 2097151 or 268435455 bytes reserve one back-length byte too many. It
  is harmless unless it is written over a stale byte, which five commands reach
  (`EntryCodec.StaleSpareByteMisparses`, `StaleByte.FiveCommands`, `ListRuns.RunBoth`).
- A list emptied by RPOP with popped bytes still in its node does not survive DUMP and RESTORE: the next
  RPUSH and LPOP decode an empty slice. Every other list does (`DequeDump.DumpRestore`).
- A rebind replaces an entry when both names hold its index (`OutboxHistory.RebindCount`).
- A resume has a gap when a purge that reaches it is in flight, and a resume under a new name also when
  a write is in flight under the old one (`ExactResume.GapFreeExactly`, `RebindResume.RebindExactly`).
- The two passes over the log can diverge when a write has no delta argument; which logs do is decided
  by what else happens at its slot (`DoubleApplication.LogConvergesExactly`). While they run, the
  compaction watermark is too low exactly after a purge by the pass behind, and then stale reconnects
  are answered OK (`LaggingPass.StaleAnsweredExactly`).
- Replay reports an error for a payload that was cut short, although the package comment says replay
  stops at the boundary; only a cut inside a header ends cleanly (`Segments.ScanCut`). A new session
  appends behind such a tail, and unless a checksum happens to fit, its records are not read
  (`WalSessions.BehindTornPayload`, `WalSessions.BehindTornHeader`).
- Segments are read in file-name order, which puts `seg-10.wal` before `seg-2.wal`, so a log of more
  than ten filled segments comes back in another order (`ReplayOrder.ReplaysExactly`,
  `WalFaults.ElevenSegments`).
- Pruning scans after releasing the lock: a rotation in between lets it remove the active segment
  (`WalWriters.Writer.PruneScan`, `WalFaults.RotationDuringPrune`).
- A node writes raft's own files before the WAL. After a crash in between, or one that cost the WAL its
  buffered tail, the prune floor can pass the last hard state the WAL has, which is then removed
  (`ShadowNodes.Node.PrunePass`, `NodeFaults.LostAfterCrash`).
- A copied Bloom filter loses its seeds: saved and restored, it gives one answer for all values and can
  deny one that was added (`Bloom.AddedButDenied`, `Bloom.RestoredCopyAgreesExactly`). No command makes
  such a copy: `Bloom.DeepCopy` returns `*Bloom`, so it is not the `DeepCopy` that
  `internal/object/deep_copy.go:10-12` asks for, and only a unit test calls it.
- The wildcard matcher lets a `*` in the pattern take a `*` in the key as a literal, and so refuses
  keys its pattern matches (`Wildcard.RightExactly`).

## Assumptions

- Strings and marshalled envelopes are shorter than 2^32 bytes. In the outbox, commit indices are used
  once and belong to one epoch where a statement says so.
- Raft's order contract, commits never going back and entries committed in order and none beyond the
  hard state last logged, appears only where a statement says so (`ShadowNodes.Promised`).
- Marshalled envelopes decode to what was marshalled and are not empty (`ShadowNodes.Fits`).
- Hashes, CRC-32, protobuf, the clock, and which sends and snapshots succeed are parameters. The order
  in which Go visits a map is left open.
- Object references put into the store are not in it yet.


## Model

| member | source | states |
|---|---|---|
| `Varint.VarintRoundTrip` | internal/dencoding/int.go:38-63 | the base-128 groups of any number, top bits included, decode to it |
| `Varint.EncodeUInt` | internal/dencoding/int.go:38-52 | the encoding loop writes exactly the groups the round trip is about |
| `Varint.DecodeUInt` | internal/dencoding/int.go:55-63 | the decoding loop uses every byte and computes the low 64 bits of the value of their groups |
| `Varint.EncodeUIntRevInPlace` | internal/dencoding/int.go:79-89 | the reversed encoder fills the end of the buffer, and what it leaves of a buffer one byte too long |
| `Varint.DecodeUIntRev` | internal/dencoding/int.go:106-114 | the reversed decoder computes the low 64 bits of the value of the groups read from the right |
| `Varint.NoCarry` | internal/dencoding/int.go:55-63 | a group shifted and cut to 64 bits never carries into the lower ones, also where a shift drops bits |
| `Varint.RevValueOfRevGroups` | internal/dencoding/int.go:79-114 | reading reversed groups from the right returns the number |
| `Varint.RevGroupsReverseGroups` | internal/dencoding/int.go:38-114 | the reversed form is the forward form with its bytes in reverse order, the top bits moved |
| `Varint.ReservedSize` | internal/dencoding/int.go:92-103 | the reserved size is the encoded length, or one more exactly at 2^14-1, 2^21-1 and 2^28-1 |
| `Decimal.ParseFormat` | internal/eval/deque.go:648-678 | every int64 survives formatting and parsing |
| `Decimal.FormatParseExactly` | internal/eval/deque.go:603-612 | a numeric string is given back unchanged if and only if it is in canonical form |
| `EntryCodec.SizeIsLength` | internal/eval/deque.go:603-778 | the size function gives the encoded length if and only if the string is not a 21-byte-or-longer number |
| `EntryCodec.InPlaceAgrees` | internal/eval/deque.go:681-741 | on a slice of the computed size the in-place encoder panics exactly when the size function disagrees, and otherwise writes the allocating encoder's bytes exactly when the spare byte was clean |
| `EntryCodec.DecodeEncoded` | internal/eval/deque.go:785-842 | decoding an encoded entry followed by anything returns the normalised string and its exact length, for every integer range and string class |
| `EntryCodec.EntryForms` | internal/eval/deque.go:603-678 | the first byte of an entry tells a number from a string and its width, its bytes are the value or length and the string, and a number ends in its length |
| `EntryCodec.NormStored` | internal/eval/deque.go:603-612 | a normalised string has the same stored bytes, and normalising it again changes nothing |
| `EntryCodec.UnchangedByStorage` | internal/eval/deque.go:603-612 | a string comes back unchanged if and only if it is not a number of at most 20 bytes in non-canonical form |
| `EntryCodec.PaddedNumberChanges` | internal/eval/deque.go:603-612 | `007` is stored and comes back as `7` |
| `EntryCodec.PaddedZerosUndersized` | internal/eval/deque.go:744-750 | twenty-one zeros need 23 bytes and get 2, so every in-place write of them panics |
| `EntryCodec.ScanBackField` | internal/eval/deque.go:326-351 | the backward scan finds where the back-length field of the last entry starts |
| `EntryCodec.EntryFromRight` | internal/eval/deque.go:326-351 | reading back from the right end of any bytes followed by an entry finds exactly that entry's start |
| `EntryCodec.StaleSpareByteMisparses` | internal/eval/deque.go:326-351 | after an in-place write with a spare byte, reading back finds the start of the entry if and only if that byte was clean; otherwise the back-length read is the stale bits above the true one |
| `EntryCodec.UniqueReading` | internal/eval/deque.go:785-842 | two lists of strings with the same encoding are the same list after normalisation |
| `ByteLists.ByteList.NewNode` | internal/eval/bytelist.go:40-54 | a loose empty node of the given capacity, counted in the size |
| `ByteLists.ByteList.Append` | internal/eval/bytelist.go:56-65 | links stay a doubly linked chain with the node at the end |
| `ByteLists.ByteList.Prepend` | internal/eval/bytelist.go:67-76 | links stay a doubly linked chain with the node at the front |
| `ByteLists.ByteList.Delete` | internal/eval/bytelist.go:78-96 | exactly that node leaves the chain and the size |
| `ByteLists.ByteList.LinkBefore` | internal/eval/deque.go:412-468 | a chain put in front of a node of the list; the head moves when there is nothing before it |
| `ByteLists.ByteList.CutAfter` | internal/eval/deque.go:354-400 | the list ends at a node, the nodes behind stay linked to each other |
| `ByteLists.ByteList.LinkFirst` | internal/eval/deque.go:354-368 | a new node in front of the nodes cut off |
| `ByteLists.ByteList.Rejoin` | internal/eval/deque.go:354-400 | the cut nodes are put back behind the tail |
| `Deques.WriteFirstEntry` | internal/eval/deque.go:281-306 | an empty node then holds exactly that entry, or the slot panics |
| `Deques.AppendEntry` | internal/eval/deque.go:281-306 | the node's entries plus one at the end, reusing capacity; clean or not, the encoder's bytes follow those in front |
| `Deques.PrependEntry` | internal/eval/deque.go:252-279 | the node's entries from the moved cursor on plus one at the front; panics exactly when the computed capacity is below the length |
| `Deques.WriteLastEntry` | internal/eval/deque.go:252-279 | the entry ends at the end of a new head node |
| `Deques.RemoveLastEntry` | internal/eval/deque.go:326-351 | returns the last entry and leaves the others |
| `Deques.FirstEntry` | internal/eval/deque.go:586-598 | the entry at a cursor and its exact length |
| `Deques.MoveFront` | internal/eval/deque.go:412-429 | the entries before a place move to a new node, the others to the front of theirs |
| `Deques.MoveBack` | internal/eval/deque.go:354-368 | the entries behind a place move to a new node |
| `Deques.Deque.constructor` | internal/eval/deque.go:240-246 | a new deque is the empty list |
| `Deques.Deque.LPush` | internal/eval/deque.go:252-279 | on a clean slot the list with the normalised string in front; panics if and only if the size function disagrees or 256 < leftIdx < entry size |
| `Deques.Deque.RPush` | internal/eval/deque.go:281-306 | on a clean slot the list with the normalised string at the end; panics if and only if the size function disagrees; links, counters and bytes in every case |
| `Deques.Deque.PushFront` | internal/eval/deque.go:252-279 | LPush as an operation on the plain list |
| `Deques.Deque.PushBack` | internal/eval/deque.go:281-306 | RPush as an operation on the plain list |
| `Deques.Deque.LPop` | internal/eval/deque.go:308-324 | first element and the rest, or the empty error, from every state including a drained head |
| `Deques.Deque.RPop` | internal/eval/deque.go:326-351 | last element and the rest, or the empty error |
| `Deques.Deque.PopTail` | internal/eval/deque.go:326-351 | exactly when the tail node stays, and that its popped bytes stay in it |
| `Deques.Deque.NewIterator` | internal/eval/deque.go:573-580 | a cursor in front of the first element |
| `Deques.Deque.Next` | internal/eval/deque.go:586-598 | the element at the cursor, and the cursor behind it, over node boundaries |
| `Deques.Deque.LRange` | internal/eval/deque.go:536-563 | exactly the plain list's range, with the sanitised bounds |
| `Deques.Deque.FindPivot` | internal/eval/deque.go:481-504 | finds the first occurrence of the pivot and its node, or that there is none |
| `Deques.Deque.InsertNodeBefore` | internal/eval/deque.go:447-468 | pivot first in a node that is not the head: insertion at its place |
| `Deques.Deque.BreakAndInsertBefore` | internal/eval/deque.go:412-429 | pivot inside a node: the node splits in front of it, head and left cursor end right |
| `Deques.Deque.InsertBetween` | internal/eval/deque.go:372-389 | pivot last in its node: the temporary tail push puts the element right behind it, if the spare capacity it writes over is clean |
| `Deques.Deque.BreakAndInsertAfter` | internal/eval/deque.go:354-368 | pivot inside a node: the node splits behind it and the element is written over the moved entries' bytes, if those are clean |
| `Deques.Deque.InsertBeforePivot` | internal/eval/deque.go:447-478 | all cases of BEFORE insert at the pivot's place; only in front of the very first element are old bytes written over |
| `Deques.Deque.InsertAfterPivot` | internal/eval/deque.go:354-400 | all cases of AFTER insert behind the pivot, if the bytes behind it are clean |
| `Deques.Deque.LInsert` | internal/eval/deque.go:481-504 | for every string, if the bytes it writes over are clean: with the pivot in the list and a side given the element stands next to the first pivot and the reply is the new length, one more than before; otherwise the reply is -1 and nothing changes; the syntax error and the exact panic condition in every case |
| `Deques.Deque.InsertCleanHere` | internal/eval/deque.go:354-478 | which bytes an insert writes over: those left of the cursor, those behind the pivot, or none |
| `Deques.Deque.TestInsertClean` | internal/eval/deque.go:481-504 | whether those bytes are clean |
| `BasicDeques.DequeBasic.constructor` | internal/eval/deque.go:35-40 | a new flat deque is the empty list |
| `BasicDeques.DequeBasic.LPush` | internal/eval/deque.go:47-63 | the flat deque as the plain list |
| `BasicDeques.DequeBasic.RPush` | internal/eval/deque.go:66-71 | the flat deque as the plain list |
| `BasicDeques.DequeBasic.LPop` | internal/eval/deque.go:95-107 | the flat deque as the plain list |
| `BasicDeques.DequeBasic.RPop` | internal/eval/deque.go:74-92 | the flat deque as the plain list |
| `BasicDeques.DequeBasic.LRange` | internal/eval/deque.go:169-196 | the plain list's range |
| `BasicDeques.DequeBasic.LInsert` | internal/eval/deque.go:148-166 | with the pivot in the list and a side given the element stands next to the first pivot and the reply is the new length, one more than before; otherwise -1 and nothing changes |
| `BasicDeques.DequeBasic.InsertElementAtIndex` | internal/eval/deque.go:110-128 | an entry put between two others in the buffer |
| `BasicDeques.DequeBasic.InsertBeforeAfterPivot` | internal/eval/deque.go:131-145 | the side chosen relative to the pivot |
| `BasicDeques.DequeBasic.Next` | internal/eval/deque.go:216-224 | the flat iterator's next element |
| `PlainList.InsertedNextToPivot` | internal/eval/deque.go:481-504 | an insert puts the element right before or behind the first pivot and nowhere else, and its reply is the new length; -1 and the same list without pivot or side |
| `PlainList.RangeBetween` | internal/eval/deque.go:508-563 | a range is exactly the elements between the two bounds, negative ones counted from the end |
| `PlainList.FirstOfPacked` | internal/eval/deque.go:308-324 | the first entry of packed bytes is the first element |
| `PlainList.LastOfPacked` | internal/eval/deque.go:326-351 | the last entry of packed bytes, read backwards, is the last element |
| `ListRuns.StepMeans` | internal/eval/deque.go:252-598 | what every command does to the plain list and replies, without naming the functions the deques are proved against |
| `ListRuns.Apply` | internal/eval/deque.go:252-598 | every command on the packed deque, with any string: panics if and only if its own exact condition holds, and is otherwise the plain list's step and reply if it leaves no stale byte |
| `ListRuns.TestClean` | internal/eval/deque.go:252-504 | only a string of the three lengths with a spare back-length byte can leave a stale one |
| `ListRuns.TestPanics` | internal/eval/deque.go:252-504 | whether a command is about to panic on this deque: a wrongly sized string, or a left push or insert in front past the capacity |
| `ListRuns.ApplyBasic` | internal/eval/deque.go:47-224 | every command on the flat deque is the plain list's step and reply |
| `ListRuns.RunBoth` | internal/eval/deque.go:47-598 | for every sequence of commands both deques give the plain list's replies and the packed deque holds the plain list, up to a command that panics on that deque or leaves a stale byte in it |
| `CapacityPanic.FourCommands` | internal/eval/deque.go:252-279 | four commands after which the packed deque panics: LPUSH, LPUSH, LPOP, LPUSH |
| `StaleByte.FiveCommands` | internal/eval/deque.go:281-351 | RPUSH of one letter, of 20000 letters, RPOP and RPUSH of 16378 letters leave a stale byte; the fifth command, RPOP, then computes a start before the buffer |
| `DequeDump.RoundTrip` | internal/eval/deque.go:844-1000 | every field and every node of a deque come back from its serialised bytes, whatever follows |
| `DequeDump.FieldsAt` | internal/eval/deque.go:844-908 | length, cursor, buffer size, list size and node count stand at fixed places of the serialised bytes, the nodes behind them |
| `DequeDump.Dump` | internal/eval/deque.go:867-908 | the walk over the nodes writes the bytes of each in order |
| `DequeDump.Restore` | internal/eval/deque.go:910-1000 | a linked list of nodes with exactly those bytes and no spare capacity |
| `DequeDump.DumpRestore` | internal/eval/deque.go:844-1000 | through the serialised bytes and whatever follows: a restored deque is a valid deque with the same elements if and only if the saved one was not an empty list that still has a node; what comes back in that case |
| `DequeDump.PushAfterRestore` | internal/eval/deque.go:281-324 | after restoring such a list, RPUSH opens a second node and LPOP decodes an empty slice |
| `DequeDump.EmptiedFromTheRight` | internal/eval/deque.go:252-351 | LPUSH and RPOP of one element leave such a list |
| `Emission.Write` | internal/emission/outbox.go:32-41 | the entry under its subscription and index, all others unchanged, no empty inner map |
| `Emission.Purge` | internal/emission/outbox.go:44-64 | exactly the subscription's entries up to the index are gone, no empty inner map |
| `Emission.MoveEntries` | internal/emission/outbox.go:340-361 | every entry of the old name under the new one with its name changed, nothing else moved |
| `OutboxManager.SortInts` | internal/emission/outbox.go:67-84 | the same indices in increasing order |
| `OutboxManager.Manager.constructor` | internal/emission/outbox.go:101-103 | an empty outbox in the given epoch |
| `OutboxManager.Manager.ApplyOutboxWrite` | internal/emission/outbox.go:112-132 | the write step on the whole state |
| `OutboxManager.Manager.PurgeEntries` | internal/emission/outbox.go:44-64 | the purge loop removes exactly what it covers and counts it |
| `OutboxManager.Manager.ApplyOutboxPurge` | internal/emission/outbox.go:135-156 | the purge step, watermark included |
| `OutboxManager.Manager.ValidateAck` | internal/emission/outbox.go:159-168 | an ack is accepted if and only if it is newer than the last one, which it then replaces |
| `OutboxManager.Manager.PendingSorted` | internal/emission/outbox.go:67-84 | the one listing of the pending entries in commit order |
| `OutboxManager.Manager.ReconnectRequest` | internal/emission/outbox.go:395-418 | the answer says where the client stands: OK gives the next index to a client that has everything purged and nothing unacked by it, STALE the purge it missed, INVALID the last ack it claims to be beyond, and which epoch decides |
| `OutboxManager.Manager.MoveAll` | internal/emission/outbox.go:340-361 | the rebind loop over the entries |
| `OutboxManager.Manager.FindOldSub` | internal/emission/outbox.go:191-339 | which known subscription a fingerprint or an old client name selects, and that none is overlooked |
| `OutboxManager.Manager.RebindByFingerprint` | internal/emission/outbox.go:191-385 | the rebind step on entries, ack and compaction watermarks, with the number moved |
| `OutboxHistory.OutboxIsHistory` | internal/emission/outbox.go:32-64 | after every run the outbox holds exactly the entries written and not covered by a purge, each under its current name |
| `OutboxHistory.NoLostUpdates` | internal/emission/outbox.go:32-64 | a written entry is pending unchanged under its subscription's current name if and only if no purge covered it |
| `OutboxHistory.RebindCount` | internal/emission/outbox.go:340-361 | a rebind loses exactly the entries whose index both names hold |
| `OutboxHistory.RebindConserves` | internal/emission/outbox.go:340-361 | with commit indices used once, a rebind conserves the number of entries in every reachable state |
| `OutboxHistory.AckWatermark` | internal/emission/outbox.go:363-381 | the watermark follows the subscription through rebinds and never falls behind an accepted ack |
| `OutboxHistory.AcksIncrease` | internal/emission/outbox.go:159-168 | accepted acks of a subscription strictly increase in every run, also across rebinds |
| `DoubleApplication.LastEffectDecides` | internal/emission/outbox.go:32-156 | what a command list leaves at a place is decided by its last command that touches it |
| `DoubleApplication.MergeConverges` | internal/emission/applier.go:88-124 | merging two copies of any command list in any way ends like one copy |
| `DoubleApplication.ParsesBack` | internal/emission/applier.go:133-133 | a decimal number in range is read back, a larger one as the largest 64-bit number |
| `DoubleApplication.ParsesNothing` | internal/emission/applier.go:133-133 | text with anything but digits is read as zero |
| `DoubleApplication.WriteLeaves` | internal/emission/applier.go:88-96 | either pass over one OUTBOX_WRITE leaves exactly the entry with its name, bucket, epoch counter, index and delta at its slot and everything else as it was |
| `DoubleApplication.PurgeLeaves` | internal/emission/applier.go:116-123 | either pass over one OUTBOX_PURGE removes exactly the entries of the subscription up to its index and sets the watermark to its position |
| `DoubleApplication.DeltaLessLeaves` | internal/emission/raft_integration.go:30-63 | a write without a delta is stored empty by the handler and ignored by the applier |
| `DoubleApplication.DoubleApplicationConverges` | internal/emission/applier.go:88-124 | handler pass and applier pass over one committed list, interleaved in any way, end with the outbox and watermarks of one pass; what one pass leaves is WriteLeaves and PurgeLeaves |
| `DoubleApplication.ConvergesExactly` | internal/emission/raft_integration.go:30-63 | two passes converge in every interleaving if and only if they leave the same at every place |
| `DoubleApplication.LogConvergesExactly` | internal/emission/raft_integration.go:30-63 | told from the log: the passes converge if and only if every write without a delta that nothing follows at its slot finds there nothing, or the same entry, among the commands that carry their delta |
| `DoubleApplication.MissingDeltaDiverges` | internal/emission/raft_integration.go:36-50 | a write without a delta argument breaks convergence |
| `LaggingPass.LagsExactly` | internal/emission/outbox.go:135-156 | at every point of two passes over increasing purges the watermark is below the one the pass ahead set if and only if the last purge executed belongs to the pass behind |
| `LaggingPass.StaleAnsweredExactly` | internal/emission/outbox.go:388-418 | some stale reconnect is answered OK if and only if that is so and the watermark is not beyond the last ack |
| `LaggingPass.LagShown` | internal/emission/applier.go:88-124 | an interleaving in which it is so, for any two increasing purges |
| `Delivery.ListingUnique` | internal/emission/outbox.go:67-84 | there is one listing of a pending map in commit order |
| `Delivery.ScanSends` | internal/emission/notifier.go:218-327 | a scan sends exactly the due entries in order up to the first failed send, and leaves these watermarks |
| `Delivery.ReconnectAnswer` | internal/emission/outbox.go:395-418 | OK with the next index if and only if the client is neither beyond the last ack nor below the compaction watermark; the other answers likewise |
| `SendOrder.TickSends` | internal/emission/notifier.go:218-327 | one scan sends increasing indices, only due entries, and moves the watermark to the last |
| `SendOrder.SentOnceInOrder` | internal/emission/notifier.go:154-327 | over every run between resets nothing is sent twice, out of order, at or below the sent watermark or below the resume index |
| `SendOrder.AckedNotSent` | internal/emission/notifier.go:184-215 | an accepted ack keeps everything it covers from being sent until the next reset, also when the sent watermark had been reset before it |
| `SendOrder.AckKept` | internal/emission/notifier.go:184-215 | a refused ack changes nothing; an accepted one is remembered, proposed if it can be, and never moves the sent watermark back |
| `Retention.RetainedAlways` | internal/emission/outbox.go:135-156 | in every run, resumes and clears included, nothing above the compaction watermark is lost and nothing else is pending |
| `Retention.BeforeRetained` | internal/emission/outbox.go:112-156 | so every run of a new subscription leads to such a state |
| `GapFreeResume.ResumedAlways` | internal/emission/notifier.go:154-327 | after a resume, what was sent in any run is a prefix of what was written from the resume point on |
| `GapFreeResume.CaughtUp` | internal/emission/notifier.go:218-327 | a scan whose sends all succeed completes that prefix |
| `GapFreeResume.AnswerHolds` | internal/emission/outbox.go:395-418 | after an OK answer everything written from its index on is still pending |
| `GapFreeResume.GapFree` | internal/emission/outbox.go:395-418 | when the manager answers a reconnect OK with n and the client resumes at n, every later run sends a gap-free prefix of what was written from n on, whatever run led to the reconnect |
| `ExactResume.GapFreeExactly` | internal/emission/outbox.go:395-418 | a resume is gap-free in every continuation if and only if no purge in flight covers an entry at or above it that is written or can still be written |
| `ExactResume.GapOverWritten` | internal/emission/outbox.go:395-418 | a continuation with a gap, for every purge in flight over an entry still to be sent |
| `ExactResume.GapOverNext` | internal/emission/outbox.go:395-418 | and one for every purge in flight beyond everything written |
| `ExactResume.ReconnectExactly` | internal/emission/outbox.go:395-418 | the same exact condition after an OK reconnect |
| `RebindResume.ReboundHolds` | internal/emission/outbox.go:340-381 | a rebind brings everything from the resume point on under the new name |
| `RebindResume.LateWriteGap` | internal/server/ironhawk/iothread.go:220-264 | a write still in flight under the old name is never sent under the new one: a continuation with a gap |
| `RebindResume.RebindExactly` | internal/server/ironhawk/iothread.go:220-264 | a resume under a new name is gap-free in every continuation of both names if and only if no purge in flight under the new name and no write in flight under the old one reach the resume point |
| `RebindResume.ReconnectRebindExactly` | internal/server/ironhawk/iothread.go:220-264 | the same for an OK reconnect under the old name followed by the rebind and the resume |
| `Notifiers.SplitName` | internal/cmd/cmd_emitreconnect.go:56-66 | a name splits at its first colon into the client and the text behind it, whatever that is |
| `Notifiers.NameParts` | internal/cmd/cmd_emitreconnect.go:56-66 | client and fingerprint are read back from the name made of them |
| `Notifiers.NoFingerprint` | internal/cmd/cmd_emitreconnect.go:56-66 | a name without a colon, or with anything but a 64-bit number behind it, has no fingerprint |
| `Notifiers.FingerprintSelects` | internal/emission/outbox.go:259-302 | the suffix test for a fingerprint selects exactly the names that carry it behind a client |
| `Notifiers.ClientSelects` | internal/emission/outbox.go:219-246 | the prefix test for a client selects exactly its own names |
| `Notifiers.Notifier.constructor` | internal/emission/notifier.go:60-67 | nothing sent, nothing to resume |
| `Notifiers.Notifier.CommitWrite` | internal/emission/outbox.go:112-132 | a committed write, seen from every subscription |
| `Notifiers.Notifier.CommitPurge` | internal/emission/outbox.go:135-156 | a committed purge, seen from every subscription |
| `Notifiers.Notifier.HandleAck` | internal/emission/notifier.go:184-215 | an accepted ack proposes a purge if it can, a refused one changes nothing |
| `Notifiers.Notifier.SetResumeFrom` | internal/emission/notifier.go:154-167 | the resume step of one subscription |
| `Notifiers.Notifier.RebindClient` | internal/cmd/cmd_emitreconnect.go:56-75 | the rebind by fingerprint or by old client, seen from every subscription |
| `Notifiers.Notifier.ReconnectClient` | internal/cmd/cmd_emitreconnect.go:44-75 | answer, rebind and the resume that iothread.go adds on OK, for every subscription name given: the state of every subscription after a reconnect; ReconnectKnown says it without reading the name |
| `Notifiers.Notifier.ReconnectKnown` | internal/cmd/cmd_emitreconnect.go:44-75 | a known client:fingerprint moves with all entries and watermarks to newClient:fingerprint, an OK answer resumes it there and stops the old name, another leaves the resume state, and no other subscription changes |
| `Notifiers.Notifier.ClearWatermarksForClient` | internal/emission/notifier.go:172-181 | the sent watermarks of exactly the client's subscriptions are reset |
| `Notifiers.Notifier.ScanEntries` | internal/emission/notifier.go:218-327 | the send loop computes the scan |
| `Notifiers.Notifier.TickSub` | internal/emission/notifier.go:218-327 | one subscription's scan touches no other |
| `Notifiers.Notifier.ProcessTick` | internal/emission/notifier.go:218-327 | a tick is one scan of every subscription, whatever the order they are visited in |
| `Segments.FrameFields` | internal/raftwal/writer.go:215-221 | checksum, length and payload are read back from a frame whatever follows |
| `Segments.ScanFrames` | internal/raftwal/writer.go:606-644 | whole frames are read back as the envelopes written, whatever bytes follow |
| `Segments.WholeFramesLongest` | internal/raftwal/writer.go:606-644 | the number of whole frames in the first k bytes is the largest that fits |
| `Segments.ScanCut` | internal/raftwal/writer.go:606-644 | cut at any byte, a segment reads as its longest prefix of whole frames; an error if and only if a whole header of the torn frame is left |
| `Segments.AppendAfterTornPayload` | internal/raftwal/writer.go:606-644 | behind a frame cut anywhere in its payload nothing more is read unless the payload completed with the next bytes has the stored checksum and decodes |
| `Segments.AppendAfterTornHeader` | internal/raftwal/writer.go:606-644 | bytes behind any part of a header complete it, and what is read of them follows from the length and checksum they make |
| `Segments.FrameAfterHalfHeader` | internal/raftwal/writer.go:606-644 | behind four bytes of a header the next checksum is taken for a length |
| `Segments.ReadFrame` | internal/raftwal/writer.go:606-644 | one turn of the readers' loop |
| `Segments.ReplaySegment` | internal/raftwal/writer.go:606-644 | the callback gets exactly the scanned envelopes, or all up to the first it refuses |
| `Segments.MaxIndexInSegment` | internal/raftwal/writer.go:410-447 | the highest index in the segment, or the error |
| `Segments.MaxIndexBounds` | internal/raftwal/writer.go:410-447 | that index bounds all and is one of them |
| `Segments.CollectSegmentTuplesAll` | internal/raftwal/writer.go:709-755 | index and checksum of exactly the normal entries, in order |
| `Segments.LastHardStateInSegment` | internal/raftwal/writer.go:815-851 | the last hard state so far, carried through the segment |
| `SegmentNames.KnownNames` | internal/raftwal/writer.go:549-552 | the file names of segments 0 and 10 byte by byte |
| `SegmentNames.SameDigits` | internal/raftwal/writer.go:592-604 | segment numbers with equally many digits sort as numbers |
| `SegmentNames.SpanInOrder` | internal/raftwal/writer.go:592-604 | consecutive segments sort as numbers if and only if first and last have equally many digits |
| `SegmentNames.CarryOutOfOrder` | internal/raftwal/writer.go:592-604 | where a digit is added, the later segment sorts first |
| `SegmentNames.ListingAscending` | internal/raftwal/writer.go:592-604 | the sorted listing is numeric if and only if name order is |
| `SegmentNames.ListingUnique` | internal/raftwal/writer.go:592-604 | a directory has one listing sorted by file name |
| `SegmentNames.ListSegments` | internal/raftwal/writer.go:592-604 | that listing |
| `WalLog.HeldIsDecoded` | internal/raftwal/writer.go:592-604 | the envelopes of all segments are the decoded records in append order |
| `WalLog.ReadsHeld` | internal/raftwal/writer.go:592-644 | reading whole segments in numeric order returns every envelope in append order |
| `WalLog.ReadsCut` | internal/raftwal/writer.go:592-644 | with the last segment cut anywhere, replay of the directory sees exactly the longest prefix of whole frames, with the exact error condition |
| `WalLog.Replay` | internal/raftwal/writer.go:592-604 | the callback gets the segments one after the other up to the first error, or up to the first envelope it refuses |
| `WalLog.TailLogicalTuples` | internal/raftwal/writer.go:675-707 | the last limit normal entries of the directory, or the error |
| `WalLog.ReplayLastHardState` | internal/raftwal/writer.go:807-858 | the payload of the last hard state in the directory, or the error |
| `ReplayOrder.ReplaysExactly` | internal/raftwal/writer.go:592-604 | with no envelope twice, replay returns a whole log in append order if and only if the segments that hold any envelope sort by name as by number |
| `ReplayOrder.ReadsInOrder` | internal/raftwal/writer.go:592-604 | empty segments do not disturb the order |
| `ReplayOrder.ReadsOutOfOrder` | internal/raftwal/writer.go:592-604 | two segments listed the wrong way round are read the wrong way round |
| `WalWriters.Writer.constructor` | internal/raftwal/writer.go:122-195 | continues the highest segment of any directory behind whatever bytes it holds, or starts segment 0 |
| `WalWriters.Writer.AppendEnvelope` | internal/raftwal/writer.go:202-263 | the record is appended to the log, in which segment it lands, and exactly which rotations happen; durable in strict mode |
| `WalWriters.Writer.AppendHardState` | internal/raftwal/writer.go:270-324 | the same for hard states, which leave the index sequence alone |
| `WalWriters.Writer.PutFrame` | internal/raftwal/writer.go:215-232 | frame bytes, index entry and last index together |
| `WalWriters.Writer.SyncOrIndex` | internal/raftwal/writer.go:233-247 | strict mode leaves nothing in the buffer; the log does not change |
| `WalWriters.Writer.RotateWhenDue` | internal/raftwal/writer.go:248-261 | rotates exactly when the size is reached and at the end of a forced period; the log does not change |
| `WalWriters.Writer.Flush` | internal/raftwal/writer.go:327-347 | the buffered bytes reach the file |
| `WalWriters.Writer.WriteSidecar` | internal/raftwal/writer.go:493-547 | the index file of the active segment holds its entries |
| `WalWriters.Writer.Rotate` | internal/raftwal/writer.go:554-580 | a new empty segment; the log does not change |
| `WalWriters.Writer.Close` | internal/raftwal/writer.go:349-360 | nothing stays in the buffer |
| `WalWriters.Writer.PruneThrough` | internal/raftwal/writer.go:366-407 | with no append between capture and scan: removes exactly the closed readable segments whose highest index is below the floor, never the active one, or stops at an unreadable one |
| `WalWriters.Writer.PruneScan` | internal/raftwal/writer.go:370-407 | the part without the lock, after any appends and rotations: the active segment is lost if and only if it is not the captured one and its flushed bytes are readable with a highest index below the floor |
| `WalWriters.Writer.PruneListed` | internal/raftwal/writer.go:381-470 | the loop over the listing, stopped by the first unreadable segment |
| `WalWriters.EntryDelimitsFrame` | internal/raftwal/writer.go:493-547 | in a segment below 4 GiB each index entry delimits exactly its record's frame, behind whatever bytes the session found |
| `WalWriters.SoundAppend` | internal/raftwal/writer.go:202-232 | in every session the index entries tile the segment and its normal indices are consecutive: kept by an append |
| `WalWriters.SoundRotate` | internal/raftwal/writer.go:554-580 | the same, kept by a rotation |
| `WalSessions.ReadsLog` | internal/raftwal/writer.go:592-604 | a flushed directory that held whole frames before the session replays as what it held and what was appended |
| `WalSessions.JoinedLanded` | internal/raftwal/writer.go:202-324 | an append is the last record of that log wherever it lands |
| `WalSessions.BehindTear` | internal/raftwal/writer.go:153-195 | a session behind a torn tail: the whole frames in front are read, then what the torn bytes and the session make together |
| `WalSessions.BehindBoundary` | internal/raftwal/writer.go:153-195 | behind a tail cut at a frame boundary the whole session is read |
| `WalSessions.BehindTornPayload` | internal/raftwal/writer.go:153-195 | behind a tail cut inside a payload nothing of the session is read, if and only if it is too short, or the checksum differs, or the mixture does not decode |
| `WalSessions.BehindTornHeader` | internal/raftwal/writer.go:153-195 | behind a tail cut inside a header the exact reading of the session |
| `WalRuns.RunAndReplay` | internal/raftwal/writer.go:202-324 | any run of appends on a new directory is read back completely; in append order with at most ten segments, and in general, with no envelope twice, if and only if the segments that hold any sort by name as by number |
| `WalRuns.AppendOne` | internal/raftwal/writer.go:202-324 | either append on any directory: the log, the segment, the rotations and the segments left alone |
| `WalFaults.OneRecordEach` | internal/raftwal/writer.go:202-263 | with a rotation after every append, replay is in order if and only if there are at most ten records |
| `WalFaults.ElevenSegments` | internal/raftwal/writer.go:592-604 | eleven records that come back in another order |
| `WalFaults.RotationDuringPrune` | internal/raftwal/writer.go:366-407 | an append between capture and scan after which the active segment is gone |
| `WalPruning.PruneThins` | internal/raftwal/writer.go:366-407 | pruning only drops envelopes below the floor |
| `WalPruning.PruneKeeps` | internal/raftwal/writer.go:366-407 | pruning keeps every envelope at or above the floor in order, and a last hard state at or above it as the last |
| `WalPruning.ThinnedKeeps` | internal/raftwal/writer.go:366-407 | dropping lower envelopes keeps the others in order |
| `WalPruning.ThinnedHardState` | internal/raftwal/writer.go:807-858 | the last hard state survives when its commit reaches the floor |
| `HardSurvival.HardStateSurvives` | internal/raftwal/writer.go:366-407 | the last hard state stays in its place if and only if its segment is not removed, which never happens while its index reaches the floor; otherwise an earlier segment has the last one |
| `HardSurvival.PrunableParts` | internal/raftwal/writer.go:381-407 | in a whole log a closed segment is prunable if and only if all its records are below the floor |
| `WalValidators.RingAdd` | internal/raft/types.go:467-479 | adding to the ring keeps exactly the newest, over any wrap |
| `WalValidators.Validator.constructor` | internal/raft/types.go:460-465 | an empty ring |
| `WalValidators.Validator.AddTuple` | internal/raft/types.go:467-479 | the ring holds the last N of what it held and the new tuple |
| `WalValidators.Validator.Snapshot` | internal/raft/types.go:481-496 | the contents oldest first |
| `WalValidators.Validator.SeedTuples` | internal/raft/types.go:498-515 | the last N of the seed |
| `ShadowNodes.RecoveredHardState` | internal/raft/types.go:1043-1059 | the last hard state of a readable WAL, if it decodes and is not trivial |
| `ShadowNodes.AdoptedReaches` | internal/raft/types.go:1043-1059 | its commit is the index of the last hard state logged |
| `ShadowNodes.SeededRing` | internal/raft/types.go:1133-1138 | the ring starts as the last N normal records of the directory |
| `ShadowNodes.EntriesHeld` | internal/raft/types.go:1288-1436 | the envelopes of committed entries hold index, term, data and checksum of those that carry data, in order |
| `ShadowNodes.LoggedHolds` | internal/raft/types.go:1250-1436 | so does what a Ready logs, behind its hard state when term, vote or commit changed |
| `ShadowNodes.ReadyRecovered` | internal/raft/types.go:1043-1105 | recovery from a log that grew by a Ready rebuilds exactly its committed entries with data, after those before, and finds the hard state reported last |
| `ShadowNodes.ReadyAdopted` | internal/raft/types.go:1043-1059 | a node restarted on it adopts that hard state |
| `ShadowNodes.Node.constructor` | internal/raft/types.go:982-1138 | on any directory: log, ring and hard state from what can be read, applied and snapshot index from raft's files; when every segment held whole frames the node's log is what the directory replays |
| `ShadowNodes.Node.LogHard` | internal/raft/types.go:1250-1274 | a hard state that differs from the last in term, vote or commit is logged with commit as index, its term, and its marshalled bytes with their checksum |
| `ShadowNodes.Node.LogNormal` | internal/raft/types.go:1308-1320 | the log grows by one envelope with the index, the term, the data and its checksum, and the ring by the same record |
| `ShadowNodes.Node.LogEntry` | internal/raft/types.go:1288-1436 | what each kind of committed entry adds |
| `ShadowNodes.Node.LogEntries` | internal/raft/types.go:1288-1436 | the committed entries in order |
| `ShadowNodes.Node.AdvancePruneFloor` | internal/raft/types.go:1451-1501 | exactly when a snapshot is due, the exact new floor and target, never past the slowest follower's matched index, and when the snapshot counters are reset |
| `ShadowNodes.Node.ProcessReady` | internal/raft/types.go:1228-1509 | any Ready appends its hard state if any of term, vote and commit changed, and behind it, in order, one envelope for every committed entry with data, holding its index, term, data and checksum; floor and target exactly, never past the slowest follower; while raft commits nothing beyond the hard state last logged, floor and applied index stay within its commit |
| `ShadowNodes.Node.PrunePass` | internal/raft/types.go:1513-1544 | one pass with entries logged since it began: when the active segment is lost, what else is kept, and that the last hard state stays in place if and only if its segment was not one to prune |
| `ShadowNodes.Node.PruneWal` | internal/raft/types.go:1513-1544 | with nothing logged meanwhile: every envelope from the floor on and the active segment stay, and the last hard state stays while its index reaches the floor |
| `ShadowNodes.Node.ValidateShadowTail` | internal/raft/types.go:254-304 | succeeds if and only if the ring is the tail of the log; always without pruning |
| `NodeFaults.LostAfterCrash` | internal/raft/types.go:1228-1544 | a restart after a crash between raft's files and the WAL append: any entry past the commit the WAL knows lets the prune remove the only hard state |
| `Wildcard.WildCardMatch` | internal/regex/regex.go:7-37 | the two-pointer loop ends and decides exactly the relation Accepts, for every pattern and key |
| `Wildcard.Reaches` | internal/regex/regex.go:23-26 | trying only the most recent star again loses nothing |
| `Wildcard.NewStar` | internal/regex/regex.go:19-22 | entering a star makes the earlier ones irrelevant |
| `Wildcard.AcceptsSound` | internal/regex/regex.go:7-37 | the matcher never accepts a key its pattern does not match |
| `Wildcard.AcceptsComplete` | internal/regex/regex.go:7-37 | on keys without a star it accepts every match |
| `Wildcard.RightExactly` | internal/regex/regex.go:16-16 | it is right for every pattern if and only if the key has no star |
| `Wildcard.RefusedShown` | internal/regex/regex.go:16-16 | for every key with a star, a matching pattern that is refused |
| `CountMin.EventCounts` | internal/eval/countminsketch.go:138-172 | an event adds its weight to the total and to the true count of its own key only |
| `CountMin.EventCell` | internal/eval/countminsketch.go:138-158 | and in each row to the cell its two hashes select only |
| `CountMin.CellBounds` | internal/eval/countminsketch.go:163-172 | in every row the key's cell is at least its true count and at most the total |
| `CountMin.RowSumTotal` | internal/eval/countminsketch.go:153-158 | every row sums to the total weight |
| `CountMin.AppendScaled` | internal/eval/countminsketch.go:205-238 | cells, true counts and totals are linear in the stream |
| `CountMin.MergeCounts` | internal/eval/countminsketch.go:205-238 | a merge counts each key as the weighted sum of its counts |
| `CountMin.Sketch.constructor` | internal/eval/countminsketch.go:96-108 | a zero matrix |
| `CountMin.Sketch.MatrixPositions` | internal/eval/countminsketch.go:138-150 | one column per row |
| `CountMin.Sketch.UpdateMatrix` | internal/eval/countminsketch.go:153-158 | the matrix of the stream with one more event, in wrapped arithmetic |
| `CountMin.Sketch.EstimateCount` | internal/eval/countminsketch.go:163-172 | the smallest cell, between the true count and the total while nothing overflowed |
| `CountMin.Sketch.DeepCopy` | internal/eval/countminsketch.go:175-199 | a separate sketch of the same stream |
| `CountMin.Sketch.MergeCell` | internal/eval/countminsketch.go:214-226 | the weighted sum of the sources' cells |
| `CountMin.Sketch.MergeMatrices` | internal/eval/countminsketch.go:205-238 | the sketch of the scaled streams of all sources, itself included |
| `CountMin.Sketch.RowsSumToCount` | internal/eval/countminsketch.go:205-238 | while nothing overflowed each matrix row sums to count |
| `Bloom.IsBitSet` | internal/eval/bloom_utils.go:17-27 | the bit of the set, unset beyond its end |
| `Bloom.SetBit` | internal/eval/bloom_utils.go:7-14 | sets that bit and no other |
| `Bloom.Filter.constructor` | internal/eval/type_bloomfilter.go:101-136 | no bit set, eight bits per byte |
| `Bloom.Filter.Add` | internal/eval/type_bloomfilter.go:171-201 | exactly the bits at hash modulo size, one per seed, are added; the reply says whether all were set before |
| `Bloom.Filter.Exists` | internal/eval/type_bloomfilter.go:208-233 | yes if and only if the bit at hash modulo size is set for every seed, so an added value is never denied |
| `Bloom.RoundTrip` | internal/eval/type_bloomfilter.go:331-425 | every field is restored whatever follows in the input, also of a filter restored before; the bit set starts with the old one and takes as many bytes as it has bits |
| `Bloom.SameAnswers` | internal/eval/type_bloomfilter.go:403-407 | a longer bit set with the same start answers alike |
| `Bloom.RestoredSaysTheSame` | internal/eval/type_bloomfilter.go:331-425 | a restored filter gives the saved one's answer for every value, also after several restores |
| `Bloom.RestoredCopyAnswers` | internal/eval/type_bloomfilter.go:236-425 | a copy has lost its seeds: saved and restored, it answers every value from the indexes that were saved |
| `Bloom.RestoredCopyRepeats` | internal/eval/type_bloomfilter.go:236-267 | so for every value it gives the answer of the value the original hashed last |
| `Bloom.RestoredCopyAgreesExactly` | internal/eval/type_bloomfilter.go:236-425 | it agrees with the original on every value if and only if the original answers every value as the one it hashed last |
| `Bloom.UnaskedCopyAgrees` | internal/eval/type_bloomfilter.go:236-425 | the copy of a filter that was never asked agrees with it |
| `Bloom.AddedButDenied` | internal/eval/type_bloomfilter.go:171-425 | one value added and another asked for: the restored copy denies the added one |
| `Bloom.AnswersSay` | internal/eval/type_bloomfilter.go:208-288 | with as many hash functions as indexes an answer depends on the value alone |
| `Stores.TargetCount` | internal/store/batchevictionlru.go:59-77 | a tenth of the limit, rounded up |
| `Stores.MakesRoom` | internal/store/batchevictionlru.go:59-77 | an eviction makes room for one more key |
| `Stores.EvictsExactly` | internal/store/batchevictionlru.go:59-77 | below the limit nothing is evicted, at a limit above one exactly so many that the target count is left, at limit one exactly one |
| `Stores.Offer` | internal/store/batchevictionlru.go:88-104 | the bounded heap keeps the least recently used keys seen |
| `Stores.Store.Victims` | internal/store/batchevictionlru.go:80-104 | the least recently used keys of the store |
| `Stores.Store.EvictVictims` | internal/store/batchevictionlru.go:80-111 | removes exactly min(k, size) keys, none used more recently than a survivor |
| `Stores.Store.DeleteKey` | internal/store/store.go:292-310 | the key, its deadline and its count |
| `Stores.Store.Get` | internal/store/store.go:162-176 | never an expired value; a key found expired is deleted |
| `Stores.Store.NewDeadlineMeans` | internal/store/store.go:133-142 | the deadline a put leaves: with KEEPTTL that of the key before, if it had one, and otherwise that of the new object |
| `Stores.Store.Put` | internal/store/store.go:125-159 | the map with the key's new value and deadline, the old deadline with KEEPTTL, less the evicted keys: none for an old key or below the limit, at the limit all but the target count, at limit one exactly one; the count stays within the limit |
| `Stores.Store.Replace` | internal/store/store.go:133-142 | overwriting a key |
| `Stores.Store.Insert` | internal/store/store.go:142-154 | a new key: nothing evicted below the limit, at the limit all but the target count of the keys, at limit one exactly one |
| `Stores.Store.NewObj` | internal/store/store.go:85-95 | a new object changes nothing that is stored |
| `Stores.Store.SetUnixTimeExpiry` | internal/store/store.go:282-290 | the deadline of the key that holds the object |
| `Stores.Store.Del` | internal/store/store.go:197-203 | the map without the key |
| `Stores.Store.DeleteExpiredKeys` | internal/store/expire.go:39-51 | exactly the expired keys go |
| `CyclicId.Generator.constructor` | internal/id/id.go:19-21 | no call yet |
| `CyclicId.Generator.NextID` | internal/id/id.go:31-41 | call number n issues the id of n |
| `CyclicId.Generator.ExpandID` | internal/id/id.go:23-27 | the id under the cycle last recorded for its turn |
| `CyclicId.Generator.ExpandExactly` | internal/id/id.go:23-41 | for every number of calls: an issued id expands to its call number if and only if the call came before the cycle counter wrapped and, whole wraps aside, fewer than 16 cycles have passed |

## Left out

- CountMin.Sketch.EstimateCount: does not bound estimates after a 64-bit overflow of the total, because the wrapped cells then say nothing about counts.
- DequeDump.RoundTrip: does not cover node sizes, node counts or cursors of 2^31 and more, because they are written as signed 32-bit numbers and come back as others.
- DequeDump.DumpRestore: does not say what becomes of lists beyond those sizes, for the same reason.
- Serialisation of the count-min sketch, and `DeepCopy` of lists.
- File handles, fsync, renames, the bytes of the index files, and I/O errors in the WAL; what is written to a segment file after it was removed.
- ShadowNodes.Node.PruneWal: does not model entries logged between its passes, because `ShadowNodes.Node.PrunePass` states one pass with any of them.
- Goroutines and locks otherwise: each step runs alone; the two halves of a prune and the two applier passes are separate steps that others may come between.
- Elections, transport, snapshots of the raft library and proposal waiters in the raft node; the unified WAL adapter.
- Several epochs in one outbox history, and the argument checks and routing around EMITRECONNECT.
- Store operations whose proofs would repeat those here (`GetAll`, `GetDel`, `Keys`), `Rename`, and the expiry sub-commands.
- The false-positive rates of the sketches, and the floating-point formulas that choose their sizes.
- Command parsing, metrics, logging, and the rest of the server.
