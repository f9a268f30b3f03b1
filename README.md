# Byte stream and reassembler, modelled in Dafny

This project models the receive side of a TCP-like byte stream. It has two
components.

- **ByteStream** is a bounded FIFO of bytes. It has a fixed capacity, sticky
  `closed` and `error` flags, and lifetime counts of bytes pushed and popped.
  - The writer side pushes, with truncation to the available capacity, and
    closes.
  - The reader side peeks at one byte and pops a clamped number of bytes.
- **Reassembler** takes indexed substrings that may arrive out of order and
  overlap. It writes them in order into the ByteStream that is moved into
  it on construction. Each `insert` does the following, in order:
  1. records the final index of a last substring;
  2. trims the bytes already assembled;
  3. drops a substring that starts at or past the window's end, or trims the
     bytes past that end;
  4. resolves overlaps with the stored segments: it trims what the stored
     predecessor covers, drops the stored segments the new bytes cover, and
     cuts the new bytes where a longer stored segment begins;
  5. stores the result;
  6. runs the flush loop `check_push`.

## How the model is organised

- `byte_stream.dfy`, module `ByteStreams`:
  - `Stream` is the stream's state as a value. Its member functions say what
    each operation does to it.
  - `ByteStream` is the object. Its methods change its fields in place and
    are proved to leave `Value()` equal to the corresponding `Stream`
    function of the old value.
  - Writer and Reader are one class: in the source they are two views of
    one object.
  - The object's queries (`IsClosed`, `HasError`, `BytesPushed`,
    `BytesPopped`, `AvailableCapacity`, `Peek`, `IsFinished`,
    `BytesBuffered`) read a field or call the `Stream` function of the same
    name.
- `segment_set.dfy`, module `SegmentSets`:
  - the ordered set of stored segments, keyed only by start index, kept as a
    sequence sorted by start;
  - `LowerBound`, `Erase` and `InsertSeg` are the three set operations the
    reassembler uses. Inserting a segment whose start is already stored
    leaves the set as it is.
- `reassembler_spec.dfy`, module `ReassemblerSpec`: the reassembler's state as
  a value, and one function per step of `insert` and of the flush loop.
- `reassembler_proofs.dfy`, module `ReassemblerProofs`: the invariant the steps
  keep. It says:
  - the stored segments are ordered, disjoint, lie inside the window and sum
    to `bytes_waiting_`;
  - after a flush, no stored segment starts at the next expected byte.
  It also proves when the stream is closed.
- `reassembler_coverage.dfy`, module `ReassemblerCoverage`: the bytes the
  reassembler knows. A byte is known when it has passed the next expected
  index or is held by a stored segment. No path of `insert` forgets a known
  byte, and every path learns every byte of the substring that lies before
  the window's end.
- `reassembler_delivery.dfy`, module `ReassemblerDelivery`: the delivery
  theorem. Suppose every substring handed to `insert` is the piece at its
  index of one byte sequence `s`. Then:
  - the stream's buffer always holds exactly the bytes of `s` between the
    popped and pushed counts;
  - every byte before the next expected index has been pushed, unless the
    error flag was raised;
  - every stored segment holds the bytes of `s` at its indices.
- `reassembler_insert.dfy`, module `ReassemblerInsert`: `Insert`, one whole
  call, built from those steps. It carries the per-call guarantees and the
  lemmas for each path.
- `reassembler_runs.dfy`, module `ReassemblerRuns`: a run of `insert` calls
  in arrival order. When the substrings are pieces of one byte sequence `s`
  that together cover it, and the stream has room for all of `s`, the stream
  ends up holding exactly `s`, unless its error flag was raised.
- `reassembler.dfy`, module `Reassembly`: the `Reassembler` class.
  - It has the source's fields: the stream moved into it, the segments, the byte
    count, the next expected index and the final index.
  - `Insert` runs the source's trimming code.
  - `DropCoveredLoop` is the overlap loop, which re-seeks with `LowerBound`
    after every erase.
  - `CheckPush` is the flush loop.
  - Each method is proved to produce exactly the state the functions above
    describe, so every property proved about them holds of the object.

The model keeps the source's edge cases:
- an empty segment is stored too;
- flushing an empty segment into a closed stream raises the stream's error
  flag;
- a last substring records its untrimmed end as the final index, even when
  its bytes are trimmed or dropped;
- the window-discard path returns without flushing;
- the window's end is measured once, on entry;
- the stream is closed only inside the flush loop, right after a push. So a
  last substring that lies wholly before the next expected index (it starts
  before that index and ends at or before it) does not close the stream,
  even when every byte has been written (`RedundantLastSubstringLeavesOpen`);
- a last substring with no bytes at the next expected index closes the
  stream when the window has room (`EmptyLastSubstringCloses`);
- sending that empty last substring again after the close raises the
  stream's error flag, because it is stored and pushed into the closed
  stream; a repeated substring is not always silently dropped
  (`LastSubstringAfterCloseRaisesError`);
- while the buffer is full, a last substring at or after the next expected
  index is discarded: the final index is recorded, but the stream stays open
  (`FullBufferDropsLastSubstring`). It stays open until a later insert
  flushes once the next expected index has reached the recorded final index
  (`FlushAfterFinalIndexCloses`), for instance the same substring sent again,
  or any empty insert at that index once the stream has been read from
  (`DroppedLastSubstringClosesAfterPop`);
- the sentinel final index is `INT64_MAX`.

Rows marked "proof helper" in the table below unfold one branch of the scan
or of `Insert`, so that the class methods can be proved branch by branch;
they model no behaviour of their own beyond that branch.

## Model

| member | source | states |
|---|---|---|
| ByteStreams.Fresh | src/byte_stream.hh:31-41 | a new stream has the given capacity, an empty buffer, both flags down and zero pushed and popped counts, and satisfies the stream invariant |
| ByteStreams.Stream.AvailableCapacity | src/byte_stream.cc:37-43 | buffered bytes plus available capacity equal the capacity |
| ByteStreams.Stream.BytesBuffered | src/byte_stream.cc:83-87 | the buffered count equals bytes pushed minus bytes popped and never exceeds the capacity |
| ByteStreams.Stream.IsFinished | src/byte_stream.cc:51-56 | finished exactly when closed and every pushed byte has been popped |
| ByteStreams.Stream.Peek | src/byte_stream.cc:64-71 | the view has at most one byte; it is empty exactly when the buffer is empty, and otherwise it is the front byte |
| ByteStreams.Stream.SetError | src/byte_stream.hh:23-26 | the error flag is raised and nothing else changes |
| ByteStreams.Stream.Push | src/byte_stream.cc:13-29 | on a closed or failed stream: error raised, buffer and pushed count unchanged; otherwise exactly the first min(length of data, available capacity) bytes are appended in order and the pushed count grows by that many; the invariant holds after |
| ByteStreams.Stream.Close | src/byte_stream.cc:31-35 | the closed flag is set and the buffer, counts and error flag are unchanged |
| ByteStreams.Stream.Pop | src/byte_stream.cc:73-81 | exactly min(len, buffered) bytes are removed from the front, the rest stay in order, the popped count grows by that many, and the invariant is kept |
| ByteStreams.CloseIdempotent | src/byte_stream.cc:31-35 | closing twice is closing once |
| ByteStreams.ErrorIsSticky | src/byte_stream.hh:23-26 | once the error flag is up, push, pop, close and set_error all leave it up |
| ByteStreams.NoWritesAfterClose | src/byte_stream.hh:49-50 | after close, a push writes nothing, leaves the pushed count unchanged and raises the error flag |
| ByteStreams.ByteStream.constructor | src/byte_stream.cc:5 | the new object's state is the fresh stream of that capacity |
| ByteStreams.ByteStream.SetError | src/byte_stream.hh:24 | the object's new state is the old state with the error flag raised |
| ByteStreams.ByteStream.Push | src/byte_stream.cc:13-29 | the object's new state is `Stream.Push` of its old state |
| ByteStreams.ByteStream.Close | src/byte_stream.cc:31-35 | the object's new state is `Stream.Close` of its old state |
| ByteStreams.ByteStream.Pop | src/byte_stream.cc:73-81 | the object's new state is `Stream.Pop` of its old state |
| ByteStreams.ByteStream.Holding | src/reassembler.hh:54 | the new stream object holds exactly the given state, as the stream the reassembler takes over by a move |
| ByteStreams.ByteStream.HasError | src/byte_stream.hh:26 | returns the object's error flag |
| ByteStreams.ByteStream.IsClosed | src/byte_stream.cc:7-11 | returns the object's closed flag |
| ByteStreams.ByteStream.AvailableCapacity | src/byte_stream.cc:37-43 | the buffered bytes plus the result equal the capacity |
| ByteStreams.ByteStream.BytesPushed | src/byte_stream.cc:45-49 | returns the count of bytes written, which equals the bytes read plus those still buffered |
| ByteStreams.ByteStream.IsFinished | src/byte_stream.cc:51-56 | true exactly when the stream is closed and every byte written has been read |
| ByteStreams.ByteStream.BytesPopped | src/byte_stream.cc:58-62 | returns the count of bytes read, which plus the buffered bytes equals the bytes written |
| ByteStreams.ByteStream.Peek | src/byte_stream.cc:64-71 | the view has at most one byte; it is empty exactly when the buffer is empty, and otherwise it is the front byte |
| ByteStreams.ByteStream.BytesBuffered | src/byte_stream.cc:83-87 | the buffered count equals bytes written minus bytes read and never exceeds the capacity |
| SegmentSets.StartsBeforeIsStrictWeakOrder | src/reassembler.hh:94 | the set's comparator is irreflexive, asymmetric and transitive, and two segments are equivalent under it exactly when their start indices are equal |
| SegmentSets.LowerBound | src/reassembler.cc:44 | the position of the first stored segment whose start is not less than the key: every segment before it starts before the key and the one at it does not |
| SegmentSets.LowerBoundSplits | src/reassembler.cc:56 | a position lies before the lower bound exactly when its segment starts before the key |
| SegmentSets.LowerBoundFinds | src/reassembler.hh:94 | a segment with the key as start is stored exactly when the lower bound lands on it |
| SegmentSets.Erase | src/reassembler.cc:65 | erasing one segment removes exactly its bytes from the total and keeps the set ordered and disjoint |
| SegmentSets.EraseForgets | src/reassembler.cc:65 | every segment left after an erase was stored before |
| SegmentSets.EraseKeepsOthers | src/reassembler.cc:65 | every segment other than the erased one is still stored, and in a set ordered by start the erased one is gone |
| SegmentSets.EraseKeepsHeld | src/reassembler.cc:65 | erasing a segment that does not hold an index keeps that index held |
| SegmentSets.InsertSeg | src/reassembler.cc:76 | set insertion keeps the set ordered and either leaves it unchanged or adds exactly the new segment's bytes to the total |
| SegmentSets.InsertSegIsSetInsert | src/reassembler.hh:94-97 | with a segment of the same start already stored, the set is unchanged; otherwise the segment goes in between those starting before it and those starting after it, adding its bytes |
| SegmentSets.InsertSegMembers | src/reassembler.cc:76 | after insertion every segment is the new one or an old one, and every old one is still there |
| SegmentSets.InsertSegAdds | src/reassembler.cc:76 | a segment whose start is not yet stored is in the set after insertion |
| SegmentSets.InsertSegKeepsHeld | src/reassembler.cc:76 | inserting keeps every held index held and, when no stored segment from its start on begins before its end, holds the new segment's indices |
| ReassemblerSpec.Init | src/reassembler.hh:97-101 | a new reassembler has no segments, zero pending bytes, next expected index 0 and final index INT64_MAX, and satisfies the invariant over a valid stream |
| ReassemblerSpec.Edge | src/reassembler.cc:12 | the first unacceptable index is at or after the next expected index, and the distance between them plus the buffered bytes is the stream's capacity |
| ReassemblerSpec.MarkLast | src/reassembler.cc:14-16 | a last substring sets the final index to its untrimmed end, and nothing else changes |
| ReassemblerSpec.ClipAssembled | src/reassembler.cc:28-31 | the substring now starts at the later of its start and the next expected index, keeps its end, and drops exactly the bytes before the new start |
| ReassemblerSpec.ClipWindow | src/reassembler.cc:37-40 | the substring keeps its start and a prefix of its bytes, and ends at the earlier of its end and the window's end measured on entry |
| ReassemblerSpec.TrimPredecessor | src/reassembler.cc:44-54 | the substring's start only moves forward; if it still starts by its old end, it keeps that end, and otherwise it is empty |
| ReassemblerSpec.TrimPredecessorClears | src/reassembler.cc:44-54 | after the trim, every stored segment that starts before the substring ends by its start, and the substring stays inside the window |
| ReassemblerSpec.DropCovered | src/reassembler.cc:56-73 | the overlap scan keeps the set ordered and the count at least the stored total |
| ReassemblerSpec.DropCoveredMeets | src/reassembler.cc:56-73 | the scan leaves a prefix of the data that ends before every remaining segment from its start on; if it was cut, a kept segment starts at the cut and reaches past the original end; the kept segments were stored before and stay disjoint; the count falls by exactly the bytes dropped |
| ReassemblerSpec.DropCoveredErases | src/reassembler.cc:60-67 | proof helper: a segment the data covers is erased, its bytes are uncounted, and the scan goes on over the rest |
| ReassemblerSpec.DropCoveredCuts | src/reassembler.cc:68-71 | proof helper: at a segment reaching past the original end, the data is cut where it begins; the cut lies inside the data, so the erase at line 70 is in range |
| ReassemblerSpec.DropCoveredStops | src/reassembler.cc:58 | proof helper: when no segment from the start on begins before the original end, the scan changes nothing |
| ReassemblerSpec.TrimmedFits | src/reassembler.cc:42-77 | a substring clipped to the window meets what the storing step needs |
| ReassemblerSpec.StoreSubstring | src/reassembler.cc:42-77 | storing leaves the stream, the next expected index and the final index alone, and the count covers the stored bytes |
| ReassemblerSpec.PushFirst | src/reassembler.cc:122-130 | one flush round forgets exactly the first segment and moves the next expected index past its bytes |
| ReassemblerSpec.CheckPush | src/reassembler.cc:120-134 | the flush loop keeps the stream valid, the count at least the stored total, and the final index |
| ReassemblerProofs.PushFirstKeepsStored | src/reassembler.cc:122-130 | a flush round keeps the stored shape, never shrinks the window, and keeps the counts, capacity and raised flags moving only forward |
| ReassemblerProofs.CheckPushKeepsInv | src/reassembler.cc:120-134 | after the flush loop no stored segment starts at the next expected index; the invariant holds, and the next expected index, the window's end and the pushed count never go back |
| ReassemblerProofs.CheckPushAdvances | src/reassembler.cc:125 | the flush loop never moves the next expected index backwards |
| ReassemblerProofs.CheckPushCloses | src/reassembler.cc:128-130 | the stream is closed after the flush exactly when it was closed before, or at least one segment was pushed and the next expected index reached the final index |
| ReassemblerProofs.CheckPushClosesOnlyAtEnd | src/reassembler.cc:128-130 | the flush closes the stream only once the final index is reached, and always does when it advances the next expected index up to or past it; the full iff is `CheckPushCloses` |
| ReassemblerProofs.DropCoveredKeepsBounds | src/reassembler.cc:58-73 | the overlap scan keeps the segments inside the window and keeps clear what was clear before the data |
| ReassemblerProofs.StoreKeepsStored | src/reassembler.cc:76-77 | storing a segment that overlaps nothing keeps the set ordered, disjoint, inside the window, and keeps the count equal to the total |
| ReassemblerProofs.StoreSubstringKeepsStored | src/reassembler.cc:42-77 | overlap resolution plus storing keeps the segments pairwise disjoint, inside the window, and bytes_waiting_ equal to their total |
| ReassemblerProofs.StoreAtNextComesFirst | src/reassembler.cc:44-77 | a substring starting at the next expected index, even an empty one, becomes the first stored segment, so the flush at line 79 pushes it |
| ReassemblerProofs.StoreAfterNextFlushesNothing | src/reassembler.cc:120-122 | after storing a substring that starts past the next expected index, no segment starts at that index, so the flush returns its input unchanged |
| ReassemblerProofs.FlushBeforeLastLeavesOpen | src/reassembler.hh:101 | while the final index is the INT64_MAX sentinel, a flush that leaves the next expected index below it never closes the stream |
| ReassemblerProofs.FlushFromStored | src/reassembler.cc:79 | the flush after storing satisfies the invariant and makes progress from the state on entry |
| ReassemblerProofs.PopKeepsInv | src/reassembler.hh:82-83 | reading from the stream keeps the reassembler's invariant and only widens the window |
| ReassemblerCoverage.DropCoveredKeepsHeld | src/reassembler.cc:58-73 | the overlap scan forgets no byte: a byte held by a stored segment or carried by the data is afterwards held by a kept segment or carried by what is left of the data |
| ReassemblerCoverage.TrimmedFrontHeld | src/reassembler.cc:48-53 | the bytes the predecessor trim removes are held by the predecessor |
| ReassemblerCoverage.TrimmedReaches | src/reassembler.cc:37-40 | after the window clip and the predecessor trim, the data reaches the end of every stored segment from its start that ends by the original end |
| ReassemblerCoverage.StoreSubstringKeepsKnown | src/reassembler.cc:42-77 | storing forgets no known byte and makes every byte of the clipped substring known |
| ReassemblerCoverage.CheckPushKeepsKnown | src/reassembler.cc:120-134 | flushing forgets no known byte |
| ReassemblerCoverage.FlushLearns | src/reassembler.cc:24-26 | on the flush-only path nothing known is forgotten |
| ReassemblerCoverage.DropLearns | src/reassembler.cc:33-35 | on the discard path there is nothing in the window to learn and nothing is forgotten |
| ReassemblerCoverage.StoreLearns | src/reassembler.cc:37-79 | on the storing path nothing known is forgotten and every byte of the substring before the window's end becomes known |
| ReassemblerDelivery.InitConsistent | src/reassembler.hh:54 | a new reassembler over a fresh stream is in step with every byte sequence |
| ReassemblerDelivery.PushFirstKeepsConsistent | src/reassembler.cc:122-127 | a flush round appends to the buffer exactly the next bytes of the stream's content |
| ReassemblerDelivery.CheckPushKeepsConsistent | src/reassembler.cc:120-134 | the flush loop keeps the buffer equal to the content between the popped and pushed counts |
| ReassemblerDelivery.TrimPredecessorAgrees | src/reassembler.cc:51-52 | the predecessor trim keeps a substring's bytes at their indices |
| ReassemblerDelivery.StoreSubstringAgrees | src/reassembler.cc:42-77 | after storing, every stored segment holds the content's bytes at its indices |
| ReassemblerDelivery.InsertSegAgrees | src/reassembler.cc:76 | inserting a segment in step with the content keeps every segment in step |
| ReassemblerDelivery.StoreAndFlushConsistent | src/reassembler.cc:76-79 | storing then flushing keeps the state in step with the content |
| ReassemblerDelivery.StoreAndFlushKeepsConsistent | src/reassembler.cc:29-79 | the trimming, storing and flushing path keeps the state in step with any content the original substring agrees with |
| ReassemblerDelivery.FlushKeepsConsistent | src/reassembler.cc:24-26 | the paths that store nothing keep the state in step, whether they flush or not |
| ReassemblerDelivery.PopKeepsConsistent | src/byte_stream.cc:73-81 | popping keeps the buffer equal to the content between the new popped count and the pushed count |
| ReassemblerDelivery.KnownPrefixIsPushed | src/reassembler.hh:63-65 | between calls, with no error, the bytes known without a gap from index 0 are exactly the bytes pushed: the next byte is written as soon as it is known |
| ReassemblerInsert.Insert | src/reassembler.cc:5-83 | one call keeps the invariant and makes progress; the final index becomes the untrimmed end of a last substring; the stream is closed only once the next expected index reaches the final index, and always when the call advances the next expected index up to or past it; a substring that starts at or before the next expected index, reaches it and finds room in the window closes the stream exactly when it was closed or the final index is reached, also when it carries no bytes; a substring that starts after the next expected index leaves the stream and the next expected index exactly as they were; a state in step with a content stays in step when the substring agrees with it; nothing known is forgotten and every byte of the substring before the window's end becomes known |
| ReassemblerInsert.StorePath | src/reassembler.cc:37-79 | the storing path promises everything `Insert` promises; for a substring starting at or before the next expected index, the stream is closed afterwards exactly when it was closed or the final index is reached; for one starting after the next expected index, the stream and the next expected index are unchanged |
| ReassemblerInsert.InsertRedundantStoresNothing | src/reassembler.cc:24-26 | a substring ending by the next expected index leaves the stream, the segments, the count and the next expected index unchanged |
| ReassemblerInsert.InsertBeyondWindowDropped | src/reassembler.cc:33-35 | a substring starting, once trimmed, at or past the window's end measured on entry is dropped: nothing stored, no flush, the pending count unchanged |
| ReassemblerInsert.InsertRedundantPath | src/reassembler.cc:24-26 | proof helper: the flush-only path is exactly a flush after recording the final index |
| ReassemblerInsert.InsertDroppedPath | src/reassembler.cc:33-35 | proof helper: the discard path only records the final index |
| ReassemblerInsert.InsertStorePath | src/reassembler.cc:37-79 | proof helper: any other substring is clipped to the window, stored and flushed |
| ReassemblerInsert.RedundantLastSubstringLeavesOpen | src/reassembler.cc:24-26 | a last substring that lies wholly before the next expected index leaves an open stream open, although the next expected index has reached the final index |
| ReassemblerInsert.EmptyLastSubstringCloses | src/reassembler.cc:76-79 | a last substring with no bytes at the next expected index closes the stream whenever the window has room |
| ReassemblerInsert.LastSubstringAfterCloseRaisesError | src/reassembler.cc:120-126 | sending that empty last substring again after the stream closed raises the stream's error flag |
| ReassemblerInsert.StoreIntoClosedRaisesError | src/byte_stream.cc:15-18 | storing a substring at the next expected index of a closed stream and flushing raises the error flag |
| ReassemblerInsert.FullBufferDropsLastSubstring | src/reassembler.cc:33-35 | with a full buffer, a last substring at or after the next expected index records the final index but stores nothing and leaves the stream open |
| ReassemblerInsert.FlushAfterFinalIndexCloses | src/reassembler.cc:120-126 | once the next expected index has reached the recorded final index, an empty insert at that index with room in the window closes the stream, whether or not it is marked last |
| ReassemblerInsert.DroppedLastSubstringClosesAfterPop | src/reassembler.cc:33-35 | an empty last substring dropped at the next expected index of a full buffer leaves the stream open with that final index, and after a pop an ordinary empty insert there closes it |
| ReassemblerRuns.InsertAll | src/reassembler.cc:5-83 | a run of inserts keeps the invariant, pops nothing and never moves the window's end back |
| ReassemblerRuns.InsertAllLearns | src/reassembler.hh:67-69 | a run forgets no known byte and learns every byte a substring carries inside the window as it stood before the run |
| ReassemblerRuns.InsertAllConsistent | src/reassembler.hh:63-65 | a run of pieces of one byte sequence keeps the state in step with it |
| ReassemblerRuns.Reassembles | src/reassembler.hh:63-65 | a fresh reassembler over a stream with room for all of a byte sequence, given pieces of it in any order that cover every index, has pushed exactly that sequence into the stream, unless the error flag was raised |
| Reassembly.Reassembler.constructor | src/reassembler.hh:54 | the new reassembler writes into a stream object of its own holding the given stream's state, as a move does, and its state is the initial state, which satisfies the invariant |
| Reassembly.Reassembler.BytesPending | src/reassembler.cc:85-89 | the pending count equals the total length of the stored segments |
| Reassembly.Reassembler.CheckPush | src/reassembler.cc:92-134 | the loop leaves the object in the state the flush function gives, and restores the invariant when run on the shape a store leaves |
| Reassembly.Reassembler.Insert | src/reassembler.cc:5-83 | the object's new state is `ReassemblerInsert.Insert` of its old state, so the invariant holds after |
| Reassembly.Reassembler.StoreAndFlush | src/reassembler.cc:76-79 | storing the clipped substring then flushing gives the state `Insert` describes |
| Reassembly.Reassembler.Store | src/reassembler.cc:42-77 | the object's new state is `StoreSubstring` of its old state |
| Reassembly.Reassembler.Resolve | src/reassembler.cc:42-77 | overlap resolution and set insertion compute the segments and count `StoreSubstring` describes |
| Reassembly.Reassembler.DropCoveredLoop | src/reassembler.cc:56-73 | the re-seeking erase loop computes what the overlap scan function describes |
| Reassembly.Reassembler.Pop | src/reassembler.hh:82-83 | popping through the reader changes only the stream, as `Stream.Pop`, and keeps the invariant |

## Left out

- Insert: indices and counts are unbounded naturals. The model does not reproduce the 64-bit wrap-around of `first_index + data.size()`, or of the other `uint64_t` sums, for indices near 2^64.
- The `reader()` and `writer()` accessors of both classes are not modelled. Writer and Reader are one class, and the reassembler's reader access is its `Pop` method plus its `output` field.
- The writer is const-only from outside the reassembler. That restriction is not modelled: the model declares no export sets, so every member is visible. The reassembler's `output` field is a `const` reference.
- Reassembles: says nothing about closing. Because a last substring that lies wholly before the next expected index leaves the stream open, pieces that cover the content do not always close it.
- The free `read` helper is declared without a body, so it is not modelled.
- The unused field `first_unpoped_index_` is not modelled.
- `std::set` and `std::deque` are modelled as sorted sequences. `lower_bound` is a linear search, not a logarithmic one, and the model says nothing about performance.
- `peek` returns a `string_view` into the deque. The model returns a copy of the front byte, so the view's aliasing and lifetime are not modelled.
- Bytes are `char`s in the source and values 0 to 255 here. Text encoding plays no part.
- File descriptors, sockets and the command-line client are operating-system I/O and are not part of this model.
