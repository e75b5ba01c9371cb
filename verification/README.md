# RFID tag buffer and flush pipeline

A Dafny model of the tag buffer in the Impinj RFID reader GUI
(`src/main/java/com/example/RFIDReaderGUI.java`). Each reader's tag-report
listener drops long EPCs when the filter checkbox is on and upserts the rest
into a nested map, reader host name -> EPC -> `{date, time}`. Every ten
seconds a timer task trims the race-name field. If the trimmed name is empty
it skips the cycle. Otherwise it flushes: it merges `initialized = "true"`
into the race document `RFIDReaders/{race}`, overwrites one document
`RFIDReaders/{race}/{reader}/{epc}` per buffered tag (stored fields plus
`initialized = "true"`), catches each write's failure on its own, and then
clears the buffer.

Modules, one per concern:

- `Wrappers` holds `Option`.
- `JavaString` models `String.trim()`, which strips code points up to U+0020 from both ends.
- `TagEvents` holds the detection record and the EPC-length filter (at most 9 characters).
- `TagBuffer` holds the nested map, `Put` (`bufferTagData`) and series of puts.
- `Datastore` is the abstract document store. A write has a path, fields and a merge or overwrite mode. Each write gets a verdict from an `accepts` oracle. `Commit` gives the effect of accepted writes on a store.
- `Flush` holds the write list of one flush, the nested-loop method `FlushBuffer`, and what a flush does to the store.
- `Pipeline` treats each tag detection (one `bufferTagData` call) and each timer tick as an atomic step over the buffer. It also holds the timer's race-name gate and properties over whole runs of steps.

The hash map's iteration order is not fixed. The flush is therefore stated
for every order that visits each buffered key once (`IsEnumeration`).
`FlushBuffer` returns the order its loops happened to take.

## Model

| member | source | states |
|---|---|---|
| JavaString.Trim | src/main/java/com/example/RFIDReaderGUI.java:114 | the trimmed name has a kept character at each end; it is empty exactly when every character is at most U+0020; it is a contiguous slice of the field with only strippable characters cut off on either side |
| JavaString.TrimUnique | src/main/java/com/example/RFIDReaderGUI.java:114 | any split of the field into strippable prefix, trimmed middle and strippable suffix has `Trim` as its middle |
| JavaString.TrimIdempotent | src/main/java/com/example/RFIDReaderGUI.java:114 | trimming an already trimmed race name changes nothing |
| TagEvents.Admits | src/main/java/com/example/RFIDReaderGUI.java:169 | with the filter off every detection is admitted; with it on, a detection is admitted exactly when its EPC has at most 9 characters |
| TagBuffer.Put | src/main/java/com/example/RFIDReaderGUI.java:220-226 | after the put the (reader, EPC) key holds exactly `{date, time}`; every other key keeps its value; other readers' buckets are unchanged; a new reader gets a bucket holding only this EPC; an existing bucket keeps its other EPCs |
| TagBuffer.PutKeys | src/main/java/com/example/RFIDReaderGUI.java:222-224 | a put adds exactly its own (reader, EPC) key to the buffer's keys and removes none |
| TagBuffer.PutDetectionLookup | src/main/java/com/example/RFIDReaderGUI.java:222-224 | seen from any one key, a put either installs its record (its own key) or changes nothing (any other key) |
| TagBuffer.LastWriteWins | src/main/java/com/example/RFIDReaderGUI.java:224 | a second put to the same key replaces the first record completely |
| TagBuffer.PutsToDistinctKeysCommute | src/main/java/com/example/RFIDReaderGUI.java:222-224 | puts to different keys give the same buffer in either order, so detections of different tags never interfere |
| TagBuffer.PutAllUntouched | src/main/java/com/example/RFIDReaderGUI.java:220-226 | a series of puts that never names a key leaves that key's record as it was |
| TagBuffer.PutAllKeepsLatest | src/main/java/com/example/RFIDReaderGUI.java:220-226 | after a series of puts, a key holds the record of the last put that named it |
| TagBuffer.PutAllKeys | src/main/java/com/example/RFIDReaderGUI.java:220-226 | the keys after a series of puts are the earlier keys plus the keys of the puts |
| Datastore.IssueAll | src/main/java/com/example/RFIDReaderGUI.java:257-264 | every write is issued, in order, whatever the store answers; each entry's verdict is success exactly when the store accepts that write |
| Datastore.Apply | src/main/java/com/example/RFIDReaderGUI.java:231 | an overwrite leaves exactly its fields; a merge adds or replaces its fields and keeps the document's other fields; other documents are unchanged |
| Datastore.CommitUntouched | src/main/java/com/example/RFIDReaderGUI.java:262-264 | a document whose writes were all rejected stays as it was |
| Datastore.CommitSoleWrite | src/main/java/com/example/RFIDReaderGUI.java:258-259 | a document written once by an accepted write ends up as that write alone leaves it, whatever else the batch does |
| Datastore.IssuedSoleWrite | src/main/java/com/example/RFIDReaderGUI.java:257-264 | a document written once in a batch takes that write's effect if the write was accepted, and is left as before if it was rejected; other writes' verdicts do not matter |
| Flush.AncestorWrite | src/main/java/com/example/RFIDReaderGUI.java:228-237 | the race-document write is a merge of the single field `initialized = "true"` at RFIDReaders/{race} |
| Flush.TagFields | src/main/java/com/example/RFIDReaderGUI.java:249-250 | a tag document's fields are exactly `date` and `time` as buffered plus `initialized = "true"` |
| Flush.TagWrite | src/main/java/com/example/RFIDReaderGUI.java:252-258 | a tag's write is a plain overwrite of those fields at RFIDReaders/{race}/{reader}/{epc} |
| Flush.DocumentPathsDistinct | src/main/java/com/example/RFIDReaderGUI.java:252-255 | two tag paths coincide exactly for the same race, reader and EPC, and no tag path is a race document's path |
| Flush.EnumerationSize | src/main/java/com/example/RFIDReaderGUI.java:246-248 | a visit of the key sets that meets every key exactly once is as long as the number of buffered tags |
| Flush.FlushWrites | src/main/java/com/example/RFIDReaderGUI.java:243-256 | the race-document merge comes first and is the only write to that path; every later write is an overwrite at the visited tag's path |
| Flush.TagWriteIndex | src/main/java/com/example/RFIDReaderGUI.java:245-256 | each buffered tag has a position after the ancestor write that holds its write, and no other write targets its path |
| Flush.EachEntryWrittenOnce | src/main/java/com/example/RFIDReaderGUI.java:245-256 | a flush has one write more than the buffered tags; every buffered tag is written exactly once with its stored date and time plus `initialized`; every tag write comes from a buffered tag |
| Flush.EmptyBufferFlushesNoTags | src/main/java/com/example/RFIDReaderGUI.java:243-256 | flushing an empty buffer writes only the race document |
| Flush.AncestorEffect | src/main/java/com/example/RFIDReaderGUI.java:228-237 | if the merge was accepted, the race document is exactly its earlier fields (none for a new document) with `initialized = "true"` set; if it was rejected, the document is unchanged |
| Flush.TagEffect | src/main/java/com/example/RFIDReaderGUI.java:249-264 | if a tag's write was accepted, its document is exactly `{date, time, initialized}`; if it was rejected, the document is unchanged; other verdicts do not matter |
| Flush.OtherDocumentsUntouched | src/main/java/com/example/RFIDReaderGUI.java:240-269 | a flush changes only the race document and the buffered tags' documents |
| Flush.FlushBucket | src/main/java/com/example/RFIDReaderGUI.java:248-265 | the inner loop keeps the log so far and appends exactly one write per EPC of the reader's bucket, each EPC visited once |
| Flush.FlushBuffer | src/main/java/com/example/RFIDReaderGUI.java:240-269 | the log is the ancestor merge followed by one write per buffered tag, each visited exactly once, with per-write verdicts; the buffer is empty afterwards whatever the verdicts |
| Pipeline.RaceName | src/main/java/com/example/RFIDReaderGUI.java:114-115 | the gate is closed exactly when the field holds only characters at most U+0020 (so empty and blank names too); otherwise it yields the trimmed, non-empty name |
| Pipeline.Step | src/main/java/com/example/RFIDReaderGUI.java:114-119 | a step produces a batch exactly when it is a tick whose trimmed race name is non-empty; that batch is the whole buffer and the buffer is left empty; tag detections never produce a batch |
| Pipeline.Run | src/main/java/com/example/RFIDReaderGUI.java:114-119 | a run of detections and ticks drains at most one batch per event |
| Pipeline.DetectionsOnlyRunIsPutAll | src/main/java/com/example/RFIDReaderGUI.java:166-173 | a run of admitted detections and no tick drains nothing and leaves exactly the buffer the series of puts `TagBuffer.PutAll` gives |
| Pipeline.ReachesBufferIffAdmitted | src/main/java/com/example/RFIDReaderGUI.java:169-172 | a detection's record reaches the buffer if and only if filtering is off or the EPC has at most 9 characters; a rejected detection leaves any buffer unchanged |
| Pipeline.BlankRaceNameSkips | src/main/java/com/example/RFIDReaderGUI.java:114-119 | a tick whose race name is empty or blank issues no batch and leaves the buffer as it was |
| Pipeline.SecondFlushWritesNoTags | src/main/java/com/example/RFIDReaderGUI.java:245-267 | two flushing ticks with nothing between them: the second drains an empty buffer, so in any visiting order it writes only the race document |
| Pipeline.StaysBufferedUntilDrain | src/main/java/com/example/RFIDReaderGUI.java:221-224 | an admitted detection's key stays in the buffer through later detections and blank ticks until the next flush |
| Pipeline.HoldsLatestUntilDrain | src/main/java/com/example/RFIDReaderGUI.java:222-224 | with no later detection of the key and no flush since, the buffer holds the last detection's date and time |
| Pipeline.GoneAfterDrain | src/main/java/com/example/RFIDReaderGUI.java:267 | after a flush a key is absent until a new admitted detection puts it back, so nothing is drained twice |
| Pipeline.DrainedByNextFlush | src/main/java/com/example/RFIDReaderGUI.java:245-267 | the first flushing tick after an admitted detection drains a batch for the trimmed race name that holds the detection's key; the buffer left behind does not hold it |
| Pipeline.TimerTick | src/main/java/com/example/RFIDReaderGUI.java:114-119 | a blank race name gives no writes and an unchanged buffer; otherwise the flush of the buffer under the trimmed name and an empty buffer; agrees with `Step` |
| Pipeline.ScenarioLaterDetectionWins | src/main/java/com/example/RFIDReaderGUI.java:220-226 | two detections of R1/EPC123 at 10:00:00 and 10:00:05 and then a flush give one batch holding only the 10:00:05 record |
| Pipeline.ScenarioFilter | src/main/java/com/example/RFIDReaderGUI.java:169-172 | with the filter on, a 12-character EPC is dropped and a 9-character EPC is buffered |

## Left out

- Swing UI: frame layout, sliders, indicators, `appendOutput`/`clearOutput`, and the `%-15s %-10s %s` display lines. They are presentation only.
- Impinj Octane SDK: connect, settings, antenna power, start/stop and disconnect are foreign calls. A detection is an input event (EPC, reader host name, date, time).
- Threads, `java.util.Timer` (10 s delay and period) and the `synchronized` blocks: each tag's `bufferTagData` call (line 171, one per tag of a report, synchronized at lines 221-225) and each tick is one atomic step, so a tick may fall between two tags of one report. A detection that arrives after the ancestor write (line 243) but before the flush takes the lock (line 245) is covered too: the ancestor write does not read the buffer, so that interleaving gives the same writes and the same buffer as the detection arriving just before the tick's atomic step.
- Firestore and Firebase (`FirebaseInitializer.java`, `getFirestore`, the `set`/`get` futures): these are replaced by the abstract write log and the `accepts` oracle. Log and error messages are not modelled.
- Firestore path building: `document(raceName)` (line 229) and the tag path (lines 252-255) are built outside the `try` blocks. `document` takes a slash-separated path, so a race name such as "a/b" is refused and throws, while "a/b/c" is accepted and addresses the nested document RFIDReaders/a/b/c. The model treats every path segment as one opaque id that is always accepted.
- Exceptions that escape the catches: `getFirestore()` (line 241) throws when `initializeFirebase` swallowed its `IOException` (`FirebaseInitializer.java` lines 22-24), and path building (lines 229 and 252-255) can throw as above. Such an exception leaves `TimerTask.run` (lines 114-119) and ends the `java.util.Timer` thread: line 267 never clears the buffer and no later tick runs. The model assumes a flush never throws. `Flush.FlushBuffer`'s empty buffer afterwards and every lemma about `Pipeline.Run` rest on that assumption.
- Flush.AncestorEffect: a write whose future throws is assumed not applied. The catch at line 234 also runs when `future.get()` is interrupted or times out after the write has landed, and then the document does change.
- Flush.TagEffect: a write whose future throws is assumed not applied. The catch at line 262 also runs when `future.get()` is interrupted or times out after the write has landed.
- Datastore.IssuedSoleWrite: a write whose future throws is assumed not applied, although an interrupted or timed-out `future.get()` (lines 234 and 262) can follow a write that landed.
- Datastore.CommitUntouched: a write whose future throws is assumed not applied, although an interrupted or timed-out `future.get()` (lines 234 and 262) can follow a write that landed.
- Pipeline.Run: its own contract only bounds the number of batches. What the buffer and the batches hold is stated by the run lemmas (`DetectionsOnlyRunIsPutAll`, `StaysBufferedUntilDrain`, `HoldsLatestUntilDrain`, `GoneAfterDrain`, `DrainedByNextFlush`).
- Date and time formatting reads the clock: dates and times are opaque strings.
- EPC length: Java's `length()` counts UTF-16 units, while `|epc|` counts Unicode scalar values. The two differ only for characters outside the Basic Multilingual Plane, which an EPC's hex text never contains.
- `src/RFIDReaderGUI.java` (display only, no buffer) and `src/main/java/RFIDReaderGUI.java` (writes straight through with `sendDataToFirestore`): earlier versions. Their filter repeats `TagEvents.Admits`.
- The filter threshold is the fixed constant 9, as in the code. It is not a configurable setting.
- Retrying failed writes: the code drops an item whose write fails. `FlushBuffer` returns an empty buffer whatever the verdicts, and nothing is re-buffered.
