# Simplicio Fast: a verified model

Simplicio Fast keeps derived, disposable state beside a source tree: a vector transform, sealed change sets with
their journal, several caches, deltas, a catalog of handles and an advisory ranking. This project models the parts of
it that carry an algorithm or a protocol, and proves what they promise.

| file | what it models |
|---|---|
| `Fwht.dfy` | the in-place fast Walsh-Hadamard transform, against the dense double loop that specifies it |
| `HbpCodec.dfy`, `ContextHbp.dfy` | the hash chain of HBP receipts, and the context rows that travel in it |
| `Bytes.dfy`, `Json.dfy`, `Ordering.dfy`, `Wrappers.dfy` | big-endian integers, JSON values, sorting, result types |
| `ChangeSet.dfy`, `ChangeSetCodec.dfy` | change sets, their JSON and their framed binary form |
| `Reading.dfy` | which paths, records of operations and records of change sets are accepted, and as what |
| `ChangeSetValidate.dfy` | validation, which simulates the operations on an overlay of the tree |
| `Acceptance.dfy`, `Replacing.dfy` | what each operation accepts and leaves, what no list of operations loses, and what a replacement writes |
| `Journal.dfy` | the append-only hash-chained journal file, torn tails and recovery |
| `JournalReading.dfy` | which byte strings are read as which events, which errors the others raise, and what the last hash binds |
| `Materialize.dfy` | `materialize` and `reconcile_unknown_effect` with an untrusted adapter, over whole runs |
| `Reconciliation.dfy` | when a reconciliation may end the lock of an unknown effect, and what that means in a run |
| `MaterializeCrash.dfy` | the same runs with crashes that tear events off the journal |
| `Recency.dfy`, `DecisionCache.dfy` | insertion-ordered dictionaries, and the decision cache |
| `ContextView.dfy` | the greedy context selector, the persisted TTL cache in front of it, and the verification of views |
| `ViewMeaning.dfy` | which calls are accepted, the order of selection, the counts, and what a view says |
| `ContentCache.dfy` | the single-flight cache as interleaved atomic segments |
| `Delta.dfy` | diff, patch and staleness of source digests |
| `Catalog.dfy`, `CatalogCodec.dfy` | the handle catalog and its binary record stream |
| `CatalogMeaning.dfy` | what is registered, resolved and taken out, and how a file is refused |
| `Ranking.dfy` | the capability ranking and its Pareto frontier |
| `RankingMeaning.dfy` | eligibility, score and order of an answer |

Run `dafny verify dfyconfig.toml`.

Code that changes state step by step is modelled by methods and classes. Each method is proved against a function or a
relation on values, and the properties over whole runs are lemmas about those. SHA-256 and the digests built on it are
arbitrary functions. The functions that decide something are tied down by lemmas that give the decision in plain
conditions on the inputs, without the functions' own parts. No result assumes that a digest has no collisions: where one could matter, the statement either
says what the colliding inputs are, or the collision is one of the cases of the model. JSON, base64 and the text
encodings are given by functions with `decode(encode(x)) == x`.

Where the code and its documentation or an obvious reading differ, the model follows the code, and a lemma says exactly
when the expected property holds:

- A quarantine or a disabling lasts until the generation switches or `max_entries` other keys have entered the same
  bounded store (`BlockedIffRetained`); `QuarantineCanBeForgotten` is a run in which it does not last.
- An unknown effect locks if and only if no `unknown` event of the change set is recorded yet, because the journal
  drops a second event with the same change set and state, and the event can be written (`UnknownLocksIff`, with the two
  failing runs `SecondUnknownDoesNotLock` and `UnwrittenUnknownDoesNotLock`).
- Validating again after the operations were performed: with disjoint paths it accepts exactly when the hashes that
  `create` and `rename` do not check are honest (`RevalidationAcceptsIff`, `DishonestCreate`); for replacements chained
  on one file it reports them idempotent exactly when the final content matches every `after` hash
  (`ChainedReplaceIff`), it accepts two of them exactly when the final content can take them again
  (`ChainedReplaceAcceptsIff`), and well-formed edits `x` to `y` to `z` are refused as stale (`ChainedReplaceInstance`).
- An applied event says that the adapter returned and the tree still validates, so an adapter that did nothing is
  recorded as applied (`AppliedMeansValid`). When the adapter does perform the operations, applied is recorded exactly
  when they are honest (`AppliedIffHonest`), and faithfully performed chained edits are recorded as rejected exactly
  when the final content cannot take them again (`ChainedEditsAreRejected`).
- A terminal or unknown event binds later commands only as long as its frame survives (`TerminalUnlessLost`,
  `LockedUnlessLost`). `CrashReopensIff` says for both exactly when the next attempt after a crash calls the adapter;
  for the first unknown event that is if and only if its frame was lost (`CrashUnlocksIff`, with the run
  `CrashUnlocks`).
- The constructor of a change set accepts blank bindings that decoding refuses, so the round trip holds if and only if
  no binding is blank (`EncodeDecode`, `BlankBinding`).
- `verify_chain` accepts rows with line breaks (`VerifyAllowsLineBreaks`): rows are what `seal_receipt` makes of some
  texts if and only if they verify and no row has a line break (`SealableIff`).
- The `requests` of the content cache's receipt count dropped entries and not the calls that failed
  (`RequestsAreCallsIff`, `RequestsMiscount`).
- After an invalidation the next `get` computes afresh if and only if the key is not in flight and its value, if any,
  was dropped (`RecomputesIff`). A running compute stores its value all the same (`InvalidationMissesFlight`), and a
  dropped value comes back while its launcher has not woken (`DroppedValueReturns`). A value dropped while its key is
  not in flight never comes back (`DroppedStaysDropped`).
- `register` compares only the canonical ids when a handle is taken, so two namespaces can shadow each other
  (`RegisterKeepsInvIff`, `ShadowedRegistration`), and registering again keeps the first segment and state
  (`FirstRegistrationStands`).
- `to_bytes` does not check the limits that `from_bytes` enforces (`OversizedCatalog`), and it writes only entries that
  own their handle: a reachable catalog reads back if and only if it is within the limits and no entry is shadowed
  (`RoundTripIff`, `ReachedRoundTripIff`).
- A scoped hand-off ignores the snapshot it is asked to compare with (`Handoff`).
- The ranking counts an unknown cost or latency as free (`EligibleMeans`).

## Model

| member | source | states |
|---|---|---|
| Fwht.Transform | src/simplicio_fast/fwht.py:13-61 | Succeeds exactly on power-of-two lengths; the unscaled result is the dense transform, the orthonormal one its quotient by the scale, after exactly (n/2)·log2(n) butterflies |
| Fwht.Butterflies | src/simplicio_fast/fwht.py:45-56 | The nested loops leave the dense transform in the array they started from |
| Fwht.ButterflyPass | src/simplicio_fast/fwht.py:46-56 | One width turns every block's w-point transforms into 2w-point transforms, with n/2 butterflies |
| Fwht.ButterflyBlock | src/simplicio_fast/fwht.py:49-55 | One block's inner loop does that for its own cells and leaves all other cells alone |
| Fwht.PowerOfTwoGuard | src/simplicio_fast/fwht.py:30-31 | `size & (size - 1)` is zero for a positive size exactly when it is a power of two |
| Fwht.WalshIsDense | benchmarks/run_turboquant.py:16-26 | The recursive transform is the dense sum of signs by bit parity, at every row |
| Fwht.CellStep | src/simplicio_fast/fwht.py:50-55 | The sign law behind one butterfly: sum and difference of half transforms are the transform of twice the width |
| Fwht.DenseTwice | src/simplicio_fast/fwht.py:45-56 | The unscaled transform twice is n·x, and it multiplies the sum of squares by n |
| Fwht.OrthonormalIsUnitary | src/simplicio_fast/fwht.py:58-61 | The orthonormal transform is its own inverse and keeps the sum of squares |
| HbpCodec.SealAll | src/simplicio_fast/hbp_codec.py:25-29 | Sealing texts one after another succeeds exactly without line breaks and gives the linked rows |
| HbpCodec.VerifyChain | src/simplicio_fast/hbp_codec.py:32-47 | The loop computes the verified last hash, or the first row's error |
| HbpCodec.RSplitJoin | src/simplicio_fast/hbp_codec.py:36-37 | Splitting from the right finds the joint even when the text before it holds the separator |
| HbpCodec.RowAcceptedIffLinked | src/simplicio_fast/hbp_codec.py:34-46 | A row is accepted exactly when it is some text linked to the previous hash |
| HbpCodec.RowRefused | src/simplicio_fast/hbp_codec.py:34-46 | Another row is a partial append exactly when its last event mark, or a mark of the previous event before that, is missing, and an invalid chain otherwise |
| HbpCodec.SealedVerifies | src/simplicio_fast/hbp_codec.py:25-47 | Every sealed chain verifies to its last hash |
| HbpCodec.VerifiedIsSealed | src/simplicio_fast/hbp_codec.py:32-47 | Whatever verifies is the chain of some texts |
| HbpCodec.VerifyAllowsLineBreaks | src/simplicio_fast/hbp_codec.py:26-47 | An input on which the two differ: a row that sealing refuses is accepted by verification |
| HbpCodec.SealableIff | src/simplicio_fast/hbp_codec.py:25-47 | Rows are what sealing makes of some texts without line breaks if and only if they verify and no row holds a line break |
| HbpCodec.ChainBinding | src/simplicio_fast/hbp_codec.py:32-47 | Two verified chains with one final hash are equal, or two of their bodies collide, or lengths differ and a body hashes to the genesis value |
| ContextHbp.RowRoundTrip | src/simplicio_fast/context_view.py:370-396 | Every payload encodes; its row decodes to it under its own kind and is refused under the other |
| ContextHbp.DecodedIsSealed | src/simplicio_fast/context_view.py:377-396 | What decodes is exactly the seal of the text its fields were read from |
| ContextHbp.FieldsRefused | src/simplicio_fast/context_view.py:377-396 | Which fields are refused for their schema or kind, which for a payload that is no object, and which as tampered |
| ChangeSet.ReadOperationWellFormed | src/simplicio_fast/binary_changeset.py:168-276 | Every operation that is read satisfies the rules of its type |
| ChangeSet.OperationRoundTrip | src/simplicio_fast/binary_changeset.py:168-301 | Reading an operation's own record gives it back, in canonical form with the same record |
| ChangeSet.NormalPathIdempotent | src/simplicio_fast/binary_changeset.py:74-93 | A normalised path normalises to itself |
| ChangeSet.ConstructIdempotent | src/simplicio_fast/binary_changeset.py:318-359 | A constructed change set constructs to itself |
| ChangeSet.ChangeSetRoundTrip | src/simplicio_fast/binary_changeset.py:362-436 | Reading a change set's record gives it back if and only if no binding is blank, with the same identity and id |
| Ordering.SortedSetIdempotent | src/simplicio_fast/binary_changeset.py:318-359 | Sorting and deduplicating the allowed paths twice changes nothing and loses no path |
| Reading.PathIff | src/simplicio_fast/binary_changeset.py:74-93 | A value is a path exactly when, with a slash for each backslash, it consists of components other than the empty one, "." and ".." with single slashes between them, and holds no NUL and no colon |
| Reading.PathFails | src/simplicio_fast/binary_changeset.py:74-93 | What else is refused: a dot component is one error, every other fault the other |
| Reading.TypeMeans | src/simplicio_fast/binary_changeset.py:171-178 | The four operation types, with a dash or an underscore in the one of two words |
| Reading.ShaMeans | src/simplicio_fast/binary_changeset.py:62-71 | A digest is 64 hexadecimal digits in either case and is read in lower case |
| Reading.ContentMeans | src/simplicio_fast/binary_changeset.py:186-195 | Content is given in base64, or else as text; what is given must decode |
| Reading.WrittenContentMeans | src/simplicio_fast/binary_changeset.py:290-295 | The content written beside the base64 decodes it in the operation's encoding, UTF-8 if it has none |
| Reading.LinesMean | src/simplicio_fast/binary_changeset.py:207-243 | Which line numbers are read, from the line map or the line fields, and when they are missing |
| Reading.RangeMeans | src/simplicio_fast/binary_changeset.py:200-259 | A replacement has no byte offsets, an encoding, line numbers and their digest if it names one; other types have no line numbers |
| Reading.PayloadMeans | src/simplicio_fast/binary_changeset.py:260-271 | What each type must carry, and the error where it does not |
| Reading.OperationReadsIff | src/simplicio_fast/binary_changeset.py:168-276 | A record reads as an operation exactly when it describes that operation, field by field |
| Reading.ConstructIff | src/simplicio_fast/binary_changeset.py:318-359 | The constructor returns its argument with the paths normalised, sorted and without repetitions, exactly when nothing is missing and every path of every operation is among them |
| Reading.ConstructFails | src/simplicio_fast/binary_changeset.py:318-359 | The first reason why the constructor refuses its argument |
| Reading.ChangeSetReadsIff | src/simplicio_fast/binary_changeset.py:362-414 | A record reads as a change set exactly when it describes one that may be built, and names no id or that of what is built |
| ChangeSetCodec.DecodeRecords | src/simplicio_fast/binary_changeset.py:616-636 | The loop with its moving offset reads exactly the records of the section |
| ChangeSetCodec.FramesParse | src/simplicio_fast/binary_changeset.py:525-540 | Framed payloads parse back to their values |
| ChangeSetCodec.ParsedIsFrames | src/simplicio_fast/binary_changeset.py:616-636 | Whatever parses is the framing of some payloads |
| ChangeSetCodec.HeadRecordMeans | src/simplicio_fast/binary_changeset.py:616-630 | A record is its length, that many bytes and their SHA-256; it is truncated exactly when the section ends before that |
| ChangeSetCodec.SectionsIff | src/simplicio_fast/binary_changeset.py:596-614 | Which files have sections, and which: magic, version, the lengths, and the SHA-256 of all that follows |
| ChangeSetCodec.SectionsFail | src/simplicio_fast/binary_changeset.py:596-614 | Which error the other files raise |
| ChangeSetCodec.HeaderBinds | src/simplicio_fast/binary_changeset.py:596-614 | Two accepted files with the same 54 header bytes are equal, or their bodies collide |
| ChangeSetCodec.DecodeMeans | src/simplicio_fast/binary_changeset.py:615-638 | Which of metadata, records and fields is at fault, given the sections |
| ChangeSetCodec.EncodeIff | src/simplicio_fast/binary_changeset.py:525-540 | A change set is written exactly when its metadata, each operation, their number and all records together fit 32 bits |
| ChangeSetCodec.EncodeDecode | src/simplicio_fast/binary_changeset.py:525-638 | Decoding an encoded change set gives the same identity and id if and only if no binding is blank |
| ChangeSetCodec.BlankBinding | src/simplicio_fast/binary_changeset.py:318-416 | A constructed change set with one binding made blank is still constructed, and its encoding does not decode |
| ChangeSetCodec.AcceptedIsPrefixFree | src/simplicio_fast/binary_changeset.py:596-614 | No accepted file is a strict prefix of another |
| ChangeSetCodec.EncodingIsExact | src/simplicio_fast/binary_changeset.py:596-614 | No strict prefix or extension of an encoding is accepted |
| ChangeSetValidate.ValidateOperations | src/simplicio_fast/binary_changeset.py:458-516 | The loop over the operations with its overlay computes the simulation, hence (`SimulationRefines`) the statuses or the error of the operations one after another on the tree, each of which `Acceptance` gives in plain conditions |
| ChangeSetValidate.ReplaceKeepsTheRest | src/simplicio_fast/binary_changeset.py:569-593 | A replacement changes exactly the mapped lines and keeps the text before and behind them |
| ChangeSetValidate.SimulationRefines | src/simplicio_fast/binary_changeset.py:458-516 | Simulating on the overlay gives the statuses or the error of performing the operations on the tree |
| Acceptance.UnixNewlinesMeans | src/simplicio_fast/binary_changeset.py:143-148 | The normalised text has one line feed for each CR LF and each other CR |
| Acceptance.MatchesMeans | src/simplicio_fast/binary_changeset.py:143-152 | Content matches a hash that is its digest, or the digest of its text with single line feeds |
| Acceptance.CreateOn | src/simplicio_fast/binary_changeset.py:462-470 | A create is ready exactly on an absent path, done on content with its after-hash, and refused otherwise |
| Acceptance.ReplaceOn | src/simplicio_fast/binary_changeset.py:471-483 | A replacement is done on content with its after-hash, ready exactly on content with its before-hash whose replacement has the after-hash, and which error it raises otherwise |
| Acceptance.RenameOn | src/simplicio_fast/binary_changeset.py:484-507 | A rename is ready exactly where the content has the before-hash and the destination is absent, done exactly where the source is absent and the destination has the after-hash |
| Acceptance.DeleteOn | src/simplicio_fast/binary_changeset.py:508-516 | A delete is ready exactly on content with its before-hash, done where the path is absent, and stale otherwise |
| Acceptance.ValidateIff | src/simplicio_fast/binary_changeset.py:438-523 | Validation accepts exactly the change sets of this repository, and of the lease and token if the caller names any, whose operations can be performed one after another, and reports what that reports; otherwise the first fault |
| Acceptance.LossIsSeen | src/simplicio_fast/binary_changeset.py:458-516 | What one operation removes or overwrites is the content of its own path and had its before-hash |
| Acceptance.NothingLostUnseen | src/simplicio_fast/binary_changeset.py:458-516 | Whatever a list of operations removes or overwrites was found unchanged by an operation on that path and had the before-hash of that operation |
| Replacing.SplitLinesIff | src/simplicio_fast/binary_changeset.py:577 | The lines of a text are the only way to cut it behind its line breaks |
| Replacing.ReplacementMeans | src/simplicio_fast/binary_changeset.py:581-591 | The inserted text is the payload, closed where the last replaced line was, with the line breaks of the file |
| Replacing.ReplaceMeans | src/simplicio_fast/binary_changeset.py:569-593 | Which replacements can be made, and what they give or raise |
| ChangeSetValidate.PerformedIsSettled | src/simplicio_fast/binary_changeset.py:460-516 | After an operation its own path reads as idempotent exactly when its hashes were honest |
| ChangeSetValidate.RevalidationIsIdempotent | src/simplicio_fast/binary_changeset.py:438-523 | With disjoint paths, validation after performing accepts and reports all idempotent if and only if every operation was honest |
| ChangeSetValidate.DisjointAt | src/simplicio_fast/binary_changeset.py:458-516 | With disjoint paths every operation runs as if alone, and what it leaves on its own paths is there at the end |
| ChangeSetValidate.RevalidationAcceptsIff | src/simplicio_fast/binary_changeset.py:438-523 | With disjoint paths and payloads present, validation after performing accepts at all if and only if every operation was honest |
| ChangeSetValidate.ChainedReplaceIff | src/simplicio_fast/binary_changeset.py:471-483 | For any list of replacements of one file, validation after performing reports all idempotent if and only if the final content matches every after-hash |
| ChangeSetValidate.ChainedReplaceGoesStale | src/simplicio_fast/binary_changeset.py:438-523 | For two ready replacements of one file: all idempotent afterwards if and only if the final content matches the first after-hash, the first one stale if and only if it matches neither of its hashes, and then validation refuses |
| ChangeSetValidate.ChainedReplaceAcceptsIff | src/simplicio_fast/binary_changeset.py:471-483 | After two ready replacements of one file validation accepts if and only if the final content takes the first one again and, unless that finds its work done, the result takes the second one again |
| ChangeSetValidate.DishonestCreate | src/simplicio_fast/binary_changeset.py:460-470 | For every lawful codec, a well-formed create under another after-hash than its content's is ready, is performed, and is then refused |
| ChangeSetValidate.ChainedReplaceInstance | src/simplicio_fast/binary_changeset.py:438-523 | For every lawful codec and any three one-line files with different digests, well-formed edits of one into the next and that into the third are ready, and stale once performed |
| Journal.ReadEvents | src/simplicio_fast/binary_changeset.py:690-732 | The loop with its moving offset reads the events of the file, or the first error; `ReadSucceedsIff` and `ReadFailsIff` say byte by byte which |
| Journal.ReadTorn | src/simplicio_fast/binary_changeset.py:690-732 | A file cut anywhere behind the header reads in recovery as its whole frames, and strictly only when cut between frames |
| Journal.CompleteIsLongest | src/simplicio_fast/binary_changeset.py:779-805 | The kept events are the longest prefix whose frames survived |
| Journal.RecoverableIffHeader | src/simplicio_fast/binary_changeset.py:684-690 | A cut file is recoverable exactly when the cut spares the 9-byte header |
| Journal.BinaryChangeJournal.constructor | src/simplicio_fast/binary_changeset.py:667-673 | A journal object over any file, which it does not read; over no file, or one that appending built and a crash may have torn, it holds what was recorded |
| Journal.OpenJournal | src/simplicio_fast/binary_changeset.py:667-673 | Refuses exactly the worktree names that are not one component, and otherwise opens the journal on whatever is there without reading it; on a file that appending built it is valid, and recoverable if a crash tore that |
| Journal.BinaryChangeJournal.Read | src/simplicio_fast/binary_changeset.py:684-732 | Reads the file, absent or not: the events of `ReadSucceedsIff` or the error of `ReadFailsIff` |
| Journal.BinaryChangeJournal.ReadWhole | src/simplicio_fast/binary_changeset.py:684-732 | On a whole file the strict reader returns exactly the recorded events |
| Journal.BinaryChangeJournal.FindRecorded | src/simplicio_fast/binary_changeset.py:748-753 | Finds an event with this change set and state exactly when one is recorded |
| Journal.BinaryChangeJournal.EnsureHeader | src/simplicio_fast/binary_changeset.py:675-682 | Writes the header only when there is no file |
| Journal.BinaryChangeJournal.Append | src/simplicio_fast/binary_changeset.py:734-777 | Extends the chain by one event, which records number, ids, binary digest, authority, state and evidence, unless the change set is recorded in that state; refuses only a foreign worktree, lease or token, in that order, or a length that does not fit, and then records nothing |
| Journal.BinaryChangeJournal.Write | src/simplicio_fast/binary_changeset.py:754-777 | Writes a new event in full, linked to the last one, with the next sequence number |
| Journal.BinaryChangeJournal.WriteFrame | src/simplicio_fast/binary_changeset.py:767-776 | The frame goes behind the bytes that are there |
| Journal.BinaryChangeJournal.Tear | src/simplicio_fast/binary_changeset.py:773-776 | A crash leaves some prefix of the file |
| Journal.BinaryChangeJournal.Recover | src/simplicio_fast/binary_changeset.py:779-805 | Keeps exactly the longest complete prefix of events; the strict reader then succeeds and the journal is valid again |
| Journal.BinaryChangeJournal.ValidEnd | src/simplicio_fast/binary_changeset.py:789-792 | The recomputed end is the end of the last whole frame |
| JournalReading.ReadSucceedsIff | src/simplicio_fast/binary_changeset.py:684-732 | A byte string is read as these events exactly when it holds the header and their frames, each event naming the record hash before it, its own record hash being the digest of that and its other fields and the frame's last 32 bytes, with the journal's own worktree, lease and token, and ends there or, in recovery, in a frame that is cut short |
| JournalReading.ReadFailsIff | src/simplicio_fast/binary_changeset.py:684-732 | The error of every other byte string: that of the first frame that is not so |
| JournalReading.ReadIsHashChain | src/simplicio_fast/binary_changeset.py:707-732 | Whatever is read, the events form a chain of record hashes from 64 zeros |
| JournalReading.LastHashBinds | src/simplicio_fast/binary_changeset.py:707-732 | Two files read with the same last record hash hold the same events, or two events' materials collide, or lengths differ and a digest is 64 zeros |
| Materialize.TurnKeepsInv | src/simplicio_fast/binary_changeset.py:985-1201 | Every command keeps the journal equal to what was logged and every change set's actions safe |
| Materialize.AttemptStops | src/simplicio_fast/binary_changeset.py:1025-1041 | The adapter is called exactly when the journal has the authority, the tree validates, the sealed event can be written and something is left to do; what is written and answered otherwise |
| Materialize.ReportDecides | src/simplicio_fast/binary_changeset.py:1041-1109 | What is written and answered for each report of the adapter, each tree, and each event that can or cannot be written |
| Materialize.RunKeepsInv | src/simplicio_fast/binary_changeset.py:985-1201 | So does every run, with any adapter reports, edits and unwritable lengths |
| Materialize.TerminalIsLast | src/simplicio_fast/binary_changeset.py:994-1011 | In every run an applied or idempotent event is its change set's last action, hence the only one |
| Materialize.UnknownLocks | src/simplicio_fast/binary_changeset.py:1012-1024 | In every run no adapter call follows a recorded unknown event before it is reconciled as not applied |
| Materialize.UnknownLocksIff | src/simplicio_fast/binary_changeset.py:734-777 | After an attempt that called the adapter with unknown effect the change set is locked if and only if no earlier unknown event of it is recorded and this one can be written |
| Materialize.UnwrittenUnknownDoesNotLock | src/simplicio_fast/binary_changeset.py:767-776 | For every change set that is valid and not idempotent, a run whose unknown event is too long to write: the command raises and the next attempt calls the adapter again |
| Materialize.SecondUnknownDoesNotLock | src/simplicio_fast/binary_changeset.py:748-753 | For every change set that is valid and not idempotent, a run whose third attempt calls the adapter after an unreconciled unknown effect |
| Materialize.AppliedMeansValid | src/simplicio_fast/binary_changeset.py:1041-1070 | After the adapter returns, whatever it did, applied is recorded if the tree still validates and rejected otherwise |
| Materialize.AppliedIffHonest | src/simplicio_fast/binary_changeset.py:1025-1109 | For well-formed operations on disjoint paths that the adapter performs, applied is recorded if and only if every operation is honest, if and only if all are idempotent afterwards; otherwise rejected is recorded although they were performed |
| Materialize.ChainedEditsAreRejected | src/simplicio_fast/binary_changeset.py:1025-1109 | Two faithfully performed chained edits end materialised, and applied is recorded, if and only if the final content takes the first one again and, unless that finds its work done, the result takes the second one again; otherwise rejected is recorded although the tree was changed. They are idempotent if and only if the final content matches the first after-hash, and a chain that ends where it began is materialised |
| Materialize.Workspace.constructor | src/simplicio_fast/binary_changeset.py:985-993 | A workspace over any valid journal starts with its events as history |
| Materialize.Workspace.Record | src/simplicio_fast/binary_changeset.py:734-777 | One append adds the event to log and history unless it is there; which errors are possible |
| Materialize.Workspace.RecordNext | src/simplicio_fast/binary_changeset.py:1027-1059 | The same seen from the start of the turn |
| Materialize.Workspace.FindPrevious | src/simplicio_fast/binary_changeset.py:995-1002 | The reverse search returns the state of the change set's last event |
| Materialize.Workspace.Reject | src/simplicio_fast/binary_changeset.py:1096-1109 | A rejection is recorded unless the journal refuses it |
| Materialize.Workspace.CallAdapter | src/simplicio_fast/binary_changeset.py:1041-1095 | From the adapter call on: what is logged and answered for every report and every tree left behind |
| Materialize.Workspace.EditTree | src/simplicio_fast/binary_changeset.py:1041 | Other tools may leave any tree, and nothing else changes |
| Materialize.Workspace.Crash | src/simplicio_fast/binary_changeset.py:773-805 | A crash and a recovery between commands leave exactly the events whose frames survived |
| Materialize.Workspace.Attempt | src/simplicio_fast/binary_changeset.py:1025-1095 | From the validation on: what is sealed, concluded, rejected or left to the adapter |
| Materialize.Workspace.Settle | src/simplicio_fast/binary_changeset.py:1042-1109 | What follows each report of the adapter |
| Materialize.Workspace.Materialize | src/simplicio_fast/binary_changeset.py:985-1109 | The whole command makes exactly the turn of the state machine, and keeps its invariant where it holds |
| Materialize.Workspace.Reconcile | src/simplicio_fast/binary_changeset.py:1112-1201 | The whole command makes exactly the turn of the state machine, whose decision `ReconcileIff` gives on the tree, and keeps its invariant where it holds |
| Reconciliation.ReconcileIff | src/simplicio_fast/binary_changeset.py:1150-1201 | On a locked change set applied is logged if and only if performing the operations on the tree finds all done, reconciled if and only if it finds one still to do, given authority and a new event that can be written; otherwise nothing is logged, and exactly then it stays locked |
| Reconciliation.UnlockedIsLeftAlone | src/simplicio_fast/binary_changeset.py:1121-1149 | A change set that is not locked is left alone, and what is answered |
| Reconciliation.ReconcileInRun | src/simplicio_fast/binary_changeset.py:1112-1201 | In every run, with authority and a writable event, the lock ends if and only if the operations can be performed on the tree |
| Reconciliation.UnlockedOnlyByAcceptance | src/simplicio_fast/binary_changeset.py:1012-1201 | In every run an adapter call after an unknown event comes after a reconciliation, directly behind that event, on a tree on which the operations could be performed with one still to do |
| MaterializeCrash.LiveInv | src/simplicio_fast/binary_changeset.py:734-1201 | In every run with crashes between commands every action was allowed by the journal of its time |
| MaterializeCrash.TerminalUnlessLost | src/simplicio_fast/binary_changeset.py:994-1011 | In every run with crashes, between a terminal event and any later action of its change set lies a crash that its frame did not survive |
| MaterializeCrash.LockedUnlessLost | src/simplicio_fast/binary_changeset.py:1012-1024 | In every run with crashes, between an unknown event and a later adapter call lies its reconciliation or a crash that its frame did not survive |
| MaterializeCrash.CrashReopensIff | src/simplicio_fast/binary_changeset.py:994-1041 | After a crash the next attempt calls the adapter if and only if the frame of the terminal or unknown event was lost and what survives before it does not lock |
| MaterializeCrash.CrashUnlocksIff | src/simplicio_fast/binary_changeset.py:1012-1041 | After a crash the next attempt of a change set locked by its first unknown event calls the adapter if and only if that event's frame was lost |
| MaterializeCrash.CrashUnlocks | src/simplicio_fast/binary_changeset.py:1012-1041 | For every change set that is valid and not idempotent, a run in which a crash loses the unknown event and the next attempt calls the adapter |
| Recency.BoundedMemory | src/simplicio_fast/decision_cache.py:257-266 | A bounded store holds a key exactly when fewer than its capacity of other keys entered since that key last did |
| DecisionCache.StepInv | src/simplicio_fast/decision_cache.py:257-629 | Every operation keeps the invariant, and changes the entry of every digest as the operation's rule says |
| DecisionCache.RunInv | src/simplicio_fast/decision_cache.py:257-629 | Every reachable state: four bounded stores, entries of the active generation only and disjoint from the other three stores |
| DecisionCache.EntryIsLatestStore | src/simplicio_fast/decision_cache.py:343-415 | Every reachable entry is what the latest store of its digest gave; without one there is no entry |
| DecisionCache.LatestStoreMeaning | src/simplicio_fast/decision_cache.py:268-281 | The latest store is the put after which no store, invalidation, matching drift, quarantine, disabling, contradiction, eviction or switch happened |
| DecisionCache.HitIsLatestStore | src/simplicio_fast/decision_cache.py:417-510 | In every run a lookup hits exactly when there is a latest store of its generation whose expectation has the observed value in every field that both have, and returns that decision |
| DecisionCache.LookupDecides | src/simplicio_fast/decision_cache.py:478-510 | A lookup that finds an entry hits exactly when expectation and observation agree on every field that both have; otherwise it answers with exactly the fields that differ, the entry is gone and its key quarantined |
| DecisionCache.LookupWithout | src/simplicio_fast/decision_cache.py:428-477 | How a lookup answers where there is no entry: what blocks the key, why its entry went, or that there was none |
| DecisionCache.DriftDropsIff | src/simplicio_fast/decision_cache.py:532-582 | A drift drops exactly the entries of the key's generation that equal it in every dimension not listed and differ in a listed one |
| DecisionCache.DriftRefused | src/simplicio_fast/decision_cache.py:540-554 | A drift over no dimension, or with one listed twice, is refused and changes nothing |
| DecisionCache.RemovalsMean | src/simplicio_fast/decision_cache.py:512-629 | Invalidation, quarantine and disabling answer whether there was an entry, which is gone, and remember why in their own store |
| DecisionCache.LeastRecentFirst | src/simplicio_fast/decision_cache.py:388-404 | In every run the key order is the order of last store or hit |
| DecisionCache.EvictionIsLeastRecent | src/simplicio_fast/decision_cache.py:388-404 | What is evicted was stored or hit before every other entry |
| DecisionCache.BlockOrders | src/simplicio_fast/decision_cache.py:584-629 | The quarantine and disabling stores remember their keys as bounded stores since the last switch |
| DecisionCache.BlockedIffRetained | src/simplicio_fast/decision_cache.py:369-500 | A key is blocked for put and lookup exactly while fewer than `max_entries` other keys entered the same store since; a blocked key never hits |
| DecisionCache.QuarantineCanBeForgotten | src/simplicio_fast/decision_cache.py:584-603 | With capacity 1 a second quarantine lets the first key hit again |
| DecisionCache.RunBalanced | src/simplicio_fast/decision_cache.py:388-629 | In every run stores = size + evictions + invalidations + replacements, and hits + misses + contradictions = lookups + refused puts |
| DecisionCache.RunBlocks | src/simplicio_fast/decision_cache.py:478-629 | In every run each quarantine that is counted was asked for or follows from a contradiction, and each disabling was asked for |
| DecisionCache.ActivationMeans | src/simplicio_fast/decision_cache.py:319-341 | Activating the active generation changes nothing; another one drops every entry and block, counts the entries and returns their digests in order |
| DecisionCache.Cache.constructor | src/simplicio_fast/decision_cache.py:217-246 | A new cache is the initial state, or the one after activating the generation it is given |
| DecisionCache.Cache.Remember | src/simplicio_fast/decision_cache.py:257-266 | The loop of `_remember` computes the bounded store |
| DecisionCache.Cache.ClearGenerationLocked | src/simplicio_fast/decision_cache.py:268-281 | Clears all four stores and returns the dropped digests in order |
| DecisionCache.Cache.ActivateGeneration | src/simplicio_fast/decision_cache.py:319-341 | Makes exactly the activation step of the state machine |
| DecisionCache.Cache.EvictOldest | src/simplicio_fast/decision_cache.py:395-403 | The eviction loop drops the oldest entries and remembers why |
| DecisionCache.Cache.PutDecision | src/simplicio_fast/decision_cache.py:343-415 | Makes exactly the put step of the state machine |
| DecisionCache.Cache.StoreLocked | src/simplicio_fast/decision_cache.py:388-415 | The storing half of `put` |
| DecisionCache.Cache.LookupDecision | src/simplicio_fast/decision_cache.py:417-510 | Makes exactly the lookup step, which `LookupDecides` and `LookupWithout` spell out, and a hit returns the decision of the latest store in the history |
| DecisionCache.Cache.InvalidateKey | src/simplicio_fast/decision_cache.py:512-530 | Makes exactly the invalidation step |
| DecisionCache.Cache.InvalidateDrift | src/simplicio_fast/decision_cache.py:532-582 | Makes exactly the drift step |
| DecisionCache.Cache.DropDrifted | src/simplicio_fast/decision_cache.py:555-573 | The loop drops exactly the entries that drifted, oldest first, and remembers why |
| DecisionCache.Cache.QuarantineKey | src/simplicio_fast/decision_cache.py:584-603 | Makes exactly the quarantine step |
| DecisionCache.Cache.DisableForRegression | src/simplicio_fast/decision_cache.py:605-629 | Makes exactly the disabling step |
| ContextView.GatherIff | src/simplicio_fast/context_view.py:684-692 | Items are accepted exactly when each is valid and no handle means two items; the accepted ones are those given, once each |
| ContextView.GatherItems | src/simplicio_fast/context_view.py:684-692 | The loop with its dictionary by handle computes that, with the first error |
| ContextView.NormalizedIgnoresOrder | src/simplicio_fast/context_view.py:684-702 | Permuting or repeating the items changes neither acceptance nor the normal form |
| ContextView.SelectItems | src/simplicio_fast/context_view.py:588-671 | The loop with its running totals computes the selection |
| ContextView.SelectSound | src/simplicio_fast/context_view.py:588-671 | The selection keeps node, byte and token budgets, accounts for every eligible item, omits only what would exceed a budget, and is ordered by priority |
| ContextView.NoPriorityInversion | src/simplicio_fast/context_view.py:592-611 | What is omitted did not fit even behind only those records that precede it by priority |
| ContextView.SelectVisible | src/simplicio_fast/context_view.py:554-560 | Every record is a redacted item the stage may see; review stages get no implementer prompt or implementer-only item |
| ContextView.QualityMeans | src/simplicio_fast/context_view.py:632-671 | Coverage is the share of eligible items selected, fidelity is whole exactly when nothing is omitted or abstained from, and a selection abstains exactly when it is empty or a review stage has no evidence |
| ContextView.GetKeepsInv | src/simplicio_fast/context_view.py:465-485 | A lookup keeps the cache invariant, hits exactly on a present entry before its expiry, and finds nothing tampered |
| ContextView.PutEvictsLeastRecent | src/simplicio_fast/context_view.py:487-509 | A put keeps what it stores and evicts, only when full, the one entry stored or hit before all others |
| ContextView.PutKeepsInv | src/simplicio_fast/context_view.py:487-509 | A put keeps capacity, checksums, distinct places in the order of access, and the lookup accounting |
| ContextView.RestartKeepsInv | src/simplicio_fast/context_view.py:427-463 | Opening what a cache persisted succeeds, keeps the invariant, and every lookup then gives what it gave before |
| ContextView.ReachedInv | src/simplicio_fast/context_view.py:427-515 | Every cache that calls, clearing and restarts lead to satisfies that invariant |
| ContextView.CacheIsTransparent | src/simplicio_fast/context_view.py:673-710 | In every run from an empty cache, restarts included, hit or miss, the view holds what direct selection gives, or an earlier call collides in a digest |
| ContextView.IssuedViewVerifiesIff | src/simplicio_fast/context_view.py:673-818 | What `materialize` returns verifies for its own request and authority, for others if and only if their digests and the checked fields agree, and with other content under its hash only when the two contents collide in their digest |
| ContextView.ReviewerIsIsolated | src/simplicio_fast/context_view.py:554-560 | In every run without digest collisions no cached or fresh review-stage view holds implementer-only content |
| ViewMeaning.AcceptedIff | src/simplicio_fast/context_view.py:523-552 | Which calls get as far as a selection: those with the authority's digest, fence and capability, whose items are untampered, of the generation and overlay asked for, inside the allowed roots, and one for each handle |
| ViewMeaning.FirstItemAtFault | src/simplicio_fast/context_view.py:684-692 | A call fails with what is wrong with its first faulty item |
| ViewMeaning.PermitsMeans | src/simplicio_fast/context_view.py:152-160 | A path is permitted exactly when it is a root or below one, or everything is allowed |
| ViewMeaning.SeenIff | src/simplicio_fast/context_view.py:554-560 | Who sees an item: no reviewer what is the implementer's, no one else what is the reviewer's |
| ViewMeaning.SelectedInOrder | src/simplicio_fast/context_view.py:592-600 | Records come by kind, then relevance, then handle |
| ViewMeaning.RecordIsItem | src/simplicio_fast/context_view.py:554-616 | Every record is an item that the stage may see, its content redacted and nothing else changed |
| ViewMeaning.CountsMean | src/simplicio_fast/context_view.py:612-650 | How many records were redacted and how many are evidence |
| ViewMeaning.ScopeMeans | src/simplicio_fast/context_view.py:563-586 | What the cache key digests: the task and attempt only where an item belongs to an overlay |
| ViewMeaning.ViewSays | src/simplicio_fast/context_view.py:710-785 | A view reports what it reused exactly when its key was held and not expired, and its handle is the prefix with 32 characters of a digest |
| ViewMeaning.GetAnswers | src/simplicio_fast/context_view.py:465-485 | An entry answers strictly before it expires, unless its checksum is not that of its payload |
| ContextView.ViewIgnoresOrder | src/simplicio_fast/context_view.py:673-710 | Permuting or repeating the items changes neither the view nor the cache |
| ContextView.FindVictim | src/simplicio_fast/context_view.py:499-505 | The loop finds the minimum by place of access, then key |
| ContextView.OpenCache | src/simplicio_fast/context_view.py:402-453 | Without a file the cache is empty; otherwise it takes over the persisted entries, and refuses them all exactly when the file is no cache or an entry is not intact |
| ContextView.FindLastPlace | src/simplicio_fast/context_view.py:441-445 | The loop finds the last place in the order of access |
| ContextView.ContextViewCache.constructor | src/simplicio_fast/context_view.py:402-424 | A cache object over the entries and the place it is given, with zero metrics |
| ContextView.ContextViewCache.Persist | src/simplicio_fast/context_view.py:455-463 | Writes the entries if there is a file |
| ContextView.ContextViewCache.Get | src/simplicio_fast/context_view.py:465-485 | Makes exactly the lookup step, expiry, checksum and place included, and keeps the file in step |
| ContextView.ContextViewCache.Put | src/simplicio_fast/context_view.py:487-509 | Stores, then trims by removing victims one at a time |
| ContextView.ContextViewCache.Clear | src/simplicio_fast/context_view.py:511-514 | Drops the entries and keeps the metrics |
| ContextView.ContextViewService.Materialize | src/simplicio_fast/context_view.py:673-710 | Makes exactly one step of the service over its cache: the whole view with its handle, digests and provenance, or the first error |
| ContentCache.Cache.constructor | src/simplicio_fast/content_cache.py:23-27 | A new cache is empty |
| ContentCache.Cache.BeginGet | src/simplicio_fast/content_cache.py:29-48 | `get` up to its first await |
| ContentCache.Cache.FinishCompute | src/simplicio_fast/content_cache.py:40-45 | The end of a successful compute |
| ContentCache.Cache.EndFlight | src/simplicio_fast/content_cache.py:49-52 | The launcher's clean-up |
| ContentCache.Cache.Invalidate | src/simplicio_fast/content_cache.py:54-60 | Drops exactly the entries that depend on a changed name, and returns them in order |
| ContentCache.Cache.Receipt | src/simplicio_fast/content_cache.py:62-67 | Whatever run led to the state, `requests` is the number of calls exactly when the dropped entries match the failed and running computes |
| ContentCache.StepKeepsInv | src/simplicio_fast/content_cache.py:29-60 | Every step of every caller and task keeps the single-flight invariant |
| ContentCache.RunInv | src/simplicio_fast/content_cache.py:29-60 | So does every interleaving |
| ContentCache.SingleFlight | src/simplicio_fast/content_cache.py:36-52 | In every interleaving a key has one launcher and one running compute at most, is in flight exactly while its launcher waits, and values and dependencies have the same keys |
| ContentCache.LauncherRemovesOwnFlight | src/simplicio_fast/content_cache.py:49-52 | A waking launcher removes its own flight and no other |
| ContentCache.NeverStuck | src/simplicio_fast/content_cache.py:36-52 | A waiting caller can wake, or its task can still end |
| ContentCache.GetReturnsF | src/simplicio_fast/content_cache.py:29-52 | When compute is a function of the key, every successful `get` returns its value |
| ContentCache.HitIffHeld | src/simplicio_fast/content_cache.py:30-60 | A `get` hits exactly when the key was stored and nothing it depends on was invalidated since; nothing is ever found corrupt |
| ContentCache.LaunchesApart | src/simplicio_fast/content_cache.py:36-60 | Between two computes of a key lies a failure or an invalidation that dropped it |
| ContentCache.RunLanded | src/simplicio_fast/content_cache.py:40-52 | In every interleaving a key that has a value while in flight got it from that flight |
| ContentCache.RecomputesIff | src/simplicio_fast/content_cache.py:29-60 | In every interleaving, after an invalidation the next `get` launches a compute if and only if the key is not in flight and its value, if any, was dropped; a dropped key in flight is joined and its task still holds the dropped value |
| ContentCache.DroppedValueReturns | src/simplicio_fast/content_cache.py:36-60 | A run in which a `get` after the invalidation returns the dropped value |
| ContentCache.DroppedStaysDropped | src/simplicio_fast/content_cache.py:29-60 | In every run, once an invalidation dropped a key that is not in flight, every later `get` of it that returns gives what a task launched after it computed |
| ContentCache.InvalidationMissesFlight | src/simplicio_fast/content_cache.py:40-60 | However many invalidations come during a running compute, what it stores is held and hit afterwards |
| ContentCache.RunAccounts | src/simplicio_fast/content_cache.py:29-60 | Every call is a hit, coalesced or a launch; every launch a miss, a failure or still running |
| ContentCache.RequestsAreCallsIff | src/simplicio_fast/content_cache.py:62-67 | The receipt's `requests` is the number of calls exactly when the dropped entries match the failed and running computes |
| ContentCache.RequestsMiscount | src/simplicio_fast/content_cache.py:62-67 | A run with a failed compute whose call is not counted, and one with a dropped entry that is counted as a request |
| Delta.CreateDelta | src/simplicio_fast/delta.py:386-432 | Computes the difference of base and current digests; or names the least requested path that is neither on disk nor in the base, and exactly when there is one |
| Delta.ComposedSourceHashes | src/simplicio_fast/delta.py:536-545 | The loop over the changes computes the patched digests |
| Delta.ValidateComposed | src/simplicio_fast/delta.py:337-367 | Passes exactly when nothing differs; otherwise names the least path that does, as stale if listed and unlisted if not |
| Delta.Handoff | src/simplicio_fast/delta.py:586-704 | An error exactly when a delta that is not an empty scoped one differs, naming the least path, stale if listed; full parity is equality with the snapshot compared with, scoped parity with the current sources; the counts |
| Delta.FullDeltaRestores | src/simplicio_fast/delta.py:370-545 | Patching the base with its full delta gives exactly the current tree |
| Delta.ScopedDeltaRestores | src/simplicio_fast/delta.py:370-545 | A scoped delta gives the current digests on its scope and the base elsewhere |
| Delta.DiffIsSmallest | src/simplicio_fast/delta.py:413-432 | Every other set of changes that restores the tree contains the delta |
| Delta.FreshIffSame | src/simplicio_fast/delta.py:337-367 | A delta validates on a later tree exactly when the digests in scope are those it was made from |
| Delta.NoMismatchIffEqual | src/simplicio_fast/delta.py:356-366 | Full validation passes exactly when current and composed digests are equal |
| Delta.ReuseAndParse | src/simplicio_fast/delta.py:674-704 | The composed size is `cache_reuse` plus `files_parsed` |
| Catalog.RegisterKeepsInvIff | src/simplicio_fast/catalog.py:121-153 | A successful registration keeps both maps in step if and only if it does not take the handle of its canonical id in another namespace |
| Catalog.RegisterDecides | src/simplicio_fast/catalog.py:121-153 | An identity that is held is confirmed exactly when payload digest and source are those it was registered with, a new one is refused exactly when its handle is held by another canonical id, and otherwise it is held and nothing else changes |
| Catalog.ContentStands | src/simplicio_fast/catalog.py:121-272 | In every run an identity keeps the payload, source, segment and handle it was first registered with |
| Catalog.ShadowedRegistration | src/simplicio_fast/catalog.py:121-153 | With one handle for an id in two namespaces both registrations succeed and the first handle then means the second entry |
| Catalog.RegisterCommutes | src/simplicio_fast/catalog.py:99-153 | Registrations of different identities and handles commute |
| Catalog.FirstRegistrationStands | src/simplicio_fast/catalog.py:122-132 | Registering an identity again changes nothing; what is returned has the requested segment and state exactly when the identity is new or was registered with them |
| Catalog.RegisterAllMeans | src/simplicio_fast/catalog.py:99-153 | Registrations with different identities and handles succeed exactly when each is well-formed, and are all held |
| Catalog.RegistrationOrderIsIrrelevant | src/simplicio_fast/catalog.py:99-153 | The catalog does not depend on the order in which they arrive |
| Catalog.ResolvesIff | src/simplicio_fast/catalog.py:155-196 | A handle resolves exactly to its own active entry when every guard given agrees |
| Catalog.TombstoneKeepsInv | src/simplicio_fast/catalog.py:250-272 | A tombstone keeps both maps in step |
| CatalogMeaning.TombstoneMeans | src/simplicio_fast/catalog.py:250-272 | A tombstone changes the state of the handle's entry, in both maps, and nothing else; which states and handles are refused |
| Catalog.NeverRevived | src/simplicio_fast/catalog.py:99-272 | In every run without shadowing a handle keeps its entry in all but its state, and once inactive never becomes active again |
| Catalog.AddressCatalog.constructor | src/simplicio_fast/catalog.py:79-86 | A new catalog is empty, with its path resolved |
| Catalog.AddressCatalog.Register | src/simplicio_fast/catalog.py:99-153 | Makes exactly the registration, counts a collision, and changes nothing when it raises |
| Catalog.AddressCatalog.Tombstone | src/simplicio_fast/catalog.py:250-272 | Makes exactly the state change, and changes nothing when it raises |
| Catalog.AddressCatalog.Resolve | src/simplicio_fast/catalog.py:155-196 | The guards in their order |
| Catalog.AddressCatalog.ResolveManyBounded | src/simplicio_fast/catalog.py:203-248 | The longest run of handles within both budgets, truncated exactly when handles remain, or the first error |
| CatalogCodec.RecordBack | src/simplicio_fast/catalog.py:318-342 | A record parses back to its texts and payload, with the bytes behind it untouched |
| CatalogMeaning.AcceptIff | src/simplicio_fast/catalog.py:390-411 | A record is taken in exactly when its handle is the one its identity gets, its digest is that of its payload and it can be registered, and otherwise the first of these is the error |
| CatalogMeaning.EncodeIff | src/simplicio_fast/catalog.py:308-343 | A catalog is written exactly when its names, the number of its entries, and every text and payload fit their length fields |
| CatalogMeaning.HeaderFails | src/simplicio_fast/catalog.py:346-386 | How the header of a file is refused |
| CatalogMeaning.OpenedMeans | src/simplicio_fast/catalog.py:372-389 | A file opens the catalog of the repository and generation it names; a caller who names others is refused |
| Catalog.RunKeepsWeakInv | src/simplicio_fast/catalog.py:99-272 | In every run, shadowing or not, every entry under a handle is well-formed and the one under its identity |
| CatalogCodec.RoundTripIff | src/simplicio_fast/catalog.py:308-414 | What is written reads back as the same catalog, states included, if and only if it is within the reader's limits and no entry has lost its handle; within the limits it reads back as the entries that own their handle |
| CatalogCodec.ReachedRoundTripIff | src/simplicio_fast/catalog.py:99-414 | So it is for every catalog that registrations and tombstones lead to |
| CatalogCodec.OversizedCatalog | src/simplicio_fast/catalog.py:308-356 | A registered entry with a payload over 64 MiB is written and the file is refused |
| CatalogCodec.BytesAreCanonical | src/simplicio_fast/catalog.py:318-343 | The bytes depend on the catalog alone |
| CatalogCodec.AcceptedIsPrefixFree | src/simplicio_fast/catalog.py:346-414 | No strict extension of an accepted file is accepted, hence no strict prefix |
| CatalogCodec.ToBytes | src/simplicio_fast/catalog.py:308-343 | The loop over the sorted entries writes exactly the encoding |
| CatalogCodec.FromBytes | src/simplicio_fast/catalog.py:346-414 | The loop with its cursor rebuilds exactly the decoded catalog, or raises its error |
| CatalogCodec.AcceptInto | src/simplicio_fast/catalog.py:390-411 | One record is registered and its handle and digest compared |
| Ranking.SplitRequired | src/simplicio_fast/capability_ranking.py:117-128 | Matches and misses, both in the order of the requirement |
| Ranking.FilterMembers | src/simplicio_fast/capability_ranking.py:117-128 | Nothing required is lost or invented by the split |
| Ranking.EligibleMeans | src/simplicio_fast/capability_ranking.py:304-368 | Eligible exactly when every filter passes, exactly when the reason says so; the score is then what the candidate costs, with unknowns free |
| Ranking.Rank | src/simplicio_fast/capability_ranking.py:254-443 | Which of trust, freshness and request is at fault, in that order, the limits of 10,000 results and 100,000 candidates, or the answer |
| Ranking.FindFrontier | src/simplicio_fast/capability_ranking.py:402-431 | The nested loops compute the frontier that `FrontierExact` describes |
| Ranking.FrontierExact | src/simplicio_fast/capability_ranking.py:402-431 | A point is on the frontier if and only if it is that of an eligible candidate with known cost and latency, and no such candidate is at most as costly and at most as slow with one of the two strictly less; the frontier is in order of name |
| Ranking.FrontierTradesOff | src/simplicio_fast/capability_ranking.py:402-431 | Of two frontier points the cheaper one is the slower one |
| RankingMeaning.ReasonMeans | src/simplicio_fast/capability_ranking.py:304-368 | The first filter that a candidate fails is the reason, and it is eligible exactly when it fails none |
| RankingMeaning.ScoreMeans | src/simplicio_fast/capability_ranking.py:304-368 | What a score adds up |
| RankingMeaning.AnswerInOrder | src/simplicio_fast/capability_ranking.py:394-401 | The answer lists the eligible ones first, then the higher score, then handle and version |
| RankingMeaning.AnswerIsCut | src/simplicio_fast/capability_ranking.py:394-440 | It is a prefix of all facts, as long as asked for, and says when it is cut |
| Ranking.FrontierCovers | src/simplicio_fast/capability_ranking.py:402-431 | Every eligible candidate with known cost and latency is matched or beaten on both by a frontier member |
| Ranking.FrontierIgnoresLimit | src/simplicio_fast/capability_ranking.py:409-438 | The frontier does not depend on how many results are shown |
| Ranking.TruncationKeepsBest | src/simplicio_fast/capability_ranking.py:394-440 | Truncation shows no ineligible candidate while it hides an eligible one, nor a worse score |
| Ranking.AnswerIgnoresOrder | src/simplicio_fast/capability_ranking.py:394-438 | When no two candidates share handle and version the answer does not depend on their order |

## Left out

- The JSON text of the persisted context cache, and the time of an entry's last access, which nothing reads: a cache file is missing, unreadable, or its entries.
- Float rounding and the type checks of inputs (booleans, NaN, wrong types): arithmetic is over `real`, and the square root is any positive number whose square is the length.
- Wall time, locks, fsync, file replacement and the checks of symbolic links and path escapes on disk: a file is a byte sequence, a tree a map, a clock reading an input.
- Subprocesses (Dev CLI, Mapper, git, the Rust session) and the refresh of semantic inputs: the adapter is an arbitrary report and an arbitrary tree.
- A crash between the adapter call and the journal write, or in the middle of a turn: a turn of `materialize` runs to its end; torn files are modelled in the journal.
- The journal state `reconcile_ambiguous`, which locks like `unknown`: nothing writes it.
- Journal evidence: one opaque JSON object for each turn stands for the evidence of its events.
- Line separators other than LF, CR LF and CR, and the lookup of encoding names: `splitlines` knows these three, and encodings are functions.
- Operations that no record describes, built with a payload that is no base64 or a rename without a destination: `validate` would raise on them, and `from_dict` refuses them (`OperationReadsIff`).
- The `schema` argument of a change set's constructor: it has its one accepted value.
- Payload validation of the decision cache and the text of its receipts: they neither read nor change the four stores.
- DecisionCache.HitIsLatestStore: speaks of the key's digest; two keys with one digest share an entry in the code too.
- Cancellation of a caller or a task in the content cache: the launcher of a cancelled task ends as in a failure.
- Symbols parsed for a delta, its identity digest and the checks of its base: field by field comparisons.
- Delta.Handoff: does not model timings and the report's copies of its inputs.
- `stat`, `verify`, `save` and `load` of the catalog, and `candidates_from_manifest` of the ranking: counting, copying and field by field conversion.
- Blank-text checks of ranking requests, and the provenance, kind and health that facts copy: they take no part in the ranking.
- `compatibility.py`, `custodians.py`, `cross_repo.py`, `contract_surface.py`, `context_adapters.py`, `context_security.py`, `delivery.py`, `engine.py`, `cli.py`: validation, orchestration and argument parsing that would add only easy members.
