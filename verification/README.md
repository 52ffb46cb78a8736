# Tironian: models and proofs

This project models the durable store of `packages/data` and the protocols around it, and proves what they
promise. `dafny verify dfyconfig.toml` checks all of it.

## What is modelled

**The store** (`Updates` to `StoreRuns`). A CRDT update is the finite set of items it carries and a document is the
union of what was applied to it: the free join-semilattice. `Updates.AnyLattice` carries every equality proved about
it to any state space whose join is associative, commutative and idempotent, so nothing about Yjs beyond that is
used. `Facts` is the one specification of the six durable operations. `SqliteLog` folds a chain on the append that
makes it 64 long; `IndexedDb` keeps sequence and count maps and folds at the end of a batch; `Engines` shows both
meet the specification, and when exactly they stay together through a run of commits, some aborted and some refused.
`Persistence` is the controller: the queue, the batch that is out, the mirror, the waiting flushes, with the gap
between the `then` and the `finally` callbacks. `Draining` shows that it can always get everything confirmed.
`Documents` is the reference-counted manager of live documents with hydration in separate steps. `StoreRuns` puts
documents, controller and engine together and follows whole runs, with every interleaving of opens, chain reads,
overlays, edits, remote batches, envelopes refused part way, retirements, commits, failed commits and crashes. Each
await-free segment of the source is one step. State that the source keeps in closures and objects is a class whose
methods are proved against functions on values, and the run theorems are about those functions.

**The clipboard** (`Delivery`). The host with its pending borrow, change tokens and generations is proved to keep to
a much simpler machine: a transcript shown for a while over the content that is rightfully the user's.

**Definitions** (`Sha256`, `Utf8`, `Canonical`, `JsonReader`, `MemoKey`). SHA-256 with JavaScript's numbers against
FIPS 180-4, bit operators defined bit by bit; the UTF-8 encoder against RFC 3629; the canonical JSON printer against
a reader written from the grammar of RFC 8259. Together: the bytes a definition's memo key hashes are equal exactly
for values equal up to the order of keys.

**The envelope** (`Octets`, `Envelope`), **field text and caret context** (`Utf16`, `FieldText`, `CursorContext`),
**the SQL projection** (`Projection`) and **the license guard** (`LicenseGraph`) each stand alone.

## Where a promise does not hold as stated

- *A hydrated document holds everything accepted for it.* Not in every interleaving: an append accepted before the
  open can become durable after the chain was read and be confirmed before the overlay is computed.
  `StoreRuns.OverlayCanMiss` is such a run, and a synchronous port allows it. `StoreRuns.OverlayExactly` gives the
  condition both ways and `StoreRuns.HydratedExact` the theorem under it. `StoreRuns.SettledReadExactly` says what has
  to hold when the chain is read, on a port of either kind, for the overlay to be timely whatever follows: no append
  for the address from before the open is still to be stored.
- *And nothing else.* An envelope one of whose later sections does not decode is refused, but the sections before it
  stay applied to open documents. `StoreRuns.RefusedShows` is such a run; `StoreRuns.HydratedExact` says a document is
  everything accepted together with what refused envelopes left in it since it was opened.
- *The engines agree.* SQLite ignores a second identity where IndexedDB overwrites the first
  (`Engines.SecondStampParts`), and refuses batches that IndexedDB takes: a negative cursor
  (`Engines.NegativeCursorParts`), a reused outbox id, a merged entry at an id of another document.
  `Engines.AgreeExactly` says exactly when a batch parts them, `Engines.EnginesAgree` exactly when a run of commits
  does, and `Engines.ReadyIsAlike` that what the store's verbs produce never does.
- *A retirement leaves nothing unsent.* It deletes the unsent entries, but the sender can have read them before it
  landed and enqueue a merged entry behind it (`Facts.MergeOwesRetired`). `Facts.RetiredOwesExactly`: the outbox holds
  no entry of the document exactly as long as no later operation merges entries into one of it.
- *`kv` is a relation of its own.* The parser refuses a table named `kv` in exactly that spelling
  (`definition.ts:232-248`), and SQLite finds relations without regard to case. A table `KV` shares the relation of
  `kv`: with the same fields the rebuild succeeds, clears the table's rows to put in the kv row
  (`packages/data/src/projection/index.ts:206-213`), and queries are answered over that; with other fields `kv` is
  dropped (`schema.ts:78-80`) and the rebuild can fail for ever. `Projection.TwinAnswers` is such an answer,
  `Projection.RebuiltTwin` says what happens, `Projection.ServesExactly` that the projection does what it promises
  exactly when no table shares the name of `kv` without regard to case and SQLite can create every relation.
- *The definition encoder writes UTF-8 with lone surrogates replaced.* It does not look at a high surrogate that ends
  the string, and writes it as three bytes that are no UTF-8 (`Utf8.LoneHighParts`). `Utf8.EncodesUtf8Exactly`.
  Canonical text never ends so, hence `MemoKey.CanonicalFormed`.
- *The projection's column test is exact.* It does not ask for the key column, so a relation that lacks it can stay
  (`Projection.KeylessStays`). `Projection.BringsExactly`. No relation made by an earlier declaration lacks it.
- *Padding works for every message.* The signed shifts allow messages shorter than 2^31 - 72 bytes and no others:
  at that length it wraps (`Sha256.PaddedLengthWraps`). `Sha256.PaddedLengthExactly`.

## Model

| member | source | states |
|---|---|---|
| Updates.AnyLattice | packages/data/src/store/log.ts:341-352 | replaying a chain in any lawful join-semilattice gives the meaning of the union of its items, so equal unions replay alike everywhere |
| Facts.MintedIsReady | packages/data/src/store/log.ts:100-125 | ids minted upwards, merged entries at ids of their own document and one identity are enough for every operation of a run to meet what the mirror and the engines rely on |
| Facts.OutboxSorted | packages/data/src/store/log.ts:127-142 | the outbox is in id order after every batch |
| Facts.OutboxExactly | packages/data/src/store/log.ts:100-173 | entry by entry what each operation leaves unsent: a drop the ids above it, a merge its entry, every other document's and the document's own above its id, a retirement every other document's |
| Facts.UnsentExactly | packages/data/src/store/log.ts:100-173 | through every list of the store's operations the unsent entries are exactly those that were there or entered and were not acknowledged, merged or retired since |
| Facts.ContentGrows | packages/data/src/store/log.ts:363-427 | until it is retired a document holds what it held plus everything appended to it |
| Facts.TombstoneStays | packages/data/src/store/log.ts:416-427 | a tombstone is never lifted and, with no append past it, the chain stays empty |
| Facts.LastCursorStands | packages/data/src/store/log.ts:194-214 | after any operations the cursor is the last one written, and what it was when none was |
| Facts.FirstIdentityStands | packages/data/src/store/log.ts:265-300 | after any operations the identity is the first one ever stamped |
| Facts.TombstonesExactly | packages/data/src/store/log.ts:416-436 | after any operations the tombstones are those there were and one for every retirement |
| Facts.RetiredOwesExactly | packages/data/src/store/log.ts:416-427 | a retirement deletes the document's unsent entries, and after it the outbox holds none exactly as long as no later operation merges entries into one of that document |
| Facts.MergeOwesRetired | packages/data/src/store/store.ts:1852-1865 | a merged entry enqueued behind a retirement makes the tombstoned document owed again |
| SqliteLog.AppendKeepsChain | packages/data/src/store/log.ts:363-414 | an append takes the number after the last stored one, overwriting nothing, and the sixty-fourth folds the chain into one row that replays to the same |
| SqliteLog.StepSucceeds | packages/data/src/store/log.ts:53-98 | SQLite accepts an operation exactly when no constraint of the schema is broken, read off the durable facts |
| SqliteLog.CommitRefines | packages/data/src/store/log.ts:474-514 | a batch commits exactly when none of its operations conflicts with what the ones before it left, and then the durable facts are the specified ones |
| SqliteLog.ReadyCommits | packages/data/src/store/log.ts:474-514 | the batches the store's verbs produce always commit |
| SqliteLog.SqliteStore.Replay | packages/data/src/store/log.ts:341-352 | the replay loop computes the union of the chain |
| SqliteLog.SqliteStore.AppendOne | packages/data/src/store/log.ts:363-414 | the append and its eager fold leave exactly the specified rows, and no other document's change |
| SqliteLog.SqliteStore.ReplaceThrough | packages/data/src/store/log.ts:151-166 | one merged entry at the given id in place of the document's own up to it, its later ones and other documents' kept, or the insert is refused |
| SqliteLog.SqliteStore.CommitBatch | packages/data/src/store/log.ts:474-514 | one transaction: every operation in order, or the tables as they were |
| IndexedDb.IdbBacking.constructor | packages/data/src/store/browser.ts:197-205 | the load loop leaves exact books: next sequence numbers above every stored one, counts equal to chain lengths |
| IndexedDb.IdbBacking.RunOne | packages/data/src/store/browser.ts:217-277 | each operation, cursor walks included, does to stores, books and touched set what the step function says, and leaves exactly the unsent entries it should |
| IndexedDb.IdbBacking.FoldTouched | packages/data/src/store/browser.ts:278-304 | the fold loop, in whatever order, folds each touched document that reached the threshold and nothing else |
| IndexedDb.IdbBacking.CommitBatch | packages/data/src/store/browser.ts:208-316 | a batch publishes stores and books together and keeps the books exact; an aborted one changes nothing |
| IndexedDb.AppendLands | packages/data/src/store/browser.ts:219-224 | with exact books an append goes past the end of its chain |
| IndexedDb.FoldRefines | packages/data/src/store/browser.ts:278-304 | the batch-end fold changes no document, keeps the books exact and leaves chains short |
| IndexedDb.BatchRefines | packages/data/src/store/browser.ts:208-316 | a committed batch leaves the specified facts, the last identity apart, exact books and chains below 64 |
| IndexedDb.IdentityAgrees | packages/data/src/store/browser.ts:236-238 | overwriting and ignoring a second identity agree exactly when the last stamp repeats the one in force |
| Engines.BooksStayExact | packages/data/src/store/browser.ts:199-316 | over every run of successful and failed commits the books stay exact and chains stay below 64 |
| Engines.EnginesAgree | packages/data/src/store/log.ts:455-514 | through every run of commits related engines have the same joins, outbox, cursor, identity and tombstones after each call if and only if every batch that does not abort is alike over the facts it finds; these are then what the admitted batches make |
| Engines.AgreeExactly | packages/data/src/store/browser.ts:208-316 | after any batch the engines agree if and only if SQLite admits it and nothing was stamped or the last stamp is the identity in force, or SQLite refuses it and the browser's facts end unchanged |
| Engines.ReadyIsAlike | packages/data/src/store/log.ts:100-125 | what the store's verbs produce is alike in every run, and all of it is kept |
| Engines.SecondStampParts | packages/data/src/store/log.ts:287-299 | two stamps in one batch part the engines |
| Engines.NegativeCursorParts | packages/data/src/store/log.ts:71-77 | a negative cursor, which stamps nothing, parts the engines: SQLite refuses it and IndexedDB stores it |
| Persistence.MirrorAgrees | packages/data/src/store/persistence.ts:240-286 | the mirror, which never reads storage, is the engine's outbox in id order, cursor and identity after every list of operations |
| Persistence.MirrorAppendExactly | packages/data/src/store/persistence.ts:244-254 | one mirrored append stays in agreement if and only if its id is above every held one |
| Persistence.AbsorbExactly | packages/data/src/store/persistence.ts:240-286 | entry by entry the mirror keeps what each operation leaves unsent |
| Persistence.NothingLost | packages/data/src/store/persistence.ts:301-377 | in every reachable state accepted operations are the committed ones, then the undecided batch, then the queue; what is durable is whole enqueues; a failed batch is in both only between the two callbacks |
| Persistence.NoLostWakeUp | packages/data/src/store/persistence.ts:212-370 | a non-empty queue behind an undecided batch is tried again; at rest it means the last attempt failed; saved exactly when everything accepted is committed; at rest every flush is answered |
| Persistence.SettledAnswers | packages/data/src/store/persistence.ts:346-370 | when the batch that is out settles and no other goes out, the controller is at rest and every waiting flush is answered |
| Persistence.EnqueueHandsOver | packages/data/src/store/persistence.ts:316-362 | accepting operations at rest hands over everything, what an earlier attempt left included |
| Persistence.FlushHandsOver | packages/data/src/store/persistence.ts:364-370 | so does a flush |
| Persistence.FinallyHandsOver | packages/data/src/store/persistence.ts:351-361 | and so does a batch that settled, well or badly, if another attempt was asked for while it was out |
| Persistence.AskedAgain | packages/data/src/store/persistence.ts:316-322 | while a batch is out, accepting operations and asking for a flush ask for one |
| Persistence.ThrowKeepsAll | packages/data/src/store/persistence.ts:328-337 | a port that throws leaves everything queued and nothing stored |
| Persistence.MirrorIsDurable | packages/data/src/store/persistence.ts:196-286 | in every reachable state the mirror is the engine's facts for exactly the committed enqueues, one batch behind only before the `then` callback |
| Persistence.CursorNeverOutruns | packages/data/src/store/log.ts:194-204 | every append accepted before a durable cursor is in the chain a crash leaves, unless its document was retired |
| Persistence.OverlayIsUnconfirmed | packages/data/src/store/persistence.ts:387-395 | `pendingAppends` joins to exactly the document's appends from the batch that is out onwards, in every phase |
| Draining.Drains | packages/data/src/store/persistence.ts:316-370 | from every state the controller of an asynchronous port that takes what it is handed gets everything accepted confirmed |
| Persistence.PersistenceController.AbsorbBatch | packages/data/src/store/persistence.ts:240-286 | the absorb loop takes the mirror through every operation of the batch in order |
| Persistence.PersistenceController.Try | packages/data/src/store/persistence.ts:316-362 | an attempt marks `again`, settles, or hands over the whole queue and keeps it on a throw |
| Persistence.PersistenceController.OnOutcome | packages/data/src/store/persistence.ts:288-309 | the `then` callbacks: absorb the batch, or put it back ahead of the queue |
| Persistence.PersistenceController.OnFinally | packages/data/src/store/persistence.ts:351-361 | the `finally` callback clears the flight and tries again or settles |
| Persistence.PersistenceController.RequestFlush | packages/data/src/store/persistence.ts:364-370 | a flush is answered at once at rest and waits otherwise |
| Persistence.BytesInOrder | packages/data/src/store/persistence.ts:387-395 | what hydration adds is every unconfirmed append of the document, in the order the operations were accepted |
| Persistence.PersistenceController.PendingFor | packages/data/src/store/persistence.ts:387-395 | the loop returns the document's unconfirmed appends in order |
| Documents.ReferencesExact | packages/data/src/store/documents.ts:207-273 | `references` counts undisposed handles and opens still awaiting, and an address not retired is live exactly while one remains |
| Documents.OpenExactly | packages/data/src/store/documents.ts:238-261 | an open is refused, shares the live entry, or makes a new one whose chain is to be read, and awaits it holding it |
| Documents.FailExactly | packages/data/src/store/documents.ts:202-204 | a hydration that has not finished can fail, and nothing else changes |
| Documents.OpenEndExactly | packages/data/src/store/documents.ts:262-273 | an open resolves to a handle exactly when hydration succeeded and the address is not retired, and otherwise gives up its hold; until hydration settles it waits |
| Documents.FailedOpensClear | packages/data/src/store/documents.ts:262-266 | once the opens that shared a failed hydration have resolved its document is not live, and the next open starts a new one |
| Documents.DisposeExactly | packages/data/src/store/documents.ts:207-233 | disposing a handle gives up its hold, unloads the document if that was the last, and it is a handle no more |
| Documents.EditExactly | packages/data/src/store/documents.ts:153-183 | an edit through a handle goes into the live document and is handed on as it is under the id minted for it; through a revoked one it goes nowhere |
| Documents.StaleDisposeHarmless | packages/data/src/store/documents.ts:227-233 | a repeated dispose, or one of a revoked handle, releases nothing, and no dispose releases a newer entry |
| Documents.RetiredForGood | packages/data/src/store/documents.ts:238-305 | once retired an address stays so: no step hands out a handle, not even to an open already hydrating, and none produces an append |
| Documents.DocumentEngine.Open | packages/data/src/store/documents.ts:238-261 | the synchronous part of `open` refuses a retired address or holds an entry, new or shared |
| Documents.DocumentEngine.FinishHydration | packages/data/src/store/documents.ts:187-205 | the two loops of `hydrate` apply the chain and then the unconfirmed appends |
| Documents.DocumentEngine.OpenResolves | packages/data/src/store/documents.ts:262-273 | the continuation of `open` gives a handle, or releases its hold when hydration failed or the address was retired meanwhile |
| Documents.DocumentEngine.Written | packages/data/src/store/documents.ts:153-183 | the update listener hands on an append of exactly the bytes written, unless the address is retired |
| Documents.DocumentEngine.Accept | packages/data/src/store/documents.ts:276-292 | remote bytes are applied where live, dropped where retired, and never enter the outbox |
| Documents.DocumentEngine.RetireDocument | packages/data/src/store/documents.ts:294-305 | retirement marks the address, revokes its live document and yields the retire operation |
| StoreRuns.HydratedUpToMissed | packages/data/src/store/documents.ts:187-292 | in every run, crashes, failed flushes and envelopes refused part way included, a hydrated document together with what its overlay missed is everything accepted for its address together with what refused envelopes left in it |
| StoreRuns.HydratedExact | packages/data/src/store/documents.ts:187-292 | in every run whose overlays are timely a hydrated document holds exactly the join of everything accepted for its address and of what refused envelopes left in it, which is part of what they held; it is exactly everything accepted if and only if they left nothing that is not accepted |
| StoreRuns.EditEnters | packages/data/src/store/documents.ts:153-183 | in every reachable state an edit through a handle puts exactly its bytes, to be sent under its id, at the end of the log and into the document; through a revoked one nothing is accepted |
| StoreRuns.RemoteEnters | packages/data/src/store/store.ts:1681-1731 | an envelope puts its sections that are not for a retired address, in order, and its cursor at the end of the log, and each open document takes the bytes for its address |
| StoreRuns.RefusedEnters | packages/data/src/store/store.ts:1670-1711 | an envelope with a section that does not decode leaves the bytes of the sections before it in the open documents and nothing in the log |
| StoreRuns.RetireEnters | packages/data/src/store/store.ts:1568-1585 | deleting a row puts what the application document writes and the document's tombstone at the end of the log in one batch, and revokes exactly that address |
| StoreRuns.OtherEnters | packages/data/src/store/store.ts:1275-1302 | what the application document and the sync sender write goes to the end of the log as it is, and no row document changes |
| StoreRuns.AcceptedIsGiven | packages/data/src/store/documents.ts:153-292 | through a session everything accepted for an address is exactly what its edits and envelopes gave |
| StoreRuns.HydratedIsGiven | packages/data/src/store/documents.ts:187-292 | a hydrated document, its overlay timely, holds exactly what storage held when the session opened, what the session's edits and envelopes gave, and what refused envelopes left |
| StoreRuns.RefusedShows | packages/data/src/store/store.ts:1673-1711 | a reachable run in which an open document shows bytes of a refused envelope that were never accepted |
| StoreRuns.OverlayExactly | packages/data/src/store/documents.ts:192-200 | hydration gives everything accepted, with what refused envelopes left, if and only if no append from before the open was confirmed between the chain read and the overlay |
| StoreRuns.SettledReadExactly | packages/data/src/store/documents.ts:192-200 | on a synchronous port and on an asynchronous one, every way on from a chain read has a timely overlay if and only if every append for the address from before the open was stored at the read |
| StoreRuns.SettledReadIsTimely | packages/data/src/store/documents.ts:192-200 | with nothing unconfirmed for the address when its chain is read the overlay is timely whatever happens before it is applied |
| StoreRuns.OverlayCanMiss | packages/data/src/store/documents.ts:192-200 | a reachable run in which a document is handed out without bytes accepted before its open |
| StoreRuns.RetiredThroughStorage | packages/data/src/store/log.ts:416-427 | once a retirement is durable, through every later commit, failure, crash and reload the tombstone is stored, the chain empty, the address refused and nothing live there |
| StoreRuns.RetireCommits | packages/data/src/store/browser.ts:261-275 | a committed retire operation leaves its tombstone stored and its chain empty |
| StoreRuns.RetireCommitsUnsent | packages/data/src/store/log.ts:416-427 | from the commit of a retirement to what is stored now no unsent entry of the document is there at any point exactly as long as no later operation merges entries into one of it |
| StoreRuns.RetiredStaysUnsent | packages/data/src/store/log.ts:416-427 | through every later commit, failure, crash and reload no unsent entry of a retired document is stored again unless entries are merged into one |
| Delivery.ClipboardAsPromised | apps/desktop/src-tauri/src/delivery.rs:99-105 | in every run of deliveries, wake-ups and copies the clipboard holds what the promise shows and, with nothing in progress or pending, the rightful content |
| Delivery.RestoreWritesOwed | apps/desktop/src-tauri/src/delivery.rs:285-342 | a wake-up that writes belongs to the newest borrow, finds its transcript still there and puts back exactly the rightful content |
| Delivery.WakeEndsBorrow | apps/desktop/src-tauri/src/delivery.rs:296-341 | the newest borrow's wake-up always ends it |
| Delivery.BorrowHandsBack | apps/desktop/src-tauri/src/delivery.rs:170-342 | one borrow gives text back as it was and clears what was no text, and in between the clipboard holds the transcript |
| Delivery.CopyStays | apps/desktop/src-tauri/src/delivery.rs:311-317 | what the user copies during a borrow stays |
| Delivery.ChainHandsBackFirst | apps/desktop/src-tauri/src/delivery.rs:170-198 | deliveries in quick succession hand back what the first one displaced |
| Delivery.ClipboardHost.WriteText | apps/desktop/src-tauri/src/delivery.rs:140-199 | each path of a delivery up to its first wait, with its effect on clipboard and pending borrow |
| Delivery.ClipboardHost.AfterSettle | apps/desktop/src-tauri/src/delivery.rs:201-215 | the borrow is recorded under a new generation exactly when the paste was posted |
| Delivery.ClipboardHost.RestoreWakes | apps/desktop/src-tauri/src/delivery.rs:296-341 | only the borrow of its own generation is taken, and only an unchanged clipboard is written |
| Sha256.ConstantsAreCubeRoots | packages/data/src/definition/canonical.ts:21-33 | the round constants are the first 32 fractional bits of the cube roots of the first 64 primes, as section 4.2.2 of FIPS 180-4 has them |
| Sha256.InitialValuesAreSquareRoots | packages/data/src/definition/canonical.ts:100-107 | so are the initial values of the square roots of the first eight |
| Sha256.RoundConstantIs | packages/data/src/definition/canonical.ts:21-33 | round `t` takes the constant of the prime number `t` |
| Sha256.WordBits | packages/data/src/definition/canonical.ts:35-36 | the logical operators work bit by bit |
| Sha256.ShiftBits | packages/data/src/definition/canonical.ts:35-36 | the shifts move bits and lose those past the end |
| Sha256.RotateRightIsRotr | packages/data/src/definition/canonical.ts:35-36 | the rotation by signed shifts is the standard's on every operand |
| Sha256.PaddedLengthExactly | packages/data/src/definition/canonical.ts:91-98 | the padded length computed with signed shifts is the standard's exactly below 2^31 - 72 bytes, and too short for the message otherwise |
| Sha256.PaddedLengthWraps | packages/data/src/definition/canonical.ts:91-98 | at 2^31 - 72 bytes the padded length comes out as -2^31 |
| Sha256.PadMessage | packages/data/src/definition/canonical.ts:91-98 | the padded message of section 5.1.1, or the RangeError |
| Sha256.ExpandBlock | packages/data/src/definition/canonical.ts:111-123 | the in-place schedule loop computes the recursive schedule |
| Sha256.CompressBlock | packages/data/src/definition/canonical.ts:124-147 | the register loop computes the 64 rounds of section 6.2.2, every sum exact before it is reduced |
| Sha256.JoinHex | packages/data/src/definition/canonical.ts:158-160 | `toString(16)` and `padStart` write every word as its eight hexadecimal digits |
| Sha256.DigitIs | packages/data/src/definition/canonical.ts:158-160 | the digits are those of ASCII, the letters small |
| Sha256.Sha256HexBytes | packages/data/src/definition/canonical.ts:90-161 | the digest of the standard for every message shorter than 2^31 - 72 bytes, and the RangeError for every other |
| Utf8.DecodedEncoded | packages/data/src/definition/canonical.ts:68-84 | decoding by the grammar of RFC 3629 gives back every sequence of scalar values |
| Utf8.EncodedDecoded | packages/data/src/definition/canonical.ts:68-84 | what the grammar accepts is exactly the encoding of what it decodes to |
| Utf8.ScalarsLossless | packages/data/src/definition/canonical.ts:50-66 | reading scalar values off UTF-16 loses nothing exactly when the text is well-formed |
| Utf8.PushBytes | packages/data/src/definition/canonical.ts:68-84 | the shifts and masks write a code point's bytes |
| Utf8.Utf8Bytes | packages/data/src/definition/canonical.ts:48-88 | the loop writes the bytes of the code points it reads |
| Utf8.EncodesUtf8Exactly | packages/data/src/definition/canonical.ts:48-88 | the bytes are the UTF-8 of the text with lone surrogates replaced if and only if the text does not end in a high surrogate |
| Utf8.LoneHighParts | packages/data/src/definition/canonical.ts:50-66 | a lone high surrogate is written ED A0 80, where UTF-8 has the replacement character |
| Canonical.OneOrder | packages/data/src/definition/canonical.ts:12-17 | members in key order are fixed by which they are, so the engine's sorting algorithm does not matter |
| Canonical.LessExactly | packages/data/src/definition/canonical.ts:13-14 | keys are ordered as a dictionary orders them, by code units upwards |
| Canonical.CanonicalAscends | packages/data/src/definition/canonical.ts:12-17 | the canonical text is that of the value in whose every object each key comes before the next |
| Canonical.ShortEscapes | packages/data/src/definition/canonical.ts:7-8 | the control characters, the quote and the backslash that have a short escape are written with it |
| Canonical.OtherEscapes | packages/data/src/definition/canonical.ts:7-8 | other control characters and lone surrogates are written as four small hexadecimal digits, and every other unit as itself |
| Canonical.NumeralsExactly | packages/data/src/definition/canonical.ts:9-10 | the numerals the printer may write for finite numbers are the numbers of section 6 of RFC 8259, all of them and nothing else |
| Canonical.CanonicalRenders | packages/data/src/definition/canonical.ts:1-19 | the printer throws exactly when some part has no JSON form, and otherwise writes the value with sorted keys |
| JsonReader.RenderReads | packages/data/src/definition/canonical.ts:7-17 | a reader of the grammar of RFC 8259 reads any printed value back, and stops where it ends |
| JsonReader.CanonicalParses | packages/data/src/definition/canonical.ts:1-19 | parsing the canonical text gives back the value with sorted keys |
| JsonReader.PrintsAlikeExactly | packages/data/src/definition/canonical.ts:1-19 | two JSON values print alike if and only if they are equal up to the order of keys |
| MemoKey.CanonicalFormed | packages/data/src/definition/canonical.ts:44-46 | canonical text is well-formed UTF-16, so its hashed bytes are its UTF-8 |
| MemoKey.HashedBytesExactly | packages/data/src/definition/definition.ts:180-192 | the bytes a memo key hashes are equal if and only if the values are equal up to the order of keys |
| MemoKey.ReparsedIsSame | packages/data/src/definition/definition.ts:253 | the reparsed definition is the same value up to the order of keys and has the same canonical text |
| MemoKey.Sha256Hex | packages/data/src/definition/canonical.ts:44-46 | the digest of the encoder's bytes |
| Envelope.AcceptsExactly | packages/data/src/store/envelope.ts:76-117 | the decoder accepts exactly the wire forms and answers what they carry |
| Envelope.WireSample | packages/data/src/store/envelope.ts:42-48 | the wire form of one section, byte by byte |
| Envelope.MarkDropped | packages/data/src/store/envelope.ts:87 | a byte-order mark at the front of a name is not part of it |
| Envelope.RoundTripsExactly | packages/data/src/store/envelope.ts:48-117 | decoding an encoding gives the sections back if and only if the count and every length fit 32 bits |
| Envelope.EncodedDecodesExactly | packages/data/src/store/envelope.ts:48-117 | with names as text, if and only if every name is well-formed and not led by a byte-order mark |
| Envelope.AcceptedReencodesExactly | packages/data/src/store/envelope.ts:76-117 | an accepted input is the encoding of its result if and only if its names are UTF-8 without a leading byte-order mark |
| Envelope.AsciiNames | packages/data/src/store/envelope.ts:16-19 | ASCII names are such names |
| Envelope.PrefixIsTruncated | packages/data/src/store/envelope.ts:79-110 | no proper prefix of an envelope is accepted; it is too short or truncated |
| Envelope.TrailingIsCounted | packages/data/src/store/envelope.ts:111-115 | whatever follows an envelope is counted and refused |
| Envelope.RefusesExactly | packages/data/src/store/envelope.ts:76-115 | an input is refused for a reason if and only if its bytes show it: under five bytes, another first byte, fewer whole sections than announced and a break in a length, a name or the bytes, or bytes left over |
| Envelope.EncodeEnvelope | packages/data/src/store/envelope.ts:48-74 | the two loops fill the buffer with the wire form |
| Envelope.DecodeEnvelope | packages/data/src/store/envelope.ts:76-117 | the loop is total on every byte run, never reads past it, and answers as specified, reasons included |
| FieldText.NormalizeNewlines | apps/desktop/src-tauri/src/field_text.rs:275-292 | the loop reads each CRLF and each lone CR as one LF |
| FieldText.NormalizedFixes | apps/desktop/src-tauri/src/field_text.rs:274-292 | text is left alone if and only if it holds no carriage return |
| FieldText.NormalizedTwice | apps/desktop/src-tauri/src/field_text.rs:274-292 | normalizing is idempotent |
| FieldText.NormalizedKeepsPairs | apps/desktop/src-tauri/src/field_text.rs:274-292 | surrogate pairs stay pairs, and a lone first or last unit is all that stays alone |
| FieldText.NormalizedConcat | apps/desktop/src-tauri/src/field_text.rs:274-292 | normalizing piecewise is normalizing the whole, except across a cut between CR and LF |
| FieldText.FindFrom | apps/desktop/src-tauri/src/field_text.rs:418-426 | the first occurrence from a place on, or none |
| FieldText.FindOnce | apps/desktop/src-tauri/src/field_text.rs:428-433 | the only occurrence, overlapping ones counted, or none |
| FieldText.LocateDelivered | apps/desktop/src-tauri/src/field_text.rs:435-446 | succeeds exactly when the delivered text occurs once, with up to 32 visible units each side |
| FieldText.AroundExactly | apps/desktop/src-tauri/src/field_text.rs:50-66 | an anchor is the up to 32 units beside the delivered text, or none if these are line ends only |
| FieldText.LocateRegion | apps/desktop/src-tauri/src/field_text.rs:448-475 | the region between the anchors; not found exactly when they fix none, too long exactly when it is over twice the delivered length plus 200, or with an anchor missing over that length plus 32 |
| FieldText.RegionSplits | apps/desktop/src-tauri/src/field_text.rs:448-475 | a located region splits the field around the anchors, the one after it occurring first at its end |
| FieldText.EditRecoveredExactly | apps/desktop/src-tauri/src/field_text.rs:435-475 | after an edit confined to the paste a later read gives back the edited text if and only if the anchors still fix it and it fits the cap |
| CursorContext.ClipBefore | apps/desktop/src-tauri/src/cursor_context.rs:74-94 | a suffix of the normalized text within the cap, at a whole word, losing at most 41 more units; well-formed when the capped read is a suffix of well-formed text |
| CursorContext.ClipAfter | apps/desktop/src-tauri/src/cursor_context.rs:96-120 | the same from the other end |
| CursorContext.SpacesExactly | apps/desktop/src-tauri/src/cursor_context.rs:52-57 | what ends a word |
| Utf16.SlicesOfWellFormed | apps/desktop/src-tauri/src/cursor_context.rs:67-73 | cutting well-formed text leaves a lone unit at the cut end at most |
| Projection.CompoundReadsBack | packages/data/src/projection/schema.ts:112-126 | an array or object is bound as JSON text that reads back as itself |
| Projection.ScalarsAreStored | packages/data/src/projection/schema.ts:121-126 | a boolean is stored as the number 1 or 0, text and numbers as themselves, null as SQL's |
| Projection.MatchIsExact | packages/data/src/projection/schema.ts:90-110 | on a relation that has the key column the column test passes exactly when its columns are the declared ones |
| Projection.BringsExactly | packages/data/src/projection/schema.ts:68-87 | a relation gets the declared columns unless it lacks the key column and otherwise matches |
| Projection.KeylessStays | packages/data/src/projection/schema.ts:97-110 | such a relation, which stays as it is |
| Projection.EveryRowIsThere | packages/data/src/projection/index.ts:190-204 | with different ids every listed row is found under its id, each cell standing for what its payload has there |
| Projection.RebuiltAlone | packages/data/src/projection/index.ts:182-215 | when no table shares the name of `kv`, a rebuild succeeds exactly when no relation has columns that differ in case only, leaves exactly the declared relations, columns and listed rows, and keeps the rows of a table without a handle whose columns are the declared ones |
| Projection.RebuiltFinds | packages/data/src/projection/index.ts:182-215 | what a rebuild leaves cell by cell: for every listed row and declared field the value of the payload as text, number, 1 or 0, JSON text that reads back, or null |
| Projection.KeysMeet | packages/data/src/projection/schema.ts:102-110 | SQLite takes two names for one exactly when they differ in the case of letters only |
| Projection.ReservedExactly | packages/data/src/projection/schema.ts:55-64 | the sweep passes over exactly the names that begin with `_` or `sqlite_` |
| Projection.CreatableExactly | packages/data/src/projection/schema.ts:81-86 | SQLite creates a relation exactly when no two of its columns, the key among them, are one name |
| Projection.RebuiltTwin | packages/data/src/projection/schema.ts:68-87 | when a table shares it, a rebuild succeeds exactly when also the table's columns cover the fields of `kv`, and leaves the kv row alone in the one relation |
| Projection.RebuildsExactly | packages/data/src/projection/index.ts:182-215 | whether SQLite takes a rebuild depends on the declaration alone, whatever is left behind and whatever the data |
| Projection.ServesExactly | packages/data/src/definition/definition.ts:232-248 | every rebuild succeeds and leaves what is declared and listed if and only if no table shares the name of `kv` without regard to case and SQLite can create every relation |
| Projection.TwinAnswers | packages/data/src/definition/definition.ts:232-248 | `KV` beside `kv`: the declaration parses, the rebuild succeeds, and the table's row is not there |
| Projection.SqliteProjection.ApplySchema | packages/data/src/projection/schema.ts:34-88 | the loops compute the specified schema; refused part way they leave a database a rebuild can start from, reserved relations untouched |
| Projection.SqliteProjection.RefillAll | packages/data/src/projection/index.ts:184-214 | the transaction clears and fills the relations as specified, the tables before `kv`, or leaves the database as it was |
| Projection.SqliteProjection.Rebuild | packages/data/src/projection/index.ts:182-215 | the specified rebuild, over which a query may run when no table shares the name of `kv`, or a database that can be rebuilt; while the database refuses nothing itself, it fails exactly when the specified one does |
| Projection.SqliteProjection.Query | packages/data/src/projection/index.ts:218-234 | a query runs over what a rebuild leaves or not at all, is answered whenever the database refuses nothing and the declaration is rebuildable, and a failed rebuild leaves the projection dirty |
| Projection.Session | packages/data/src/projection/index.ts:145-241 | from whatever earlier declarations left, through commits, refusals and disposal: when no table shares the name of `kv` every answered query runs over exactly the declared relations, columns and last committed rows, otherwise the relation found as `kv` holds the kv row alone; an unrefused query is answered exactly for rebuildable declarations |
| LicenseGraph.Reaches | scripts/check-license-graph.ts:46-59 | none exactly when no AGPL package is reachable, otherwise a real dependency path that ends at one; terminates on cycles |
| LicenseGraph.Build | scripts/check-license-graph.ts:20-44 | the workspace graph: for every name its last manifest, with that license and exactly those dependencies that some manifest is called |
| LicenseGraph.Check | scripts/check-license-graph.ts:61-77 | the guard reports exactly the MIT-compatible packages that reach an AGPL one |

## Left out

- Facts.MintedIsReady: that the store mints outbox ids upwards and merges only its own document's entries is assumed of `store.ts`, which is not part of this model.
- IndexedDb.BatchRefines: identity is stated as the last stamp, because that is what the engine keeps; see Engines.AgreeExactly.
- Persistence.MirrorIsDurable: between the engine's commit and the `then` callback the mirror is one batch behind, so that moment is excepted.
- SqliteLog.StepSucceeds: every stored update can be replayed in the model; a chain that holds bytes Yjs cannot decode, which `acceptRemote` stores for a closed document (`documents.ts:279-291`), makes the fold throw (`log.ts:403`) and the source refuse the append too.
- SqliteLog.ReadyCommits: likewise a fold over undecodable bytes throws in the source, and the batch does not commit.
- IndexedDb.IdbBacking.CommitBatch: an abort stands for every rejection; in the source a throw inside `commit`, as by a fold over undecodable bytes (`browser.ts:288`), rejects without `transaction.abort()`, so that what the requests already made is not rolled back by it.
- Persistence.PersistenceController.Try: status and outbox listeners are not called; in the source they run before the waiting flushes are answered (`persistence.ts:345-346`, `359-360`), so one that enqueues from there delays the answer, which is not modelled.
- Documents.DocumentEngine.Open: documents are numbered entries held in a sequence rather than heap objects, so aliasing of a document outside its handle is not modelled; `destroy` of the whole engine is left out.
- StoreRuns.HydratedExact: a section that does not decode is applied not at all, and reads answer the chain stored at that moment, and operations of the application document concern it alone; these are assumed of the port and of `store.ts`.
- Delivery.ClipboardAsPromised: deliveries do not overlap, the change token is exact, and a clipboard read fails only on content that is no text; platforms that compare text instead are left out.
- Sha256.Sha256HexBytes: messages of 2^50 bytes and more are outside the numbers modelled.
- Canonical.CanonicalRenders: finite numbers are the numerals JavaScript prints for them; how doubles are rounded to numerals, sparse arrays, cyclic values and property accessors are left out.
- Envelope.AcceptedReencodesExactly: what `TextDecoder` makes of bytes that are no UTF-8 is an arbitrary function.
- Projection.Session: the statement a query runs is taken to read only, listing rows never throws, and views and triggers are left out.
- Unsent history files, their `taken_at`, the format certificate and its wipe (`log.ts`, `browser.ts`).
- `states()`, `hasAnyState`, `pendingDocuments` and the enumeration of stored documents.
- Yjs itself: garbage collection, pending structures and the bytes of updates.
- Real SQL, IndexedDB's transaction machinery, timers, locks and overlapping `write_text` calls.
- The read budget, deadlines and gates of field observation, UI Automation and its text ranges, which only decide whether a read happens.
- The V8 limits on string and buffer sizes.
- The rest of the repository: HTTP, the hub, blobs, the recorder, providers, the interface and the build scripts.
