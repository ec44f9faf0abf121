# Verified model of the Panopticon Null evidence ledger

Panopticon Null keeps an evidence ledger of public procurement: it fetches official sources,
stores immutable snapshots, compares them, links records by exact identifiers, cites quotations by
page geometry, and tracks records requests. This project models the deterministic core of the
ledger in Dafny and proves what it promises, for all inputs and over whole runs.

`dafny verify dfyconfig.toml` checks everything. Code that works by changing state is modelled by
classes, loops and methods, each tied to a specification function; the laws beside them are lemmas
about those functions.

| files | part of the ledger |
|---|---|
| `Csv` | the CSV export, against the grammar of section 2 of RFC 4180 |
| `Money` | integer cents: parser, display, round trip |
| `NormalizeText` | text normalisation |
| `Utf8`, `RowDigest`, `RowStore`, `SnapshotDiff`, `SnapshotDiffLaws` | text encoding, row-set digest, transactional row store, record-level diff |
| `ChangeAlert`, `ChangeReplay`, `ChangeOrder`, `AwardRows` | change alerts between two snapshots, and how they relate to the diff |
| `Chain`, `ChainPartition`, `ChainEvidence` | the procurement chain: links and evidence gaps |
| `Pagination`, `PaginationLaws`, `PaginationCaps` | bounded pagination under a byte budget |
| `Geometry`, `GeometryLaws` | locating and citing quotations |
| `Relationships`, `RelationshipLaws`, `RelationshipKept` | official-relationship detection |
| `CoraLedger`, `CoraLedgerLaws` | the ledger of records requests |
| `HttpFetch`, `HttpFetchLaws`, `HttpFetchEnds` | redirect following against any resolver and transport |
| `Text`, `Joining`, `Sequences`, `Sorting`, `OrderedMap`, `Identifiers`, `Hashing`, `Integers`, `Wrappers` | what the others share |

## How the source appears in the model

- SHA-256 is a function parameter. Where distinct inputs must give distinct digests, a lemma says
  so in a hypothesis `CollisionFree`; most statements are about the hashed bytes and need none.
- A SQLite table is a map with insert-or-ignore, a transaction is all or nothing. A `BTreeMap` is a
  sequence of entries in key order.
- URL and JSON parsing, address classification, DNS and the network are function parameters. The
  network is adversarial: its answers may depend on the number of the call.
- `Limits` carries the discovery of matters in an event as a function value, for which `Discover` is the
  one in use; `Config` carries the list of headers that may be persisted, which is `ALLOWLISTED`.
- Strings are sequences of Unicode scalar values; where the source hashes bytes or compares byte
  lengths, they are encoded in UTF-8. 32- and 64-bit saturation and checked arithmetic are explicit.
- 64-bit floats in the geometry keep NaN and the infinities; only comparisons, `max` and `min`
  occur there, so no rounding is involved.

## Where the code differs from its documentation

The lemmas named show an input, or a family of inputs, and the exact condition.

- `csv.rs` says that a leading tab or carriage return is neutralised; the code skips white space
  and looks at the first other character (`Csv.LeadingTabIsNotNeutralized`, `Csv.ChangedExactlyWhen`).
- `MoneyValue::display` drops the sign for −99 to −1 cents (`Money.FiftyCentsDebitLosesItsSign`,
  `Money.DisplayRoundTripsExactly`).
- The row store accepts a retry with different raw values and drops them: only counts, versions, keys and
  canonical texts decide (`RowStore.RawValuesAreNotCompared`, `RowStore.SameMetaExactly`).
- A chain link's `from` evidence is documented as that of its `from` stage; the stages are reordered and the
  evidence is not (`ChainEvidence.EvidenceCanBeReversed`, `ChainEvidence.DocumentedSidesExactly`).
- "Ordering is ignored" by change alerts only while rows of one identity agree
  (`ChangeOrder.JointAwardRaisesAnAlert`, `ChangeOrder.ReorderingIsSilentExactly`).
- `max_matters` can be overshot by one event, and the cap on attachments "per matter" is applied for each event:
  attachments within a matter's cap are lost, and one matter can get more than its cap
  (`PaginationCaps.OneEventOvershoots`, `PaginationCaps.TwoEventsDoubleTheCap`, and for the conditions
  `PaginationCaps.MatterCapExactly`, `PaginationCaps.AttachmentsAreCompleteExactly`, `PaginationCaps.AttachmentCapExactly`).
- Hyphens are documented as joined at line breaks; the code joins after every word that ends in a hyphen, so
  that some verbatim quotations do not match where they stand (`GeometryLaws.InnerHyphenIsNeverFound`,
  `GeometryLaws.RunMatchesInPlaceExactly`). The joined rectangle keeps the left edge of the first line
  (`GeometryLaws.ContinuationSticksOut`, `GeometryLaws.LeftEdgeExactly`).
- `valid_digest` accepts capital letters (`RelationshipLaws.CapitalDigestIsAccepted`,
  `RelationshipLaws.DigestIsAsDocumentedExactly`).
- A record that references itself is not a relationship, except in another spelling
  (`RelationshipKept.OwnMatterIsLinked`, `RelationshipKept.OwnMatterIsLinkedExactly`).
- A link is recorded for each match, but the id leaves out the matter and the quote, so that a second link with
  the same id is dropped (`RelationshipKept.SecondMatterIsDropped`, `RelationshipKept.LinkIsKeptExactly`).
- Two different gaps can share a gap-set digest, although it is documented as the full set of facts
  (`CoraLedgerLaws.DifferentGapsShareADigest`, `CoraLedgerLaws.SeparatorPartsCollide`, and for the conditions
  `CoraLedgerLaws.GapDigestExactly`, `CoraLedgerLaws.SameGapExactly`).
- Diff and alerts are documented to share one notion of a row; they share its key, and still one can be silent where
  the other is not, for repeated or joint rows or with a separator inside a field
  (`AwardRows.JointAwardIsOnlyAnAlert`, `AwardRows.RepeatedRowIsOnlyAChange`, `AwardRows.MovedSeparatorIsOnlyAnAlert`,
  `AwardRows.SilentTogetherExactly`).
- Only a redirect to the URL just requested is reported as a redirect loop (`HttpFetchEnds.LoopRunsOut`,
  `HttpFetchEnds.RedirectLoopExactly`).
- Every request is documented to be recorded; a fetch that fails returns an error alone
  (`HttpFetchEnds.FailureIsNotRecorded`, `HttpFetchEnds.RecordedExactly`).
- A 304 is documented to refer to earlier evidence that a conditional request asked about; it counts as unchanged
  as well where no condition was sent, because there is no earlier evidence or because the request was redirected
  (`HttpFetchEnds.FirstIsNotModified`, `HttpFetchEnds.MovedIsNotModified`, `HttpFetchEnds.NotModifiedUnaskedExactly`).

## Model

| member | source | states |
|---|---|---|
| `Csv.RowsToCsv` | crates/pnull-procurement/src/csv.rs:51-73 | refuses an empty row list, and otherwise returns the text that `Export` defines for header and rows |
| `Csv.ParseIsSound` | crates/pnull-procurement/src/csv.rs:5-8 | whatever the reader accepts is a file of section 2 of RFC 4180 (LF record ends) that denotes exactly the records read |
| `Csv.ParseIsComplete` | crates/pnull-procurement/src/csv.rs:5-8 | every file of that grammar is read, as the records it denotes |
| `Csv.GrammarIsUnambiguous` | crates/pnull-procurement/src/csv.rs:39-45 | no text denotes two different lists of records |
| `Csv.ExportReadsBackExactly` | crates/pnull-procurement/src/csv.rs:39-73 | an export denotes, and is read back as, its neutralised records if and only if no record is empty |
| `Csv.NeutralizedIsInert` | crates/pnull-procurement/src/csv.rs:25-36 | after leading white space no neutralised cell starts with `=`, `+`, `-` or `@`, and a second neutralisation changes nothing |
| `Csv.ReexportIsIdentity` | crates/pnull-procurement/src/csv.rs:25-73 | exporting the records read back gives the same text again |
| `Csv.ChangedExactlyWhen` | crates/pnull-procurement/src/csv.rs:25-36 | a cell is changed exactly when its first character that is not white space is a formula trigger |
| `Csv.LeadingTabIsNotNeutralized` | crates/pnull-procurement/src/csv.rs:4-6 | a cell with a leading tab and no trigger is exported as it is, against the module documentation |
| `Utf8.EncodeIsInjective` | crates/pnull-core/src/procurement.rs:434-444 | the bytes of a text in UTF-8, which is what is hashed and compared by length, determine the text |
| `RowDigest.RowSetDigest` | crates/pnull-core/src/procurement.rs:431-446 | sorts the rows in place and hashes exactly the length-prefixed stream of the sorted pairs |
| `RowDigest.DecodeUndoesStream` | crates/pnull-core/src/procurement.rs:434-444 | the length-prefixed stream gives back its pairs: it is uniquely decodable |
| `RowDigest.SamePreimageExactly` | crates/pnull-core/src/procurement.rs:426-446 | two row lists hash the same bytes if and only if they hold the same (key, canonical) pairs, with multiplicity, in any order |
| `RowStore.Store.InsertSourceSnapshot` | crates/pnull-core/src/lib.rs:977-982 | adds a snapshot id and changes no rows |
| `RowStore.Store.InsertSnapshotRowSetWithRows` | crates/pnull-core/src/lib.rs:1023-1097 | all or nothing: first write, accepted identical retry, conflict, or unknown snapshot, and the whole new state of the three tables |
| `RowStore.Store.SnapshotRows` | crates/pnull-core/src/lib.rs:1128-1146 | returns the stored rows of a snapshot in the order of insertion |
| `RowStore.FirstWriteIsFirst` | crates/pnull-core/src/lib.rs:1023-1097 | which write of a run is the first to land for a snapshot: it comes after the snapshot is registered, and no earlier one does |
| `RowStore.RunKeepsFirstWrites` | crates/pnull-core/src/lib.rs:1023-1146 | over any run, the tables hold for each snapshot exactly the rows and metadata of its first write |
| `RowStore.WrittenRowsAreForever` | crates/pnull-core/src/lib.rs:1023-1146 | whatever is done later, rows once written are read back unchanged |
| `RowStore.SameMetaExactly` | crates/pnull-core/src/lib.rs:1030-1075 | for described submissions, equal metadata means equal count, versions and multiset of (key, canonical) pairs |
| `RowStore.WriteOutcome` | crates/pnull-core/src/lib.rs:1030-1097 | the outcome of a described write after any run: accepted if it is first or repeats the first one, a conflict otherwise |
| `RowStore.RetryAcceptedExactly` | crates/pnull-core/src/lib.rs:1030-1075 | the same submission sent twice is accepted as a no-op exactly when its digest is that of its rows and its count fits the column; otherwise it is a conflict |
| `RowStore.RawValuesAreNotCompared` | crates/pnull-core/src/lib.rs:1030-1075 | a retry with other raw values is accepted and silently dropped: only key and canonical text are compared |
| `RowStore.LoadReturnsFirstWrite` | crates/pnull-procurement/src/snapshot.rs:379-431 | after any run of described writes of intact rows, the verifying loader never reports a violation and returns the first-written rows |
| `SnapshotDiff.GroupByKey` | crates/pnull-procurement/src/snapshot.rs:138-149 | the groups hold, under each key in key order, exactly the canonical texts of its rows, sorted |
| `SnapshotDiff.MultisetDifference` | crates/pnull-procurement/src/snapshot.rs:152-169 | the two counting maps compute the difference of multisets |
| `SnapshotDiff.RecordDiff` | crates/pnull-procurement/src/snapshot.rs:171-235 | sorted changes, each as often as the unmatched old and new values of its key require |
| `SnapshotDiffLaws.SilentExactly` | crates/pnull-procurement/src/snapshot.rs:130-137 | nothing is reported if and only if both sides hold the same multiset of (key, canonical) pairs |
| `SnapshotDiffLaws.SilentExactlyWhenDigestsAgree` | crates/pnull-procurement/src/snapshot.rs:119-126 | for all rows whose texts take fewer than 2^64 bytes in UTF-8, a diff is silent if and only if `row_set_digest` hashes the same bytes for both sides |
| `SnapshotDiffLaws.ShortTextsFit` | crates/pnull-core/src/procurement.rs:434-444 | every text of fewer than 2^62 characters is such a text |
| `SnapshotDiffLaws.RowOrderIsIgnored` | crates/pnull-procurement/src/snapshot.rs:130-137 | permuting the rows of either side gives the identical list of changes |
| `SnapshotDiffLaws.SwapExchangesKinds` | crates/pnull-procurement/src/snapshot.rs:171-235 | comparing backwards exchanges added and removed and keeps changed |
| `SnapshotDiffLaws.RowsAreConserved` | crates/pnull-procurement/src/snapshot.rs:171-235 | for each key, old rows minus removals plus additions are the new rows, and a key never has both |
| `SnapshotDiffLaws.NoFewerEdits` | crates/pnull-procurement/src/snapshot.rs:183-209 | no sequence of insertions, deletions and replacements turns the old rows of a key into the new ones with fewer edits than are reported |
| `SnapshotDiffLaws.ReportedEditsSuffice` | crates/pnull-procurement/src/snapshot.rs:183-209 | and that many edits are enough |
| `Money.MagnitudeExactly` | crates/pnull-core/src/procurement.rs:683-713 | the checked arithmetic gives whole × 100 + fraction, or nothing exactly when that exceeds the 64-bit range or there are no digits |
| `Money.ParseCentsExactly` | crates/pnull-core/src/procurement.rs:675-714 | `parse_cents` returns a value if and only if the text denotes it: hyphens, digits, optional point with at most two digits before trailing zeros, within range |
| `Money.ExactIsInRange` | crates/pnull-core/src/procurement.rs:617-671 | an exact amount is not zero and lies in the 64-bit range together with its negation |
| `Money.DisplayReadsAs` | crates/pnull-core/src/procurement.rs:160-168 | what the display of any exact amount is read back as: the amount itself, or its absolute value for −99 to −1 cents |
| `Money.DisplayRoundTripsExactly` | crates/pnull-core/src/procurement.rs:160-168 | reading back the display of an exact amount gives the same amount if and only if it is not in −99 to −1 cents |
| `Money.FiftyCentsDebitLosesItsSign` | crates/pnull-core/src/procurement.rs:160-168 | the raw text `$-0.50` is such an amount: its display reads as plus fifty cents |
| `NormalizeText.NormalizeText` | crates/pnull-ingest/src/lib.rs:1246-1262 | the loop with its flag computes the normal form that the function specifies |
| `NormalizeText.OutputIsNormal` | crates/pnull-ingest/src/lib.rs:1246-1262 | every output line is collapsed, no two blank lines are adjacent, and none is first or last |
| `NormalizeText.NormalizeIsIdempotent` | crates/pnull-ingest/src/lib.rs:1246-1262 | normalising twice is normalising once |
| `NormalizeText.FixedExactlyWhenNormal` | crates/pnull-ingest/src/lib.rs:1246-1262 | a text is left as it is if and only if it is some lines in normal form joined by line feeds |
| `NormalizeText.NormalizeKeepsWords` | crates/pnull-ingest/src/lib.rs:1246-1262 | normalisation keeps the words of the text, in order |
| `Identifiers.PreimageIsDecodable` | crates/pnull-core/src/lib.rs:224-232 | the hashed text of NUL-free parts determines every part and their number |
| `Identifiers.StableIdIsInjective` | crates/pnull-core/src/lib.rs:224-232 | without a SHA-256 collision, equal stable ids mean equal parts |
| `Identifiers.NulPartsCollide` | crates/pnull-core/src/lib.rs:224-232 | with a NUL inside a part, two different part lists share an id under every hash |
| `Chain.BuildIndex` | crates/pnull-procurement/src/chain.rs:231-254 | the index holds, under each normalized identifier, the staged events that carry it, in order |
| `Chain.RecordPair` | crates/pnull-procurement/src/chain.rs:285-333 | the body of the innermost loop: dedup by pair key, evidence resolution, link or gap |
| `Chain.BuildLinksAndGaps` | crates/pnull-procurement/src/chain.rs:277-342 | links and gaps of the first candidate of each pair, sorted |
| `ChainPartition.BuildChain` | crates/pnull-procurement/src/chain.rs:197-342 | every pair of events in different stages that shares an identifier is exactly one link or one gap, under its least shared identifier, and nothing else appears |
| `ChainPartition.CandidatesExactly` | crates/pnull-procurement/src/chain.rs:284-300 | the nested loops visit a pair under an identifier if and only if both events carry it and their stages differ |
| `ChainPartition.KeptAreRelated` | crates/pnull-procurement/src/chain.rs:284-300 | of the candidates for a pair exactly the one under the least shared identifier is kept |
| `ChainPartition.LinksExactly` | crates/pnull-procurement/src/chain.rs:301-325 | the links are those of the kept candidates whose endpoints both resolve, each once |
| `ChainPartition.GapsExactly` | crates/pnull-procurement/src/chain.rs:325-334 | the gaps are those of the other kept candidates, each once |
| `ChainEvidence.EvidenceIsFinalExactly` | crates/pnull-procurement/src/chain.rs:354-372 | no further snapshot can change the evidence of an event if and only if every evidence id before the one that resolves is already stored |
| `ChainEvidence.SingleEvidenceIsSettled` | crates/pnull-procurement/src/chain.rs:354-372 | events bound to a single evidence id have final evidence |
| `ChainEvidence.LinksAreFinal` | crates/pnull-procurement/src/chain.rs:277-372 | inserting any snapshots keeps every link as it is and can only turn gaps into links |
| `ChainEvidence.LinkStages` | crates/pnull-procurement/src/chain.rs:344-352 | the stages of a link strictly advance and are, as a pair, those of its two events |
| `ChainEvidence.FromEvidenceIsEarlierExactly` | crates/pnull-procurement/src/chain.rs:298-312 | every link of a chain names two events in list order, and its evidence is on the documented sides if and only if the first of them has the earlier stage |
| `ChainEvidence.DocumentedSidesExactly` | crates/pnull-procurement/src/chain.rs:142-145 | all links of a chain have their evidence on the documented sides if and only if no linked pair of events is listed with its later stage first |
| `ChainEvidence.EvidenceCanBeReversed` | crates/pnull-procurement/src/chain.rs:142-145 | an award listed before its solicitation gives a link whose `from` evidence is that of the award |
| `ChainEvidence.NulIdsCollide` | crates/pnull-procurement/src/chain.rs:290-297 | with a NUL in event ids, two different pairs would share a pair key |
| `ChainEvidence.OnlyOneIsKept` | crates/pnull-procurement/src/chain.rs:290-297 | and then only one of them would be kept |
| `ChangeAlert.FieldDiffs` | crates/pnull-procurement/src/changealert.rs:109-127 | the five fields are compared in order; no diffs means equal fields, and applying the diffs gives the new fields |
| `ChangeAlert.DiffsExactly` | crates/pnull-procurement/src/changealert.rs:109-127 | there are no diffs if and only if the fields are equal, and applying the diffs to the old fields gives the new ones |
| `ChangeAlert.BuildChangeAlerts` | crates/pnull-procurement/src/changealert.rs:137-261 | both passes over the two identity maps compute the specified list of alerts, sorted by id |
| `ChangeReplay.IsChangeExactly` | crates/pnull-procurement/src/changealert.rs:151-255 | a change is due for an identity exactly if it was removed, added, or differs in one of the five fields |
| `ChangeReplay.AlertsExactly` | crates/pnull-procurement/src/changealert.rs:151-261 | the alerts are exactly those for the changes that are due, each once |
| `ChangeReplay.AlertsAreChanges` | crates/pnull-procurement/src/changealert.rs:137-261 | for any rows, the alerts are exactly those for the differences between the two identity maps, each once |
| `ChangeReplay.OneAlertPerIdentity` | crates/pnull-procurement/src/changealert.rs:151-261 | for any rows, no identity has two alerts |
| `ChangeReplay.AlertsReplay` | crates/pnull-procurement/src/changealert.rs:151-261 | for any rows and any identity, replaying the alerts on its old field values gives its new ones; only where there were none are the values of an addition supplied |
| `ChangeOrder.OrderIsIgnored` | crates/pnull-procurement/src/changealert.rs:130-136 | where rows of one identity agree, permuting either list leaves the alert list identical |
| `ChangeReplay.DistinctRowsAgree` | crates/pnull-procurement/src/changealert.rs:151-160 | rows with pairwise distinct identities meet the condition of the laws on order and replay |
| `ChangeOrder.ReorderingIsSilentExactly` | crates/pnull-procurement/src/changealert.rs:151-170 | reordering a list is silent if and only if its rows of one identity agree in the five fields, since the last row of an identity wins |
| `ChangeOrder.JointAwardRaisesAnAlert` | crates/pnull-procurement/src/changealert.rs:130-160 | two rows of one solicitation with different contractors share an identity, and listing them the other way round raises an alert |
| `ChangeOrder.NoAlertsWithoutChange` | crates/pnull-procurement/src/changealert.rs:137-261 | the same rows on both sides give no alert |
| `ChangeOrder.SwapExchangesAlerts` | crates/pnull-procurement/src/changealert.rs:137-261 | for any rows, a change is alerted if and only if, with the sides swapped, its mirror image is, which exchanges added with removed and old with new raw values |
| `ChangeOrder.AlertStore.InsertProcurementAlert` | crates/pnull-core/src/lib.rs:1256-1261 | insert or ignore: a stored alert is never changed |
| `ChangeOrder.AlertStore.PersistChangeAlerts` | crates/pnull-procurement/src/changealert.rs:308-319 | counts what it inserts and keeps every stored alert |
| `ChangeOrder.PersistTwiceIsOnce` | crates/pnull-procurement/src/changealert.rs:308-319 | persisting the same alerts again inserts nothing |
| `ChangeOrder.AlertIdIsInjective` | crates/pnull-procurement/src/changealert.rs:266-290 | under one pair of snapshots, ids name identity and kind of change |
| `ChangeOrder.EveryAlertIsStored` | crates/pnull-procurement/src/changealert.rs:308-319 | into a table without their ids, all alerts of a comparison are stored |
| `AwardRows.NoAlertsExactly` | crates/pnull-procurement/src/changealert.rs:137-261 | no alert is raised if and only if both maps hold the same field values for every identity |
| `AwardRows.SilentTogetherExactly` | crates/pnull-procurement/src/changealert.rs:83-97 | for rows that agree per identity and have no separator inside, the record-level diff is silent if and only if no alert is raised and each identity has equally many rows on both sides |
| `AwardRows.DistinctRowsAreSilentTogether` | crates/pnull-procurement/src/changealert.rs:83-97 | for rows with distinct identities and no separator inside, the diff is silent if and only if the alerts are |
| `AwardRows.JointAwardIsOnlyAnAlert` | crates/pnull-procurement/src/changealert.rs:83-97 | a joint award listed the other way round raises an alert, and the diff is silent |
| `AwardRows.RepeatedRowIsOnlyAChange` | crates/pnull-procurement/src/changealert.rs:83-97 | a row listed once more is a change in the diff, and raises no alert |
| `AwardRows.MovedSeparatorIsOnlyAnAlert` | crates/pnull-procurement/src/changealert.rs:83-97 | a separator that moves from one field to the next raises an alert, and the diff is silent |
| `Pagination.JobBudgetTracker.constructor` | crates/pnull-ingest/src/budget.rs:73-85 | a new tracker has counted nothing |
| `Pagination.JobBudgetTracker.AddDownloadedBytes` | crates/pnull-ingest/src/budget.rs:87-96 | adds with saturation, then accepts exactly if the limit is not passed |
| `Pagination.CollectEvent` | crates/pnull-ingest/src/lib.rs:1098-1129 | one event with its matters and capped attachments, unless its id was seen |
| `Pagination.ReadPage` | crates/pnull-ingest/src/lib.rs:1096-1142 | reads a page up to its end, a cap, or an event without an id, and says which |
| `Pagination.NextPage` | crates/pnull-ingest/src/lib.rs:1094-1158 | one page with the checks after it; the check for a repeated page cannot succeed |
| `Pagination.PaginateEvents` | crates/pnull-ingest/src/lib.rs:1057-1166 | against any page source: offsets and number of calls, the bytes charged (exactly those of the pages on success, below a limit of 2^64 − 1), the collected result, and for each error its cause |
| `PaginationLaws.CollectExactly` | crates/pnull-ingest/src/lib.rs:1114-1129 | what is collected is determined by the first occurrences of the events read |
| `PaginationLaws.FirstEventsExactly` | crates/pnull-ingest/src/lib.rs:1114-1116 | first occurrences have distinct ids and cover every id |
| `PaginationLaws.ReturnsFirstOccurrences` | crates/pnull-ingest/src/lib.rs:1057-1166 | the events returned are a prefix of the first occurrences in all pages fetched; matters are distinct; attachments are capped for each event |
| `PaginationLaws.ReturnsWithinBounds` | crates/pnull-ingest/src/lib.rs:1052-1056 | pages ≤ `max_pages` and ≤ events + 1, events ≤ max(1, `max_events`), attachments ≤ cap × events, matters below the cap before the last event |
| `PaginationLaws.ReasonExactly` | crates/pnull-ingest/src/lib.rs:1127-1159 | each cap is reported as the reason exactly when it is reached, and "repeated page" never is |
| `PaginationLaws.UncappedIsComplete` | crates/pnull-ingest/src/lib.rs:1146-1166 | a pass that no cap stops returns every first occurrence of its pages, and a non-progressing page had none |
| `PaginationLaws.OffsetsExactly` | crates/pnull-ingest/src/lib.rs:1082-1084 | call k uses the offset min(k × page size, 2^32 − 1) |
| `PaginationLaws.DiscoverExactly` | crates/pnull-ingest/src/lib.rs:1171-1240 | discovery finds exactly the matters of items that name one, and their attachments with an https link |
| `PaginationCaps.TakenUpExactly` | crates/pnull-ingest/src/lib.rs:1096-1159 | of the first occurrences in its pages a pass returns exactly those before which no cap is reached |
| `PaginationCaps.OutcomeIsDetermined` | crates/pnull-ingest/src/lib.rs:1057-1166 | limits and page source determine the whole outcome: events, matters, attachments, pages fetched and the reason to stop |
| `PaginationCaps.MatterCapExactly` | crates/pnull-ingest/src/lib.rs:1117-1159 | a pass goes beyond `max_matters` if and only if, among the first occurrences in its pages, some event is taken up with which they name more matters than the cap |
| `PaginationCaps.SingleMattersKeepTheCap` | crates/pnull-ingest/src/lib.rs:1117-1159 | events of at most one matter each never pass it |
| `PaginationCaps.AttachmentsAreCompleteExactly` | crates/pnull-ingest/src/lib.rs:1123-1127 | a pass loses an attachment if and only if, of the first occurrences in its pages, one with more attachments than the cap is taken up |
| `PaginationCaps.AttachmentCapExactly` | crates/pnull-ingest/src/lib.rs:1123-1127 | a matter gets more attachments than `max_attachments_per_matter` if and only if, of the first occurrences in its pages, some are taken up whose capped shares for it add up to more |
| `PaginationCaps.PassingTakesTwoEvents` | crates/pnull-ingest/src/lib.rs:1123-1127 | a matter that passes the cap has attachments in two events |
| `PaginationCaps.OneEventOvershoots` | crates/pnull-ingest/src/lib.rs:1117-1127 | one event whose items name two matters with a file each: under caps of one, both matters and one of the two files come back |
| `PaginationCaps.TwoEventsDoubleTheCap` | crates/pnull-ingest/src/lib.rs:1123-1127 | one matter in two events: twice the cap of attachments comes back for it |
| `Geometry.ValidateRectExactly` | crates/pnull-geometry/src/lib.rs:76-100 | a rectangle passes if and only if it is finite, not negative, not empty and within the page |
| `Geometry.ValidateTextMap` | crates/pnull-geometry/src/lib.rs:319-324 | passes if and only if every word rectangle is valid, and otherwise reports the first error |
| `Geometry.JoinWords` | crates/pnull-geometry/src/lib.rs:338-364 | the pass that edits its last element in place computes the joined words of the groups of fragments |
| `Geometry.FindOccurrences` | crates/pnull-geometry/src/lib.rs:333-385 | the sliding window returns the rectangles of every matching window |
| `Geometry.OccurrencesAreValid` | crates/pnull-geometry/src/lib.rs:338-364 | on a valid page every occurrence has one rectangle for each word of the quote, at least one, and all are valid |
| `Geometry.BuildPageCitation` | crates/pnull-geometry/src/lib.rs:393-436 | of its checks after the validation of the page only the missing occurrence can fail |
| `Geometry.CiteQuote` | crates/pnull-ingest/src/lib.rs:978-1004 | the first page that is invalid or has the occurrence decides; no other check can fail |
| `GeometryLaws.OccurrencesExactly` | crates/pnull-geometry/src/lib.rs:371-384 | the occurrences are the windows at every matching position, from left to right |
| `GeometryLaws.GroupsShareOut` | crates/pnull-geometry/src/lib.rs:340-364 | every word of the page that is not blank is part of exactly one joined word, in order |
| `GeometryLaws.MergedCovers` | crates/pnull-geometry/src/lib.rs:347-354 | a joined rectangle covers its fragments at the right, upper and lower edge, and keeps the left edge of the first |
| `GeometryLaws.LeftEdgeExactly` | crates/pnull-geometry/src/lib.rs:347-354 | it covers them at the left if and only if none starts left of the first |
| `GeometryLaws.ContinuationSticksOut` | crates/pnull-geometry/src/lib.rs:347-354 | the continuation of a word broken over two lines does not |
| `GeometryLaws.InnerHyphenIsNeverFound` | crates/pnull-geometry/src/lib.rs:330-364 | a quotation with a word that ends in a hyphen, and is not its last, is never found |
| `GeometryLaws.RunMatchesInPlaceExactly` | crates/pnull-geometry/src/lib.rs:330-385 | a run of words of the page, quoted word for word, matches at its own place if and only if none of its words but the last, nor the word before it, ends in a hyphen, nor the last unless it ends the page |
| `GeometryLaws.FreeRunIsFound` | crates/pnull-geometry/src/lib.rs:371-385 | and then it is among the occurrences, with the rectangles of its own words |
| `GeometryLaws.VerbatimIsFoundExactly` | crates/pnull-geometry/src/lib.rs:330-385 | a whole page quoted word for word is found on it if and only if no word but the last ends in a hyphen |
| `Relationships.TokenizeIdentifiers` | crates/pnull-procurement/src/relationships.rs:287-300 | the upper-cased stripped words with at least three letters or digits, in order |
| `Relationships.IndexIdentifiers` | crates/pnull-procurement/src/relationships.rs:95-114 | the index holds each stored identifier under its match key, in order |
| `Relationships.MatterResolvesToValidSnapshot` | crates/pnull-procurement/src/relationships.rs:255-272 | true if and only if some event of the matter is bound to a snapshot with a valid digest |
| `Relationships.FindNearMiss` | crates/pnull-procurement/src/relationships.rs:305-325 | the first identifier under the last key that is near |
| `Relationships.Store.LinkTargets` | crates/pnull-procurement/src/relationships.rs:147-205 | stores the links of all linkable targets of a candidate, and says whether there was one |
| `Relationships.Store.DetectOfficialRelationships` | crates/pnull-procurement/src/relationships.rs:88-245 | tables and outcome after a pass are those of its findings, applied in order with insert-or-ignore |
| `RelationshipLaws.MatchesExactly` | crates/pnull-procurement/src/relationships.rs:118-162 | a match is found if and only if field and both snapshots are in order, the keys are equal, and the target is not of the matter of the record in the same spelling but for letter case |
| `RelationshipLaws.NearMissesExactly` | crates/pnull-procurement/src/relationships.rs:206-212 | a near miss is found only for a candidate without any match, and names one target |
| `RelationshipLaws.IsNearExactly` | crates/pnull-procurement/src/relationships.rs:309-319 | the comparison by bytes accepts exactly the keys that differ in the last character, by another ASCII one |
| `RelationshipLaws.NearMissIsStored` | crates/pnull-procurement/src/relationships.rs:302-325 | the target of a near miss is stored under a key that differs from the candidate only in the last character |
| `RelationshipLaws.ApplyRecords` | crates/pnull-procurement/src/relationships.rs:88-245 | a pass changes no stored row and records every finding |
| `RelationshipLaws.LinksAreJustified` | crates/pnull-procurement/src/relationships.rs:3-16 | every link that a pass adds to any store is an exact match: links are never invented |
| `RelationshipKept.FirstIsKept` | crates/pnull-procurement/src/relationships.rs:163-204 | after a pass each id holds the link it held before, or else that of the first match with it |
| `RelationshipKept.MatchesAreLinked` | crates/pnull-procurement/src/relationships.rs:163-204 | every exact match leaves a link under its id: the one that was there, or else that of the first match with the id |
| `RelationshipKept.LinkIsKeptExactly` | crates/pnull-procurement/src/relationships.rs:163-204 | a match keeps its own link if and only if the store held no other under its id and the first match with the same record, field, raw identifier and snapshot has the same quote and matter |
| `RelationshipKept.SecondMatterIsDropped` | crates/pnull-procurement/src/relationships.rs:163-204 | an archive in which two matters store the raw identifier that a record cites: both are matched, and only the link to the first is stored |
| `RelationshipKept.SecondDetectionIsSilent` | crates/pnull-procurement/src/relationships.rs:88-245 | detecting again on the same archive and records, with an index built anew, returns nothing and leaves the tables as they are |
| `RelationshipKept.IndexIsDetermined` | crates/pnull-procurement/src/relationships.rs:95-114 | the stored identifiers determine the index |
| `RelationshipKept.OwnMatterIsLinkedExactly` | crates/pnull-procurement/src/relationships.rs:136-146 | a record is linked to its own matter if and only if an identifier of that matter has the key of the quote and another spelling, letter case aside |
| `RelationshipKept.OwnMatterIsLinked` | crates/pnull-procurement/src/relationships.rs:136-146 | a record that cites AB-1 is linked to its own matter, which stores AB1 |
| `RelationshipLaws.LinkIdExactly` | crates/pnull-core/src/procurement.rs:992-1007 | link ids agree exactly if record, field, raw identifier and snapshot do, whatever the matter |
| `RelationshipLaws.DigestIsAsDocumentedExactly` | crates/pnull-procurement/src/relationships.rs:274-277 | an accepted digest is as documented if and only if lowering its letters changes nothing |
| `RelationshipLaws.CapitalDigestIsAccepted` | crates/pnull-procurement/src/relationships.rs:274-277 | 64 capital letters are accepted |
| `CoraLedger.Ledger.RegisterDraft` | crates/pnull-procurement/src/cora_ledger.rs:64-113 | inserts the draft unless a request with its id exists |
| `CoraLedger.Ledger.InsertSuppliedRecord` | crates/pnull-core/src/lib.rs:1352-1362 | an imported record is inserted or ignored, never changed |
| `CoraLedger.Ledger.ApplyTransition` | crates/pnull-procurement/src/cora_ledger.rs:120-147 | appends one event and advances the state, or refuses and changes nothing, with the reason |
| `CoraLedger.Ledger.SubmitRequest` | crates/pnull-procurement/src/cora_ledger.rs:154-174 | the submitted transition |
| `CoraLedger.Ledger.LinkResponse` | crates/pnull-procurement/src/cora_ledger.rs:181-204 | the response transition, refused where the evidence is not an imported record |
| `CoraLedger.Ledger.ResolveGap` | crates/pnull-procurement/src/cora_ledger.rs:207-221 | the resolved transition |
| `CoraLedger.Ledger.KeepUnresolved` | crates/pnull-procurement/src/cora_ledger.rs:224-238 | the unresolved transition |
| `CoraLedger.Ledger.RequestResponseDigest` | crates/pnull-procurement/src/casefile.rs:392-407 | the search from the newest event back returns the digest that the third word of the newest response note names |
| `CoraLedgerLaws.RunKeeps` | crates/pnull-procurement/src/cora_ledger.rs:3-8 | after any run the state of a request is that of its last event, adjacent events differ, and only the first is the draft |
| `CoraLedgerLaws.RunAppends` | crates/pnull-procurement/src/cora_ledger.rs:115-147 | a run only appends: events, requests and records once there stay as they are |
| `CoraLedgerLaws.NoteNamesIdExactly` | crates/pnull-procurement/src/cora_ledger.rs:192-195 | the evidence id can be read back from the note if and only if it is not empty and has no white space |
| `CoraLedgerLaws.ReportsLastLinked` | crates/pnull-procurement/src/casefile.rs:388-407 | the digest reported for a request is that of the evidence linked last, if its id is a word |
| `Joining.JoinedExactly` | crates/pnull-procurement/src/cora_ledger.rs:33-57 | two lists of parts joined by the separator give one text if and only if, cut at the separators inside them, they have the same pieces |
| `CoraLedgerLaws.GapDigestExactly` | crates/pnull-procurement/src/cora_ledger.rs:33-57 | any two gap sets share a digest if and only if their parts, cut at separators inside them, are the same list; without separators, if and only if their parts are |
| `CoraLedgerLaws.SameGapExactly` | crates/pnull-procurement/src/cora_ledger.rs:33-57 | gaps are equal if and only if their parts are and they have the same shape: lengths of lists, and which optional values are there |
| `CoraLedgerLaws.SeparatorPartsCollide` | crates/pnull-procurement/src/cora_ledger.rs:33-57 | a part with the separator inside shares a digest with the two parts it separates |
| `CoraLedgerLaws.DifferentGapsShareADigest` | crates/pnull-procurement/src/cora_ledger.rs:27-57 | moving a part to the next list, opening the other end of a range, or naming an empty vendor gives the same digest |
| `CoraLedgerLaws.SecondDraftIsLost` | crates/pnull-procurement/src/cora_ledger.rs:58-113 | the second of two drafts whose gaps have the same parts is not registered |
| `CoraLedgerLaws.EventIdsExactly` | crates/pnull-procurement/src/cora_ledger.rs:120-147 | after any run, two events of a request share an id if and only if they agree in state and time, and events neither drafted nor submitted if and only if they agree in state |
| `CoraLedgerLaws.ResponseEventsShareAnId` | crates/pnull-procurement/src/cora_ledger.rs:196-203 | in any ledger, a request that is responded to, reopened and responded to again holds two events with one id |
| `CoraLedgerLaws.SuchALedgerIsReached` | crates/pnull-procurement/src/cora_ledger.rs:64-113 | such a ledger is reached from the empty one by one import and one draft |
| `HttpFetch.ProvenanceFetch` | crates/pnull-http/src/lib.rs:267-364 | the loop makes a run of the protocol and returns what the run ends in, with every request on record |
| `HttpFetch.React` | crates/pnull-http/src/lib.rs:323-358 | what the status of an answer decides, and the observation it completes |
| `HttpFetchLaws.RunIsSafe` | crates/pnull-http/src/lib.rs:267-364 | every request goes to an https URL of a reviewed host with public addresses only, conditions go only with the first, each follows the redirect before it, and there are at most six |
| `HttpFetchLaws.ResultIsDetermined` | crates/pnull-http/src/lib.rs:267-364 | resolver and transport determine requests and result |
| `HttpFetchLaws.DeliveryExactly` | crates/pnull-http/src/lib.rs:327-364 | on success there is one observation for each request, in order, and exactly one of a body and "unchanged" |
| `HttpFetchLaws.SecondHostCheckIsRedundant` | crates/pnull-http/src/lib.rs:289-296 | the host check at the head of the loop never fails |
| `HttpFetch.ValidateResolvedExactly` | crates/pnull-http/src/lib.rs:173-188 | resolved addresses pass if and only if there is one and all are public; a mixed answer is told apart |
| `HttpFetchLaws.AllowlistExactly` | crates/pnull-http/src/lib.rs:208-218 | the persisted headers are those on the list in any letter case, in lower case |
| `HttpFetchLaws.OnlyAllowlistedIsObserved` | crates/pnull-http/src/lib.rs:190-218 | no other header is in any observation |
| `HttpFetchLaws.SensitiveHeadersAreNotListed` | crates/pnull-http/src/lib.rs:190-206 | cookies and authorization are not on the list |
| `HttpFetchEnds.CarryOn` | crates/pnull-http/src/lib.rs:267-364 | any run so far can be carried on to an end |
| `HttpFetchEnds.RedirectLoopExactly` | crates/pnull-http/src/lib.rs:403-419 | where resolver and transport report none themselves, a redirect loop is reported if and only if the last answer redirects to the URL just requested |
| `HttpFetchEnds.RevisitIsNotReported` | crates/pnull-http/src/lib.rs:403-419 | a URL that is requested again was left in between, and the run went on as if it were new |
| `HttpFetchLaws.TwoUrlLoopRunsOut` | crates/pnull-http/src/lib.rs:403-419 | a loop over two URLs ends in too many redirects after six requests |
| `HttpFetchEnds.LoopRunsOut` | crates/pnull-http/src/lib.rs:403-419 | a server with two pages that redirect to each other: the run comes back to its first URL twice and is not reported as a loop |
| `HttpFetchEnds.RecordedExactly` | crates/pnull-http/src/lib.rs:267-364 | the requests of a run are recorded in its result if and only if the run ends in a delivery |
| `HttpFetchEnds.FailureIsNotRecorded` | crates/pnull-http/src/lib.rs:352-358 | a server that answers with an error status: one request is made and answered, and the result says nothing about it |
| `HttpFetchEnds.NotModifiedUnaskedExactly` | crates/pnull-http/src/lib.rs:284-345 | a request carries no condition if and only if it is not the first, or there is no earlier evidence, or neither tag nor date of it; so a fetch returns "unchanged" with no condition on the request so answered if and only if the last answer is a 304 and there was a redirect, or no earlier evidence, or neither tag nor date of it; it then refers to earlier evidence exactly if there is some |
| `HttpFetchEnds.FirstIsNotModified` | crates/pnull-http/src/lib.rs:339-345 | without earlier evidence, a 304 to the first request is returned as unchanged and refers to nothing |
| `HttpFetchEnds.MovedIsNotModified` | crates/pnull-http/src/lib.rs:284-345 | with an etag at hand, the condition goes to the first URL only; a 304 from the URL it redirects to is returned as unchanged and refers to the earlier evidence |

## Left out

- SQLite, the file system, permissions, atomic file writes and schema migration.
- The SHA-256 computation, URL and JSON parsing, DNS and the classification of IP addresses.
- `record_snapshot`, `refresh_live_with` and coverage entries: glue around the modelled parts.
- HTML scraping and the regex taxonomy: their behaviour lies in libraries outside the repository.
- Poppler, Tesseract, the sandbox, image rendering and PDF parsing: foreign processes.
- The command line, Markdown and JSON rendering and draft texts: output only.
- Summary texts of alerts and diffs, citations and locators of relationship links, and the fields of
  rows, matters and events that no modelled decision reads.
- `normalized_range`: it mixes byte and character positions; its result is a parameter of `CiteQuote`.
- Stage grouping, review suggestions and rendering of the chain view: they do not affect links or gaps.
- The other counters of the budget tracker: the same saturating addition.
- Observation ids and content metadata in the HTTP client; of its conditional result, all but the reference to earlier evidence.
- Geometry.CiteQuote: the evidence record and text maps are parameters, read once before the loop.
- Pagination.PaginateEvents: an event is its id, its items and an opaque rest, since its JSON is not modelled;
  a page source is a function of the number of the call and the offset, so it cannot react to memory it shares.
- Relationships.Store.DetectOfficialRelationships: store errors are not modelled; the tables it reads are fixed during a pass.
- ChangeReplay.AlertsReplay: the field values of an addition are supplied, since an alert carries no fields of an added row.
- RowStore.WriteOutcome: assumes that metadata describes the rows it comes with, as the code never compares them.
- ChainPartition.BuildChain: assumes distinct event ids without NUL, as primary keys and stable ids are.
