# AgentFirm control plane and dashboard: a verified model

A Dafny model of the parts of the repository where state, concurrency or byte-level
detail make correctness hard to see, with proofs over every input, every run or every
interleaving. `dafny verify dfyconfig.toml` checks all of it.

- **Dashboard coordinator.** `SnapshotProtocol` describes the snapshot buffer as a state
  machine over call histories, `SnapshotReplay` what its journal brings into a response;
  `SnapshotFrameBuffer` is the class, tied to it by a ghost history. `InvalidationTracker`
  does the same for projection invalidations.
- **Projection folds.** `FoldRuns` treats any append-only row fold; `WorkDeliveryFold` and
  `HostAttentionFold` are the two of the application.
- **Ledger bytes.** `JsonlLedger`, `LinkedRows`, `LatestProjection`, `JsonPointer` and
  `LegacyLinks` model the legacy export; `RowReader`, `ReadBudget`, `Rollout`,
  `SessionSearch` and `SessionFinders` the native session discovery.
- **Control plane.** `RegistryTable`, `ProjectRegistry` and `SpaceRegistry` model registries,
  markers, metadata and receipts; every write may fail, one that is not atomic may leave its
  file cut short, and registry and lock file share the names of the stores. `SpaceMigration`
  is the migration as a protocol, `MigrationRuns` what holds over all interleavings of
  migrations and environment, and `MigrationProgress` what a migration reaches on its own.
- **Bounded observation and projection.** `StartObservation`, `ControlSocket` and
  `ViewerContext`, with `Ordering` for text order and sorting.

JSON parsing, the link rules, row classification, the path hash, clocks, sockets and the file
system are parameters or explicit steps. Sequence and request numbers are unbounded; the
attempt counter and the delivery version have the widths of the source.

Where the code does not keep what it promises, the model keeps the code, shows the input
and proves the exact condition:

- Activity cleared while a read is in flight returns with that read
  (`SnapshotProtocol.ClearedActivityReturns`, `ReadCarriesRegistryExactly`).
- A host attention row can be applied twice at the largest 32-bit attempt
  (`HostAttentionFold.ReappliedExactlyAtSaturation`).
- Projecting the latest rows can drop a row without an id, in the first projection or only in
  the second, when another row's id has the form `__line_N`
  (`LatestProjection.ProjectionKeepsLastExactly`, `ProjectionIsIdempotentExactly`).
- Project registry, marker and metadata are written in place. A save that fails after
  truncating leaves an empty registry that loads without an error
  (`ProjectRegistry.CutSaveLosesProjects`, `CreationKeptExactly`), and a marker cut short can
  make a later `add` fail (`CutMarkerStrandsAdd`, `AddSucceedsExactly`).
- A directory `_global` in the home directory shares the reserved project id
  (`ProjectRegistry.ReservedIdExactly`); the comment at crates/firm-core/src/registry.rs:208
  says it cannot. Other roots share ids too, and then `add` replaces the root of the active
  project (`SharedIdExactly`, `AddKeepsRootExactly`).
- A migration given a blank name, whose activation failed before its first write, recovers
  with the blank name instead of the id (`SpaceRegistry.SwitchRecovers`).
- `registry.json` is a valid space id, and in a home without a registry its directory takes the
  registry's place: a migration of that id is published, and then neither the advertised switch
  nor any other call ever succeeds (`SpaceRegistry.RegistryIdStrandsHome`, `SwitchRecovers`,
  `BlockedExactly`, `MigrationProgress.UncontestedMigrationCompletes`). The lock file's name is a
  valid id too, and is always refused (`SpaceRegistry.LockIdIsRefused`,
  `MigrationProgress.LockIdFails`).
- The same holds of the project root `registry.json` in the home directory
  (`ProjectRegistry.RegistryIdExactly`, `RegistryRootStrandsHome`, `RunIsSound`, `RunMirrors`,
  `AddSucceedsExactly`).
- A rollout row of more than 64 KiB whose type shows within the last 8 KiB of them is accepted or
  refused by its place in the file (`ReadBudget.SameRowTwoFates`, `OffsetDecides`,
  `DeliveredAnywhereExactly`).
- Between a wait on the control socket and the read or write behind it the deadline is not
  checked: I/O can start late, exactly when its wait returned late
  (`ControlSocket.LateWriteIsSent`, `StartsInTimeExactly`).
- When the staging name is taken, the failed creation removes the directory that holds it
  (`MigrationProgress.TakenNameIsRemoved`, `CreationIsHarmlessExactly`).
- Between verification and rename nothing protects the staging directory: what is put there is
  published (`MigrationProgress.TamperedStagingIsPublished`,
  `MigrationRuns.PublicationHoldsPlanExactly`).

The results on migrations assume that staging names are unlike each other, unlike every target
and unlike the registry and its lock, as the generated transaction ids make them; each result
that also needs a staging name to be free or unwritten by others says so.

## Model

| member | source | states |
|---|---|---|
| `SnapshotProtocol.ReadCommitsExactly` | apps/agent-dashboard/src/api.ts:735-834 | For every history of calls on issued tokens, resolving a read returns a snapshot exactly when, since that read began, no mutation has begun, no reset has happened, and the read was neither discarded nor already resolved. |
| `SnapshotProtocol.MutationCommitsExactly` | apps/agent-dashboard/src/api.ts:743-753 | A mutation response commits exactly when no newer mutation and no reset followed it. |
| `SnapshotProtocol.ReadBeginsExactly` | apps/agent-dashboard/src/api.ts:735-759 | A read is handed out exactly when every mutation begun so far was finished with its own token or met a reset, and every read handed out so far has ended. |
| `SnapshotProtocol.ReadIsHandedOutExactly` | apps/agent-dashboard/src/api.ts:735-759 | The same of each read request of a history, by the calls before it. |
| `SnapshotProtocol.ReadFate` | apps/agent-dashboard/src/api.ts:735-767 | The read issued by a call is the coordinator's latest read exactly while nothing has ended it, and then it is still pending under its own token and generation. |
| `SnapshotProtocol.MutationFate` | apps/agent-dashboard/src/api.ts:743-759 | The mutation issued by a call is the latest mutation exactly until the next mutation or reset. |
| `SnapshotProtocol.ActiveFate` | apps/agent-dashboard/src/api.ts:743-759 | A mutation counts as active exactly from the call that began it until it is finished or a reset comes. |
| `SnapshotProtocol.IssuedOnce` | apps/agent-dashboard/src/api.ts:846-856 | Two issued tokens with one identifier are one token, so a caller can never be mistaken for another. |
| `SnapshotProtocol.TokenGeneration` | apps/agent-dashboard/src/api.ts:743-856 | A token's generation is the number of mutations and resets up to its own call, which a mutation counts as well. |
| `SnapshotProtocol.JournalInvariant` | apps/agent-dashboard/src/api.ts:770-874 | In every reachable state the buffered frames are exactly the consecutive sequence numbers above the larger of the smallest pending frame sequence and next minus 4096, up to next, and the buffer is empty when nothing is pending. |
| `SnapshotProtocol.JournalIsCapped` | apps/agent-dashboard/src/api.ts:779-781 | In every reachable state the buffer holds at most 4096 frames. |
| `SnapshotProtocol.RetainedIsSuffix` | apps/agent-dashboard/src/api.ts:864-874 | Pruning consecutive frames keeps a suffix, cut at the earliest unresolved request. |
| `SnapshotProtocol.ResponseActivity` | apps/agent-dashboard/src/api.ts:798-834 | A committed response keeps the server's durable fields, ignores any activity the server sent, and carries the registry unless the registry is empty while the journal still holds newer activity; that condition is exact. |
| `SnapshotProtocol.UnrebasedResponseCarriesRegistry` | apps/agent-dashboard/src/api.ts:587-834 | If the registry was not replaced, cleared or reset since the request began, the response's live activity is exactly the registry, absent when empty: replay, pruning and the cap never change it. |
| `SnapshotProtocol.ReadCarriesRegistryExactly` | apps/agent-dashboard/src/api.ts:770-834 | For a committed read the activity field differs from the registry exactly when activity was recorded since it began and the registry is empty at the end. |
| `SnapshotProtocol.ClearedActivityReturns` | apps/agent-dashboard/src/api.ts:789-828 | A history in which cleared activity comes back with a read: the journal replays what clearing removed. |
| `SnapshotReplay.ReplayedActivityIsHighest` | apps/agent-dashboard/src/api.ts:587-828 | A committed read's stamp is that of the last activity since the request that raised its member's revision; if the registry is empty, its activity is for each member the first of the highest revision among the newest 4096 recorded since the request. |
| `SnapshotProtocol.RegistryIsHighestRevision` | apps/agent-dashboard/src/api.ts:770-776 | For every member the registry holds the first activity of the highest revision offered since the last replace, clear or reset. |
| `SnapshotProtocol.RegistryIsRebased` | apps/agent-dashboard/src/api.ts:785-844 | A replaced registry is what it was replaced with, and a cleared or reset one is empty. |
| `SnapshotFrameBuffer.FrameBuffer.BeginReadRequest` | apps/agent-dashboard/src/api.ts:735-740 | A read begins exactly when, by the calls made, every mutation was settled and every earlier read has ended; the new state is that of the extended history. |
| `SnapshotFrameBuffer.FrameBuffer.BeginMutationRequest` | apps/agent-dashboard/src/api.ts:743-753 | A mutation always begins, its token is the one the history issues at this call, and until it is settled no read begins. |
| `SnapshotFrameBuffer.FrameBuffer.FinishMutationRequest` | apps/agent-dashboard/src/api.ts:755-759 | Settles a mutation: the new state is that of the extended history. |
| `SnapshotFrameBuffer.FrameBuffer.DiscardRequest` | apps/agent-dashboard/src/api.ts:762-767 | Releases a request and its claim on the journal. |
| `SnapshotFrameBuffer.FrameBuffer.RecordFrame` | apps/agent-dashboard/src/api.ts:770-782 | Durable frames change nothing, and the buffer holds at most 4096 frames afterwards. |
| `SnapshotFrameBuffer.FrameBuffer.ReplaceLiveMemberActivity` | apps/agent-dashboard/src/api.ts:785-787 | The registry becomes the given one, and nothing else changes. |
| `SnapshotFrameBuffer.FrameBuffer.ClearLiveMemberActivity` | apps/agent-dashboard/src/api.ts:789-791 | The registry becomes empty, and nothing else changes. |
| `SnapshotFrameBuffer.FrameBuffer.ResolveResponse` | apps/agent-dashboard/src/api.ts:798-834 | Answers exactly when the calls since the request began allow it, with the server's durable fields and the specified activity. |
| `SnapshotFrameBuffer.FrameBuffer.ResetAll` | apps/agent-dashboard/src/api.ts:836-844 | Drops every request, frame and activity, and starts a new generation. |
| `SnapshotFrameBuffer.FrameBuffer.PruneFrames` | apps/agent-dashboard/src/api.ts:864-874 | Filtering above the earliest pending sequence keeps exactly the frames some unresolved request still needs. |
| `InvalidationTracker.DecisionFromHistory` | apps/agent-dashboard/src/api.ts:656-679 | Under one fixed scope each decision follows from the calls before it: a duplicate is exactly a revision at or below one that was refreshed in this epoch, and gap is set exactly when there is an earlier one and the revision exceeds the highest by more than one. |
| `InvalidationTracker.InScopeExactly` | apps/agent-dashboard/src/api.ts:663-667 | An invalidation is in scope exactly when it names the confirmed id of its kind and that id is not empty. |
| `InvalidationTracker.RefreshBehind` | apps/agent-dashboard/src/api.ts:656-679 | Behind every call the epoch remembers stands one that was answered with a refresh, with at least its revision. |
| `InvalidationTracker.RefreshesIncrease` | apps/agent-dashboard/src/api.ts:656-679 | Since the last reset or epoch change, refreshes of one ledger have strictly increasing revisions. |
| `InvalidationTracker.MemoryIsMaximum` | apps/agent-dashboard/src/api.ts:647-679 | The remembered revision of a ledger is the highest observed in the current epoch, and is missing exactly when none was. |
| `InvalidationTracker.KeysTellLedgersApart` | apps/agent-dashboard/src/api.ts:668-668 | Under one scope two invalidations share a key exactly when they concern the same ledger. |
| `InvalidationTracker.KeysCollideAcrossIds` | apps/agent-dashboard/src/api.ts:668-668 | Across scopes the separator alone does not tell keys apart: two different ledgers with one key. |
| `InvalidationTracker.KeysCollideExactly` | apps/agent-dashboard/src/api.ts:668-668 | Two keys coincide exactly for one ledger of one id, or when an id is the other id, a NUL and a text with which the other ledger begins before a NUL. |
| `InvalidationTracker.KeysAreInjectiveWithoutNul` | apps/agent-dashboard/src/api.ts:668-668 | So keys tell ledgers apart, whatever the scopes, when no id holds a NUL. |
| `InvalidationTracker.Tracker.ResetEpoch` | apps/agent-dashboard/src/api.ts:651-654 | The memory becomes that of the history extended by a reset. |
| `InvalidationTracker.Tracker.ObserveInvalidation` | apps/agent-dashboard/src/api.ts:656-679 | The decision is the specified one and the memory that of the extended history. |
| `FoldRuns.RunIsChain` | crates/firm-application/src/projection_fold.rs:43-116 | For every sequence of offered rows the accepted distinct rows form a chain of advances from one insert, the projection is its last row, and its length counts the advances. |
| `FoldRuns.AcceptedInOrder` | crates/firm-application/src/projection_fold.rs:43-116 | Accepted rows stand on that chain in the order they were offered, and an advance always stands strictly later. |
| `WorkDeliveryFold.RunInvariant` | crates/firm-application/src/projection_fold.rs:43-74 | In every run the projected row has version one more than the number of advances and at most four, attempt one, the identity of the inserted row, and the evidence its status calls for. |
| `WorkDeliveryFold.InsertedExactly` | crates/firm-application/src/projection_fold.rs:140-161 | The first row of a delivery is accepted exactly when its identity is complete and everything else has its one initial value. |
| `WorkDeliveryFold.AdvancesExactly` | crates/firm-application/src/projection_fold.rs:43-239 | After every run the rows that advance the projection are exactly those of the same identity and the next version, along one of the five edges, that set claim, receipt and failure code where that edge does and leave them alone elsewhere. |
| `WorkDeliveryFold.RefusedExactly` | crates/firm-application/src/projection_fold.rs:43-74 | Every other row but the current one is refused, for the first of identity, version, content and lifecycle that is wrong. |
| `WorkDeliveryFold.EdgesExactly` | crates/firm-application/src/projection_fold.rs:164-233 | Some run advances from one status to another exactly along the five edges of the lifecycle. |
| `WorkDeliveryFold.AcceptedRowsAgree` | crates/firm-application/src/projection_fold.rs:129-239 | At most one content is ever accepted per version; identity, claim and receipt never change once set; after a failed row only that row is accepted. |
| `WorkDeliveryFold.EvidenceIsFrozen` | crates/firm-application/src/projection_fold.rs:164-239 | Along every chain claim and receipt are frozen once set and each advance moves the status forward. |
| `WorkDeliveryFold.NeverReapplied` | crates/firm-application/src/projection_fold.rs:43-74 | A row accepted earlier is never accepted again as an advance. |
| `WorkDeliveryFold.OnlyFailedAbsorbs` | crates/firm-application/src/projection_fold.rs:164-233 | A reachable row admits no advance exactly when it has failed. |
| `HostAttentionFold.ReappliedExactlyAtSaturation` | crates/firm-application/src/projection_fold.rs:96-116 | A row can be accepted and later accepted again as an advance exactly when it is valid, its attempt is the largest 32-bit value, and it is a claim or the outcome of a failed claim. |
| `HostAttentionFold.SaturatedRowRepeats` | crates/firm-application/src/projection_fold.rs:249-255 | One such row, with every field spelled out. |
| `HostAttentionFold.ReapplicationNeedsSaturation` | crates/firm-application/src/projection_fold.rs:249-279 | In every run a re-applied row stands at the saturated attempt counter, so below saturation there is none. |
| `HostAttentionFold.RankAlongChain` | crates/firm-application/src/projection_fold.rs:249-279 | Attempt and lifecycle position rise strictly along every chain except at the saturated counter. |
| `HostAttentionFold.SourceIsImmutable` | crates/firm-application/src/projection_fold.rs:79-91 | Every accepted source row of a run equals the first. |
| `HostAttentionFold.InsertedExactly` | crates/firm-core/src/work.rs:1026-1147 | A row is admitted exactly when none of its texts is blank, it names its work as its kind requires, and it holds the whole claim of a Host thread or of a managed member, or none, as its status requires. |
| `HostAttentionFold.AdvancesExactly` | crates/firm-application/src/projection_fold.rs:96-294 | From every admitted row the admitted rows that advance it are exactly those along one of the seven edges that count the attempt, state the reason and keep claim and receipt where that edge does; the others are refused for their reason. |
| `HostAttentionFold.EdgesExactly` | crates/firm-application/src/projection_fold.rs:249-279 | Some run advances from one status to another exactly along the seven edges of the lifecycle. |
| `HostAttentionFold.SourceInsertedExactly` | crates/firm-application/src/projection_fold.rs:241-247 | A source row is accepted exactly when it is admitted and has nothing set beyond its identity. |
| `HostAttentionFold.SourceVerdicts` | crates/firm-application/src/projection_fold.rs:79-91 | After a source row only that row is accepted again; another valid source is a conflict and anything else invalid. |
| `HostAttentionFold.AttemptCountsClaims` | crates/firm-application/src/projection_fold.rs:249-279 | Starting from a canonical source, the attempt equals the number of claims made, up to saturation. |
| `HostAttentionFold.ClaimIsFrozen` | crates/firm-application/src/projection_fold.rs:281-294 | The whole claim tuple is frozen from claimed to acknowledged, within one attempt. |
| `HostAttentionFold.RunFromSource` | crates/firm-application/src/projection_fold.rs:79-294 | Every row of a run from a canonical source keeps the identity, counts its claims, and carries a receipt and no failure reason when delivered or acknowledged. |
| `HostAttentionFold.AbsorbingStatuses` | crates/firm-application/src/projection_fold.rs:249-279 | From a canonical source a row admits no further advance exactly when it is acknowledged or needs escalation. |
| `JsonlLedger.LinesAreLossless` | crates/firm-cli/src/legacy_export.rs:1158-1186 | Splitting is lossless: the physical lines concatenate to the file, each is non-empty, and only the last may lack its newline. |
| `JsonlLedger.LinesOfFlatten` | crates/firm-cli/src/legacy_export.rs:1158-1186 | Any such list of lines is recovered from its concatenation. |
| `JsonlLedger.PhysicalLineCountIsExact` | crates/firm-cli/src/legacy_export.rs:1192-1199 | The counted lines are exactly the physical lines, with or without a final newline. |
| `JsonlLedger.ParseOutcome` | crates/firm-cli/src/legacy_export.rs:1158-1186 | Parsing succeeds exactly when every non-blank line parses, and otherwise names the first line that does not. |
| `JsonlLedger.RecordsMeaning` | crates/firm-cli/src/legacy_export.rs:1158-1186 | Records come in line order, and each carries its own line number, exact bytes and parsed value. |
| `JsonlLedger.RecordsAreComplete` | crates/firm-cli/src/legacy_export.rs:1158-1186 | Every non-blank line has its record. |
| `JsonlLedger.JsonlRecords` | crates/firm-cli/src/legacy_export.rs:1158-1186 | The splitting loop computes exactly these records or this error. |
| `JsonlLedger.KeptRowsReparse` | crates/firm-cli/src/legacy_export.rs:1158-1186 | Any subset of records, concatenated and parsed again, gives those records renumbered, even when the last source line has no newline. |
| `Json.IdentityExactly` | crates/firm-cli/src/legacy_export.rs:1219-1224 | A record's identity is the text of its id; the case id counts only where there is no id member at all. |
| `LinkedRows.SelectLinked` | crates/firm-cli/src/legacy_export.rs:724-744 | The two loops select exactly the linked rows and list their source lines. |
| `LinkedRows.ValidateLinkedRecords` | crates/firm-cli/src/legacy_export.rs:779-795 | Accepts exactly the files that parse and hold only linked rows. |
| `LinkedRows.SelectionIsClosed` | crates/firm-cli/src/legacy_export.rs:724-744 | A row selected for its identity still has a linked row of that identity among the selected. |
| `LinkedRows.SelectionIsIdempotent` | crates/firm-cli/src/legacy_export.rs:724-744 | Selecting again from the selection changes nothing. |
| `LinkedRows.ArchiveLinesMatchSource` | crates/firm-cli/src/legacy_export.rs:724-762 | Archive line N is byte-equal to source line source_lines[N-1], and the archive parses to exactly the selected records. |
| `LinkedRows.ArchiveIsClosed` | crates/firm-cli/src/legacy_export.rs:779-795 | Validation accepts every archive the selection wrote, and selecting from the archive reproduces it. |
| `LatestProjection.ProjectLatest` | crates/firm-cli/src/legacy_export.rs:1201-1217 | The map-based loop writes exactly the last record of each key in source order, or the parse error. |
| `LatestProjection.ProjectionReparses` | crates/firm-cli/src/legacy_export.rs:1201-1217 | The projection parses to exactly the records with no later record of the same key, in source order, where a row without id has the stand-in key of its line. |
| `LatestProjection.ProjectionKeepsLastExactly` | crates/firm-cli/src/legacy_export.rs:1201-1224 | The projection is the last record of each real identity plus every row without one, as rows and as bytes, exactly when no row without id at line n meets a real id __line_n. |
| `LatestProjection.FirstProjectionLosesRow` | crates/firm-cli/src/legacy_export.rs:1201-1224 | The ledger of the two rows {} and {"id":"__line_1"}, for every parser that reads them as JSON does: its first projection drops the row without an id. |
| `LatestProjection.ProjectionIsIdempotentExactly` | crates/firm-cli/src/legacy_export.rs:1201-1224 | Projecting twice equals projecting once exactly when no projected row without id sits on a line whose stand-in key is another row's real id. |
| `LatestProjection.IdempotentWithoutReservedIds` | crates/firm-cli/src/legacy_export.rs:1201-1224 | In particular it is idempotent when no real id has the reserved line form. |
| `LatestProjection.ProjectionIsNotAlwaysIdempotent` | crates/firm-cli/src/legacy_export.rs:1201-1224 | The same two rows after a blank line: the first projection keeps both, the second drops the row without an id. |
| `JsonPointer.EscapeRoundTrip` | crates/firm-cli/src/legacy_export.rs:1472-1474 | Unescaping by section 3 of RFC 6901 undoes the exporter's escaping, for every text. |
| `JsonPointer.PointerRoundTrip` | crates/firm-cli/src/legacy_export.rs:1432-1474 | Splitting and unescaping a rendered pointer gives back its tokens. |
| `JsonPointer.CollectRuleValues` | crates/firm-cli/src/legacy_export.rs:1432-1470 | The recursive collector appends exactly the specified emissions to the output it is given. |
| `JsonPointer.EmissionsAreReached` | crates/firm-cli/src/legacy_export.rs:1432-1470 | Nothing is emitted that the rule path does not reach. |
| `JsonPointer.ReachedIsEmittedOnce` | crates/firm-cli/src/legacy_export.rs:1432-1470 | Every token path the rule reaches below any base pointer is emitted exactly once. |
| `JsonPointer.EmittedPointersEvaluate` | crates/firm-cli/src/legacy_export.rs:1432-1474 | Every emitted pointer, evaluated on the record by section 4 of RFC 6901, returns the emitted non-blank string. |
| `JsonPointer.EveryReachedStringIsEmittedOnce` | crates/firm-cli/src/legacy_export.rs:1432-1470 | Every non-blank string the rule path reaches is emitted exactly once, under its own pointer. |
| `JsonPointer.RuleLinksExactly` | crates/firm-cli/src/legacy_export.rs:1421-1430 | A rule links a record exactly when its path reaches some non-blank string. |
| `LegacyLinks.CollectLinkValues` | crates/firm-cli/src/legacy_export.rs:1421-1430 | The loop over the rules of one ledger collects exactly their emissions, rule by rule. |
| `LegacyLinks.HasLinkExactly` | crates/firm-cli/src/legacy_export.rs:1268-1272 | A record counts as linked exactly when some rule of its ledger reaches a non-blank string in it. |
| `LegacyLinks.ArchiveHoldsEveryLink` | crates/firm-cli/src/legacy_export.rs:717-762 | The archive of a ledger holds every row some rule reaches into and otherwise only rows that share an identity with such a row; its lines are the listed source lines, it parses to exactly the kept rows, and validation accepts it. |
| `RowReader.JsonlRowReader.Read` | crates/firm-cli/src/native_session.rs:219-252 | One read takes what the buffer holds of the row, up to the room given; it is refused exactly when that would pass the budget as it stands, never consumes the newline, and with room to write answers nothing only at the end of the row. |
| `RowReader.JsonlRowReader.ReadRow` | crates/firm-cli/src/native_session.rs:200-253 | Under a constant budget, for any chunking and any non-empty buffer sizes, reading to the end delivers exactly the bytes before the first newline, ends terminated exactly when a newline exists, and succeeds exactly when the row fits the budget. |
| `RowReader.JsonlRowReader.ReadDecoded` | crates/firm-cli/src/native_session.rs:123-139 | With a decoder that changes the budget as it goes along, the row is delivered exactly when each of its reads, whose ends follow from chunks and buffer sizes, stays within the budget at its start; then the input is left behind the row. |
| `RowReader.JsonlRowReader.DrainRow` | crates/firm-cli/src/native_session.rs:255-268 | Draining accepts exactly when the rest of the row fits the budget and, if required, is white space, and leaves the reader at the end of the row. |
| `Basics.AllWhitespaceExactly` | crates/firm-cli/src/native_session.rs:262-265 | A piece of a row is white space exactly when every byte is one of the five. |
| `RowReader.RowAfter` | crates/firm-cli/src/native_session.rs:219-252 | The row of a continued stream is what was read so far followed by the row of the rest. |
| `RowReader.RowsAreLossless` | crates/firm-cli/src/native_session.rs:116-160 | The complete rows of a file, their newlines and what follows the last one make up its bytes. |
| `ReadBudget.ReadsMeaning` | crates/firm-cli/src/native_session.rs:219-252 | For every chunking and all buffer sizes the reads of a row step through it to its end. |
| `ReadBudget.DeliversExactly` | crates/firm-cli/src/native_session.rs:219-345 | For every chunking and every decoder a row is delivered exactly when each point at which the budget changes is delivered by a read that ends within the budget before it, and the row ends within the last budget. |
| `ReadBudget.ShortRowIsDelivered` | crates/firm-cli/src/native_session.rs:205-241 | A row of at most 64 KiB is delivered for every chunking, whatever the decoder does. |
| `ReadBudget.LateTypeIsRefused` | crates/firm-cli/src/native_session.rs:205-241 | A longer row whose type does not show within 64 KiB is refused for every chunking. |
| `ReadBudget.TypedRowExactly` | crates/firm-cli/src/native_session.rs:308-325 | Before the session metadata, and for it, a row is delivered exactly when the read that delivers its type ends within 64 KiB and the row within 1 MiB. |
| `ReadBudget.EventExactly` | crates/firm-cli/src/native_session.rs:308-346 | After it an event with a payload of any size is delivered exactly when the reads that deliver its type, the start of its payload and its end each lie within 64 KiB of the one before, with the payload itself not counted. |
| `ReadBudget.OffsetDecides` | crates/firm-cli/src/native_session.rs:115-124 | A row of more than 64 KiB, of admissible length and with its type in time, is delivered exactly when the first buffer boundary of the file at or after its type lies within 64 KiB of its start. |
| `ReadBudget.SameRowTwoFates` | crates/firm-cli/src/native_session.rs:219-241 | A row of 70000 bytes whose type ends at byte 65530: delivered at the start of a file, refused 100 bytes later. |
| `ReadBudget.DeliveredAnywhereExactly` | crates/firm-cli/src/native_session.rs:115-124 | A row is delivered wherever it starts in the file exactly when it has at most 64 KiB, or at most 1 MiB and a type that shows one buffer before 64 KiB. |
| `Rollout.AcceptsExactly` | crates/firm-cli/src/native_session.rs:112-193 | The row-by-row verdict accepts a file exactly when one complete row is its only session metadata, of the requested id, with ordinary rows of admissible size before it, ordinary rows after it and no malformed tail, where a row that is not delivered within its budget counts as malformed. |
| `Rollout.ArrivalsAreRows` | crates/firm-cli/src/native_session.rs:116-160 | However the file is chunked, the rows that arrive are its complete rows and what follows the last newline. |
| `Rollout.ValidateRollout` | crates/firm-cli/src/native_session.rs:112-193 | Reading a file through the row reader accepts exactly the files whose rows, as they arrive in the given chunks and buffers, name the session in this sense. |
| `Rollout.SettledFilesAgree` | crates/firm-cli/src/native_session.rs:112-193 | Two chunkings of a file have the same verdict when each of its rows has at most 64 KiB or shows no type within them. |
| `SessionSearch.Search` | crates/firm-cli/src/native_session.rs:514-557 | Answers none, the only candidate within depth, or an error exactly when there are several or one is refused. |
| `SessionSearch.AnswersIgnoreOrder` | crates/firm-cli/src/native_session.rs:514-557 | Any two listings of the same tree give the same answer: the same path or both an error. |
| `SessionSearch.HitsIgnoreOrder` | crates/firm-cli/src/native_session.rs:60-110 | Candidates and refusals do not depend on the order in which directories are listed. |
| `SessionSearch.FindersIgnoreOrder` | crates/firm-cli/src/native_session.rs:60-110 | The exact-file, Codex rollout and Kimi wire finders look at names and contents only. |
| `SessionSearch.FindersAreUniform` | crates/firm-cli/src/native_session.rs:587-662 | Each finder's candidates lie at one distance below the entry that yields them, so nested candidates never coincide. |
| `SessionFinders.ExactFileExactly` | crates/firm-cli/src/native_session.rs:514-557 | Candidates are exactly the regular files of the name that a path of real directories leads to within the depth, and nothing is refused. |
| `SessionFinders.CodexExactly` | crates/firm-cli/src/native_session.rs:60-110 | Candidates are exactly the regular files within the depth whose name ends so and whose content names the session; any other file so named is a refusal, and there is no other. |
| `SessionFinders.KimiExactly` | crates/firm-cli/src/native_session.rs:559-662 | Candidates are exactly the regular files agents/main/wire.jsonl of directories named for the session, within the depth; a refusal is exactly such a path that ends in something else or meets a file on its way. |
| `RegistryTable.UpsertEntry` | crates/firm-cli/src/project.rs:280-294 | The search loop replaces the first entry of the id, or appends, with the specified stamps. |
| `RegistryTable.UpsertMeaning` | crates/firm-cli/src/execution_space.rs:464-478 | Upserting changes what one id finds, keeping its creation time, and nothing else; ids stay unique. |
| `RegistryTable.WithoutMeaning` | crates/firm-cli/src/project.rs:485-485 | Removal hides one id and keeps what every other id finds. |
| `RegistryTable.WithoutShortens` | crates/firm-cli/src/project.rs:485-487 | The list gets shorter exactly when the id was listed, which is how removal tells. |
| `RegistryTable.TrimExactly` | crates/firm-cli/src/project.rs:583-593 | Trimming gives exactly the one text without white space at its ends that has only white space around it. |
| `RegistryTable.MarkerRoundTrip` | crates/firm-cli/src/project.rs:572-592 | A written marker is read back exactly when the id is non-empty and has no white space at either end. |
| `RegistryTable.TornMarkerReads` | crates/firm-cli/src/project.rs:577-593 | A marker whose write was cut short names a shorter id, or none. |
| `ProjectRegistry.ReservedIdExactly` | crates/firm-core/src/registry.rs:322-342 | The reserved id names the home directory, and also a directory called _global directly inside it, and nothing else. |
| `ProjectRegistry.RegistryIdExactly` | crates/firm-core/src/registry.rs:322-342 | The store of a root is the registry's own path exactly for registry.json directly inside the home directory. |
| `ProjectRegistry.SharedIdExactly` | crates/firm-core/src/registry.rs:322-342 | Two roots below the home directory share an id exactly when their relative texts have one length and differ only where a slug puts a dash. |
| `ProjectRegistry.OutsideIdExactly` | crates/firm-core/src/registry.rs:322-342 | Two roots outside the home directory share an id exactly when their hashes agree. |
| `ProjectRegistry.DistinctRootsShareAnId` | crates/firm-core/src/registry.rs:319-321 | a/b-c and a-b/c are one project. |
| `ProjectRegistry.RunIsConsistent` | crates/firm-cli/src/project.rs:396-502 | From an empty home, whatever was called and however any write failed, kept or cut short: if the registry can be read, its ids are unique and its current project is listed. |
| `ProjectRegistry.BlockedExactly` | crates/firm-cli/src/project.rs:118-120 | However writes fail, a directory stands on the registry's path exactly when some call registered the root of that id before anything was saved there. |
| `ProjectRegistry.RegistryRootStrandsHome` | crates/firm-cli/src/project.rs:396-421 | With that root first, however its writes go: it is refused after its store was created, and every later call fails and no active project can be read. |
| `ProjectRegistry.RunIsSound` | crates/firm-cli/src/project.rs:396-502 | From an empty home, after calls interrupted anywhere whose failing writes left their files as they were: every id the registry or the marker names can still be switched to, exactly unless some call took the registry's path. |
| `ProjectRegistry.RunMirrors` | crates/firm-cli/src/project.rs:396-604 | From an empty home, after completed calls: the marker mirrors the registry, and every registered project is described by its own store, exactly unless some call took the registry's path. |
| `ProjectRegistry.CreationKeptExactly` | crates/firm-cli/src/project.rs:235-266 | At every point of a run that does not remove it a listed project keeps its place and its created_at exactly when no save of the registry in that run was cut short. |
| `ProjectRegistry.CutSaveLosesProjects` | crates/firm-cli/src/project.rs:235-266 | A save cut to nothing leaves a registry that loads without error and lists nothing; switching back stamps the project anew. |
| `ProjectRegistry.CurrentKeptExactly` | crates/firm-cli/src/project.rs:396-502 | After any call but its own removal something is current exactly unless a save was cut short. |
| `ProjectRegistry.SwitchableExactly` | crates/firm-cli/src/project.rs:674-702 | A described id can be switched to after the next call exactly unless that call garbles the registry, cuts the id's own metadata while the registry does not list it, or takes the registry's path. |
| `ProjectRegistry.RegisterStamps` | crates/firm-cli/src/project.rs:280-294 | Registering again, once it gets to save, refreshes root, kind and opening time and keeps the creation time; the first registration stamps it. |
| `ProjectRegistry.AddSucceedsExactly` | crates/firm-cli/src/project_commands.rs:27-63 | On every home that calls can leave, files cut short or not, an add whose writes go through succeeds exactly when the registry is readable, the root's store is not the registry's path and, unless --switch is given, what was active can be put back; then the active id is unchanged, or the new project with --switch, and the root is registered. |
| `ProjectRegistry.AddIsNonDisruptive` | crates/firm-cli/src/project_commands.rs:27-63 | After any run whose failing writes left their files as they were, add never fails for want of the previous project: with its writes going through it fails exactly when its own or an earlier root's store is the registry's path. |
| `ProjectRegistry.CutMarkerStrandsAdd` | crates/firm-cli/src/project_commands.rs:27-63 | A marker cut to one character, and then not deleted with its project, makes the next add fail for want of that one-character project. |
| `ProjectRegistry.AddKeepsRootExactly` | crates/firm-cli/src/project_commands.rs:27-63 | Without --switch the active id keeps its root exactly when the added root has another id or is that root, and does not take the path of a registry yet to be saved. |
| `ProjectRegistry.RemovalIsRecoverable` | crates/firm-cli/src/project.rs:477-502 | After completed calls of which none took the registry's path, removal answers whether the project was listed and whether it was current, clears the selection exactly in the latter case, and a later switch finds the same root and kind again; otherwise it is refused. |
| `ProjectRegistry.ResolvesExactly` | crates/firm-cli/src/project.rs:674-702 | A switch finds a context exactly when the registry is readable and lists the id, or the id's store names it, or it is the reserved id without a store; and for the id asked for. |
| `ProjectRegistry.ProjectHome.Register` | crates/firm-cli/src/project.rs:396-421 | The new home and result are those specified, for every root, every point at which a write fails and whatever it leaves of its file; a store on the registry's path is refused, and takes the path if nothing is there yet. |
| `ProjectRegistry.ProjectHome.Switch` | crates/firm-cli/src/project.rs:433-464 | The new home and result are those specified, for every point at which a write fails and whatever it leaves of its file. |
| `ProjectRegistry.ProjectHome.Remove` | crates/firm-cli/src/project.rs:477-502 | The new home and result are those specified, for every point at which a write fails and whatever it leaves of its file. |
| `ProjectRegistry.ProjectHome.Add` | crates/firm-cli/src/project_commands.rs:27-63 | The new home and result are those specified, for every root, every point at which a write fails and whatever it leaves of its file. |
| `SpaceRegistry.RunIsSound` | crates/firm-cli/src/execution_space.rs:523-606 | From an empty home, wherever each call was interrupted and whatever it left of the marker: ids are unique, the current space is registered, every registered id is described by its own directory, and a registry that was saved can be read. |
| `SpaceRegistry.BlockedExactly` | crates/firm-cli/src/execution_space.rs:101-115 | The registry is unreadable exactly when some call registered or published the id registry.json before anything was saved. |
| `SpaceRegistry.RegistryIdStrandsHome` | crates/firm-cli/src/execution_space_commands.rs:599-614 | A migration of the id registry.json in an empty home: publication is allowed, and its activation and every call after it, whatever comes in between, fail for good. |
| `SpaceRegistry.LockIdIsRefused` | crates/firm-cli/src/execution_space.rs:410-425 | The lock file's name is a valid id that can never be registered, switched to or published. |
| `SpaceRegistry.RegisteredAsGiven` | crates/firm-cli/src/execution_space.rs:523-564 | A registration that succeeds answers the space with the binding, company and name it was given, or its id for a blank name; registry, metadata and selection then say the same, and no other id's answer has changed. |
| `SpaceRegistry.SwitchedAsFound` | crates/firm-cli/src/execution_space.rs:575-606 | A switch that succeeds answers what the lookup found and selects it, and changes no other answer. |
| `SpaceRegistry.InvalidIdsExactly` | crates/firm-cli/src/execution_space.rs:410-425 | Exactly the empty id, the two directory names and ids with other characters are refused as invalid, with nothing touched. |
| `SpaceRegistry.PublishedAsGiven` | crates/firm-cli/src/execution_space_commands.rs:505-545 | A published space is described as it was given, with a receipt that says how to recover it. |
| `SpaceRegistry.ReceiptsExactly` | crates/firm-cli/src/execution_space.rs:616-658 | An activation completes a receipt pending for its own space, if that write succeeds, and no other receipt. |
| `SpaceRegistry.ActiveSpaceIsDescribed` | crates/firm-cli/src/execution_space.rs:660-666 | The active space can be asked for exactly unless some call took the registry's path, and then always exists, because the registry answers before a marker that was cut short. |
| `SpaceRegistry.MarkerKeptExactly` | crates/firm-cli/src/execution_space.rs:708-723 | The marker goes on naming a space exactly unless a failing write cuts it inside the id, to the id of none. |
| `SpaceRegistry.CutMarkerNamesNoSpace` | crates/firm-cli/src/execution_space.rs:708-712 | One registration whose marker write stops after the first character. |
| `SpaceRegistry.SwitchRecovers` | crates/firm-cli/src/execution_space_commands.rs:599-614 | After a published migration whose activation failed at any step, and any further calls but registering that id anew, a switch recovers exactly unless the published id or a call in between took the registry's path: it yields the same id and project binding, selects the space, completes the receipt when that write succeeds, and yields the same name exactly when it was not blank or the activation's metadata had been written. |
| `SpaceRegistry.FailedActivationPins` | crates/firm-cli/src/execution_space.rs:523-564 | A failed activation leaves the published binding pinned with its receipt pending or complete, and the id answers with it exactly unless it is registry.json, for which the lookup fails. |
| `SpaceRegistry.RunKeepsPin` | crates/firm-cli/src/execution_space.rs:481-606 | No later call, cut short or not, changes what the id answers, unless it registers that id. |
| `SpaceRegistry.SwitchOfPinned` | crates/firm-cli/src/execution_space.rs:575-606 | A switch to such an id answers it, selects it and completes its receipt. |
| `SpaceRegistry.ContextAnswersId` | crates/firm-cli/src/execution_space.rs:481-501 | A switch resolves exactly the ids whose directory has metadata while the registry can be read, and to the id asked for. |
| `SpaceRegistry.SpaceHome.WriteMetadata` | crates/firm-cli/src/execution_space.rs:686-698 | The directory is created even if the metadata is not written, and nothing is where a control file has the name. |
| `SpaceRegistry.SpaceHome.CompletePendingRegistration` | crates/firm-cli/src/execution_space.rs:616-658 | Only a receipt pending for exactly this space becomes complete, and a failed write changes nothing. |
| `SpaceRegistry.SpaceHome.RegisterAndActivate` | crates/firm-cli/src/execution_space.rs:523-564 | The new home and result are those specified, for every id, every point at which a write fails and whatever it leaves of its file; the names of the registry and its lock are refused, the former after its directory took the path of a registry yet to be saved. |
| `SpaceRegistry.SpaceHome.SwitchCurrent` | crates/firm-cli/src/execution_space.rs:575-606 | The new home and result are those specified, for every point at which a write fails and whatever it leaves of its file. |
| `MigrationRuns.ExistingDirectoryIsUntouched` | crates/firm-cli/src/execution_space_commands.rs:336-597 | However many migrations run, fail or race, even towards that very id, an existing directory that holds no staging name is never replaced or altered by any of them. |
| `MigrationRuns.AtMostOnePublishes` | crates/firm-cli/src/execution_space_commands.rs:552-596 | At most one of any number of concurrent migrations publishes an id. |
| `MigrationRuns.PublicationIsGuarded` | crates/firm-cli/src/execution_space_commands.rs:552-597 | Whatever else happens, publication is only under the registry lock, onto an absent and unregistered target that is no control file, and of what then holds the staging name. |
| `MigrationRuns.PublicationHoldsPlan` | crates/firm-cli/src/execution_space_commands.rs:433-597 | If nobody else writes the staging name from before verification on, the published directory holds every planned unit as planned, as read from the source again and as read back from staging, with the metadata and pending receipt that recovery expects. |
| `MigrationRuns.PublicationIsExact` | crates/firm-cli/src/execution_space_commands.rs:425-597 | If nobody else writes it from before its creation on, it holds the plan and nothing else. |
| `MigrationRuns.PublicationHoldsPlanExactly` | crates/firm-cli/src/execution_space_commands.rs:433-597 | Since the end of the filling, the published directory holds the plan exactly when the last write of the staging name by anyone else, if there was one, held it. |
| `MigrationProgress.TamperedStagingIsPublished` | crates/firm-cli/src/execution_space_commands.rs:545-597 | A run in which whatever is put under the staging name between verification and rename is published. |
| `MigrationRuns.PublishedTargetStaysWhole` | crates/firm-cli/src/execution_space_commands.rs:586-616 | If nobody else writes its staging name or its target, a published target keeps the whole plan, its metadata and its receipt to the end of every run, whatever other migrations of the same id do. |
| `MigrationRuns.CompletionCompletesReceipt` | crates/firm-cli/src/execution_space_commands.rs:599-616 | In every run the step that completes a migration completes a receipt pending for its own id exactly when that last write went through, and changes nothing else of the target. |
| `MigrationRuns.PlansAreWitnessed` | crates/firm-cli/src/execution_space_commands.rs:369-501 | Every planned unit held those bytes in the source when planned, and every verified unit held them again at a later point of the run. |
| `MigrationRuns.FailureLeavesNothing` | crates/firm-cli/src/execution_space_commands.rs:255-271 | If the staging name was free and nobody else writes it, the staging directory exists exactly while its migration owns it or after the failure to remove it was reported. |
| `MigrationRuns.LockIsHeldExactly` | crates/firm-cli/src/execution_space_commands.rs:556-616 | In every reachable state the lock is held exactly in the critical section, what is published is there, and a completed migration is registered in a registry that exists. |
| `MigrationRuns.StepFrame` | crates/firm-cli/src/execution_space_commands.rs:336-629 | No step of a migration touches a directory other than its own staging and, once published, its own target, whose units it never changes. |
| `MigrationProgress.TakenNameIsRemoved` | crates/firm-cli/src/execution_space_commands.rs:425-431 | A run from a taken staging name: planning goes through, creation fails, and the cleanup removes the directory that held the name. |
| `MigrationProgress.CreationIsHarmlessExactly` | crates/firm-cli/src/execution_space_commands.rs:425-431 | Creation spares every existing directory exactly when the staging name was free. |
| `MigrationProgress.UncontestedMigrationCompletes` | crates/firm-cli/src/execution_space_commands.rs:336-629 | With a valid id that nobody holds and a free staging name, a migration left to itself completes exactly when its id is not the name of the registry or of its lock, in three passes over its units: the target then holds exactly the listed units of the source, the id is registered and its receipt complete. |
| `MigrationProgress.RegistryIdEndsInactive` | crates/firm-cli/src/execution_space_commands.rs:586-614 | With the registry's name it is published and stays inactive, and a directory stands on the registry's path. |
| `MigrationProgress.LockIdFails` | crates/firm-cli/src/execution_space_commands.rs:552-579 | With the lock's name it fails at the check under the lock it has just taken, and leaves nothing. |
| `SpaceMigration.MoveKeepsSealed` | crates/firm-cli/src/execution_space_commands.rs:457-501 | Every step keeps what verification has established in staging. |
| `SpaceMigration.MoveKeepsView` | crates/firm-cli/src/execution_space_commands.rs:336-629 | Every step keeps what the migration relies on whoever else is at work, and stays within its reach. |
| `MigrationRuns.Reachable` | crates/firm-cli/src/execution_space_commands.rs:336-629 | That holds for all migrations in every state of every interleaving with an environment that may write any directory. |
| `MigrationRuns.PlanningStep` | crates/firm-cli/src/execution_space_commands.rs:369-421 | In every run, planning a unit enters it as the source then holds it, passes over a missing one, and ends the migration exactly when reading fails or the unit is not a file or directory as its kind requires, with nothing staged. |
| `MigrationRuns.FillingStep` | crates/firm-cli/src/execution_space_commands.rs:433-441 | In every run, filling in a planned unit stages a ledger with the planned bytes, whatever the source holds by then, and a directory with what its copy ended up with, and nothing else. |
| `StartObservation.Observe` | crates/firm-cli/src/daemon_client.rs:754-783 | The loop runs exactly the turns that continue and ends with the verdict of the first that does not; an unrepresentable deadline ends it before any fetch. |
| `StartObservation.EveryActionIsBounded` | crates/firm-cli/src/daemon_client.rs:754-783 | Each fetch starts before the deadline with exactly the positive time left, and each sleep is the interval, or the time left if that is less. |
| `StartObservation.ProofIsReturned` | crates/firm-cli/src/daemon_client.rs:774-776 | The answer is a proof exactly when some polled turn produced it, whatever the clock says afterwards. |
| `StartObservation.PollBound` | crates/firm-cli/src/daemon_client.rs:764-782 | If the clock never goes back and advances by at least each sleep of the trace, there are at most budget divided by interval polls, rounded up, and the loop ends. |
| `StartObservation.PollBoundIsReached` | crates/firm-cli/src/daemon_client.rs:764-782 | That bound is reached, for every budget and interval, by such a clock. |
| `ControlSocket.PollReady` | crates/firm-cli/src/daemon_client.rs:116-146 | Waits again after every interruption, each time before the deadline and for exactly what is left of it in whole milliseconds, as far as the system call takes it. |
| `ControlSocket.Timeout` | crates/firm-cli/src/daemon_client.rs:126-134 | The timeout of a wait is the greatest whole number of milliseconds that fits before the deadline, as far as the system call takes it. |
| `ControlSocket.SendFrame` | crates/firm-cli/src/daemon_client.rs:218-229 | For any sequence of partial writes the peer gets a prefix of the frame, each byte once, and completion is reported exactly when it is all of it; every wait starts before the deadline and is asked to end by it, and every write starts when the wait before it returned. |
| `ControlSocket.ReceiveLine` | crates/firm-cli/src/daemon_client.rs:230-246 | For any chunking the reply is the stream up to and including its first newline, missing exactly when there is none among the reads whose waits start before the deadline; every read starts when the wait before it returned. |
| `ControlSocket.StartsInTimeExactly` | crates/firm-cli/src/daemon_client.rs:196-208 | All I/O starts by the deadline exactly when every wait that it follows returned by then. |
| `ControlSocket.KeptTimeoutsSuffice` | crates/firm-cli/src/daemon_client.rs:116-146 | Waits that keep their timeouts are enough for that. |
| `ControlSocket.LateWriteIsSent` | crates/firm-cli/src/daemon_client.rs:218-229 | One wait that returns late: the whole frame is sent after the deadline. |
| `ControlSocket.ConnectBy` | crates/firm-cli/src/daemon_client.rs:162-194 | Connects exactly when the path holds no NUL and the socket connects at once, or is in progress and its error status clears after one wait, or a second one, under the caller's deadline. |
| `ControlSocket.TextExactly` | crates/firm-cli/src/daemon_client.rs:250-252 | A line is a reply exactly when it is valid text with something in it, and the reply is that without the white space around it. |
| `ControlSocket.Request` | crates/firm-cli/src/daemon_client.rs:209-253 | A reply is returned exactly when the deadline is representable, the socket connected, the whole request was sent, the stream held a line, the final clock reading is not past the deadline, and the line is valid text that is not empty once trimmed; it is that trimmed text. If all waits keep their timeouts, no I/O starts after the deadline. |
| `ViewerContext.OrderDoesNotMatter` | crates/firm-application/src/viewer_context.rs:114-199 | With distinct team ids and source orders, every permutation of teams, runs and member runs gives the same projection. |
| `ViewerContext.ListsVisibleTeams` | crates/firm-application/src/viewer_context.rs:103-199 | An answer is given exactly to local operators and agent members; it has one row per visible team and no others, in dictionary order of their ids, each with the role, latest run, run ids in dictionary order and current member run it should have. |
| `ViewerContext.RowHasMeaning` | crates/firm-application/src/viewer_context.rs:124-190 | A team is shown exactly when the principal is its host or a member or a local operator, host before member before operator. |
| `ViewerContext.ActsExactly` | crates/firm-application/src/viewer_context.rs:20-26 | A principal is an agent member exactly when its actor, or an actor it has the authority of, is that agent member. |
| `ViewerContext.LatestMeaning` | crates/firm-application/src/viewer_context.rs:145-153 | The latest run is one that no run of the team is later than, by time of update and then by id, both in dictionary order; it is missing exactly when the team has none. |
| `ViewerContext.CurrentMeaning` | crates/firm-application/src/viewer_context.rs:161-176 | The current member run is an active run of the member in that team run with the highest generation and then source order, missing exactly when there is none. |
| `ViewerContext.FirstOwn` | crates/firm-application/src/viewer_context.rs:21-25 | The member found is one of the roster and is the principal, and none is found exactly when the principal is not on it. |
| `ViewerContext.OrderIgnoredExactly` | crates/firm-application/src/viewer_context.rs:114-199 | With distinct team ids, an answer is the same for every reordering of the facts exactly when in each visible team all greatest candidates name one member run. |
| `ViewerContext.GreatestIsShown` | crates/firm-application/src/viewer_context.rs:161-176 | Any greatest candidate is shown for some order of the member runs. |
| `Ordering.TextLeExactly` | crates/firm-application/src/viewer_context.rs:149-193 | One text comes no later than another exactly when it is a prefix of it or has the smaller character where they first differ. |
| `Ordering.SortedIsUnique` | crates/firm-application/src/viewer_context.rs:160-193 | A list sorted by key is determined by its rows when keys determine rows. |
| `Ordering.FilterMapPermutes` | crates/firm-application/src/viewer_context.rs:120-192 | Reordering the input of a filtering map reorders its output. |

## Left out

- Fetch wrappers, event source wiring and React code of the dashboard; the generation stamp is a clock parameter.
- The JavaScript number range of revisions and sequence numbers.
- The entries of the link rule table, which is a parameter, `build_edges` beyond its source line lookup, the anomaly contract, and the workflow ledgers with their lenient parser.
- Rollout: decoding of a row by the JSON deserializer is a parameter, as are the points of the row at which it changes the budget and to which of the three budgets; both may depend on nothing but the bytes read so far.
- I/O errors of reading directories and files during session search, other than a Kimi wire path that meets a file, and such a path that passes through symbolic links.
- SpaceMigration: a ledger or directory is read in one step, so a directory changing between two files of one snapshot is not distinguished; a copy into staging may end with any content.
- SpaceMigration: nobody but a migration removes a directory; the list of contracted ledgers and directories is a parameter; what the store's own initialisation adds to staging, and the source writer lock, are not part of this model.
- ProjectRegistry and SpaceRegistry: directories are created without failing unless a file has their name, and the lock is always acquired.
- ProjectRegistry: a write that was cut short leaves a prefix of the new text, not other bytes; ids given to `switch` that are not one path component, the recorded form of `store_root`, and `is_git_repo` are not part of this model.
- SpaceRegistry: a malformed registry or metadata file, which would end every operation with an error before any write; the files that are replaced atomically are never left so by the modelled operations.
- StartObservation: an execution is seen through finite scripts of rounds, so an unbounded loop appears as one that is still waiting after every script.
- ControlSocket.Request: creating and configuring the socket before it connects, which fails like a refused connection; UTF-8 decoding is a parameter.
- `project migrate`, `project switch` by path, and listing commands, which combine the modelled operations.
- Provider facades, role actions, runtime policies, routing and the store, which delegate or decide by one guard each.
