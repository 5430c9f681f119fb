# Audit module: a verified model

The audit module keeps two tables, events and export artifacts, and runs its own algorithms over them. This
project models both tables as sequences of rows, each database statement as one atomic step, and proves what
the module promises about them: over single calls, over whole runs with any number of concurrent callers, and
across the text encodings its decisions rest on.

- **Events.** `EventTable`, `Erasure` and `EventStore` hold idempotent append and subject erasure; `EventRuns`,
  `ErasureRuns` and `ErasureExact` let any number of appends and erasures interleave, one INSERT, lookup or
  UPDATE per step, with refused statements and lost acknowledgements.
- **Queries.** `SqlQuery` gives the predicate language a meaning; `EventClass`, `EventOrder`, `EventQuery`,
  `Pagination` and `PageWalk` cover the WHERE clauses, the keyset order, planning, projection and whole walks
  along next-cursors while the table and the clock move.
- **Data scopes.** `ScopePolicy`, `DataScopes` and `ScopeSql` are the compiler from allow policies to a scope
  to SQL, with one meaning across all three.
- **Exports.** `ExportSteps` and `ExportProtocol` are the two protocols on the artifact table (create or get;
  look up, count, update, append evidence); `CreateRuns` and `DownloadRuns` prove them over every interleaving.
  `ExportFilters`, `Authorization`, `ExportPrepare` and `ExportLifecycle` follow an export from request to
  artifact to token to download, `ExportContents` says what it contains, `Redemption` what its download ends in
  whatever else runs, and `PreparedDownload` joins the two calls of one service. `ExportService` holds the
  objects, whose methods are proved to be those steps.
- **Texts.** `LikePattern`, `Rfc3339` over `Calendar`, `Csv`, and `Text` for ordering and trimming.

What an unseen library supplies is a parameter: SHA-256, HMAC and JSON encodings, the cursor codec, the event
classifier and its marker lists, field projection, metadata lookup and redaction. Hypotheses about them are
named predicates (`GivesDigests`, `WellBehaved`, `KeysSeparate`) or written in the lemma that needs them; no
lemma assumes that a hash never collides except `Authorization.FingerprintIsAuthority`, for the two encodings
it compares, and `CreateRuns.CallersConverge`, for the keys of its own callers. `Assumptions` exhibits hosts that
meet each of them: one for paging, and one under which two creators start a run of the protocol with different keys.

These results describe where the code stops short of a simpler promise, each with its exact extent and a run or
an input that shows it:

- Two downloads of one valid token can both read the count at zero. The one that updates second is refused before
  the expiry although no statement, authorizer or append fails (`Redemption.SecondDownloaderIsRefused`). That race
  is the only obstacle: in every run the holder of an unexpired token receives the content exactly when no other
  process records a download between its count read and its update (`Redemption.ExportRoundTrip`).
- Content can be delivered with no download event ever logged: when the append of the first download fails, the
  next download finds the count at one (`Redemption.DeliveredWithoutEvidence`). An artifact has its event exactly
  when the append of the process that recorded its download ran (`Redemption.EvidenceIsTheAppend`).
- An event appended between the two updates of its actor's erasure loses its actor but keeps its content
  (`ErasureRuns.LateAppendKeepsContent`), and a second erasure of the same identity can miss a row that is there
  when it starts (`ErasureExact.SecondErasureMisses`). Which rows a run leaves redacted is exactly known
  (`ErasureExact.RedactedExactly`, `ErasureExact.ErasureReachesExactly`). The updates of an erasure are statements
  of one transaction, so whether such an interleaving occurs depends on the isolation level of the database.
- Two erasures commute on every table exactly when neither identity is the other's alias, or both have it as their
  alias (`Erasure.ErasuresCommuteExactly`). Run update by update in any order they end in the sequential table when
  the identities differ and neither is the other's alias (`ErasureExact.InterleavedIsSequential`).
- Only an erasure trims its arguments, so its preview counts the same rows on every table exactly when both texts
  are trimmed (`Erasure.PreviewNeedsTrimmedTexts`).
- The artifact store trims the workspace when it looks a key up and not when it inserts, so a request stays in
  its own workspace on every table exactly when that workspace is trimmed (`CreateRuns.OwnWorkspaceExactly`).
  The service always trims, and then its id and the store's agree (`ExportPrepare.ServiceAndStoreAgree`).
- A repeated preparation lists events again before it reaches the stored artifact. It replays exactly as long as
  some event would still be exported (`ExportContents.ReplayExactly`); without a result filter a growing log always
  replays (`ExportContents.GrowingLogReplays`), with one, 1000 newer events with other results hide the export
  (`ExportContents.NewerResultsHideTheExport`).
- Compiled scopes read the subject's facts trimmed. They agree with the policies on every record exactly when each
  listed fact, trimmed, is itself listed (`ScopePolicy.CompilationExactly`); a subject id with a leading space
  widens the boundary (`ScopePolicy.UntrimmedSubjectWidens`).
- RFC 3339 text sorts as time for every two instants a text can denote, except exactly when one is in year 10000 of
  UTC and the other in the years 1001 to 9999 (`Rfc3339.TextOrderExactly`). The range check of export filters and
  the choice of their lower bound are wrong on exactly those inputs (`ExportFilters.RangeCheckExactly`,
  `ExportFilters.LowerBoundExactly`, `ExportFilters.LateYearIsRefused`).

`dafny verify dfyconfig.toml` checks the project.

## Model

| member | source | states |
|---|---|---|
| CreateRuns.OneArtifactPerKey | internal/infrastructure/persistence/database/export/store.go:28-57 | In every interleaving of creations and downloads, whatever the requests, the table holds at most one artifact per workspace, requester and idempotency key. |
| CreateRuns.CallersAgree | internal/infrastructure/persistence/database/export/store.go:28-57 | Successful callers of one key hold the same artifact, it is the stored one, and at most one of them was told it created it. |
| CreateRuns.OnlyOwnArtifact | internal/infrastructure/persistence/database/export/store.go:32-39 | A caller is handed only an artifact of its own key and fingerprints; a finished caller whose fingerprints differ from the stored ones has a conflict or an error; a conflict is reported only when they differ. |
| CreateRuns.CallersConverge | internal/infrastructure/persistence/database/export/store.go:47-55 | When the database runs every statement, no caller fails in any interleaving: whoever loses the insert finds the key on its second read. |
| ExportSteps.FaultsInCreation | internal/infrastructure/persistence/database/export/store.go:32-55 | A failed read ends a creation, a failed insert leads to the second read with the table unchanged, an unacknowledged one with the row inserted. |
| CreateRuns.UntrimmedWorkspaceMeetsForeignArtifact | internal/infrastructure/persistence/database/export/store.go:161-163 | A request whose workspace carries surrounding space is answered with the trimmed workspace's artifact. |
| CreateRuns.OwnWorkspaceExactly | internal/infrastructure/persistence/database/export/store.go:28-57 | A request stays in its own workspace on every table if and only if its workspace is trimmed. |
| ExportProtocol.ArtifactsNeverChangeOtherwise | internal/infrastructure/persistence/database/migration/migrations.go:35-48 | Over every run the primary key and both unique indexes hold, the count is 0 or 1, the status says downloaded exactly when it is 1, and between any two points no other field changes and no recorded download is lost. |
| ExportProtocol.StepTable | internal/infrastructure/persistence/database/export/store.go:40-57 | Every single step of every process keeps the table's invariants, and rows only develop by one recorded download. |
| ExportTable.ClashingRowsAreOne | internal/infrastructure/persistence/database/migration/migrations.go:47-48 | Two stored rows that share an id, an idempotency key or a token hash in one workspace are the same row. |
| ExportTable.FindByIdempotency | internal/infrastructure/persistence/database/export/store.go:154-163 | Finds a row of the request's key in the trimmed workspace, and finds nothing only if there is none. |
| ExportTable.FindByToken | internal/infrastructure/persistence/database/export/store.go:67-80 | Finds a row with the token hash that the requester and scope may see, and finds nothing only if there is none. |
| ExportTable.FindForDownload | internal/infrastructure/persistence/database/export/store.go:104-122 | Finds the visible row with the artifact id, and finds nothing only if there is none. |
| ExportTable.VisibleInFull | internal/infrastructure/persistence/database/export/store.go:104-110 | A row is seen exactly by its requester, or a caller that names none, under a scope that is unrestricted or lists the requester. |
| ExportTable.TryInsert | internal/infrastructure/persistence/database/migration/migrations.go:35-48 | An insert succeeds exactly when the row clashes with no stored row under any unique key. |
| DownloadRuns.OneFirstDownload | internal/infrastructure/persistence/database/export/store.go:116-151 | In every interleaving at most one process records the first download of an artifact. |
| DownloadRuns.CountIsTheWinner | internal/infrastructure/persistence/database/export/store.go:129-151 | A stored count is 1 exactly when some process recorded the download. |
| DownloadRuns.LoserChangesNothing | internal/infrastructure/persistence/database/export/store.go:141-147 | A process whose conditional update comes too late is refused and leaves table and log as they were. |
| DownloadRuns.OneEvidencePerArtifact | internal/application/audit/export_service.go:177-181 | At most one download event per artifact is ever logged. |
| DownloadRuns.EvidenceForRecordedDownload | internal/application/audit/export_service.go:173-181 | A recorded download has its event once its process is past appending, its commit was acknowledged and the append did not fail. |
| DownloadRuns.DeliveredToItsRequester | internal/application/audit/export_service.go:148-172 | Content is delivered only from a stored artifact whose token was presented, to its requester under its fingerprint, and only if content and filters match their hashes. |
| Redemption.ExportRoundTrip | internal/application/audit/export_service.go:101-183 | In any run, with any other callers before and during the download, whoever holds the token of an artifact created at t is told it has expired if its lookup comes at t plus 15 minutes or later; otherwise it receives exactly the stored content, unless another process records a download between its count read and its update, when it is refused. |
| Redemption.DownloadOutcome | internal/infrastructure/persistence/database/export/store.go:116-151 | After any schedule, the phase of a download that has passed its lookup is determined by how many own statements have run and by whether a download was recorded at the first and at the second of them. |
| Redemption.RaceIsLostToAnother | internal/infrastructure/persistence/database/export/store.go:141-147 | A download that loses the race loses it to another process, which recorded the download of that very row. |
| Redemption.AdjacentStepsWin | internal/infrastructure/persistence/database/export/store.go:116-147 | A download whose count read and update follow each other directly loses no race. |
| Redemption.SecondDownloaderIsRefused | internal/infrastructure/persistence/database/export/store.go:116-147 | A run from an empty table in which, of two callers presenting one valid token, the second is refused although nothing fails. |
| Redemption.EvidenceIsTheAppend | internal/application/audit/export_service.go:177-181 | In every run an artifact has a download event exactly when the append of a process that recorded its download ran. |
| Redemption.DeliveredWithoutEvidence | internal/application/audit/export_service.go:173-182 | A run in which the first download's append fails, a second download delivers the content, and no event is ever logged. |
| ExportService.ArtifactStore.CreateOrGetExport | internal/infrastructure/persistence/database/export/store.go:28-57 | For every way the database takes its three statements and everything other callers do between them: an incomplete artifact changes nothing; created means the request under the derived id was added; replayed or conflict mean a stored row of its key with the same or other fingerprints; keys stay unique if the others keep them so. |
| ExportService.ArtifactStore.ExportByTokenHashWithinDataScope | internal/infrastructure/persistence/database/export/store.go:67-80 | With unique keys, the artifact with the token hash in the trimmed workspace if the requester and scope may see it, and none if they may not; whatever is returned is a stored, visible row with that hash. |
| ExportService.ArtifactStore.RecordExportDownloadWithinDataScope | internal/infrastructure/persistence/database/export/store.go:90-152 | Success means a stored row of that workspace and id that requester and scope may see; its count was zero exactly if the download is the first, and then that row alone is marked downloaded with the given time. A failure changes nothing and means a blank identity or no such row. |
| ExportService.Service.PrepareExport | internal/application/audit/export_service.go:65-130 | Reply, artifact table and logged events are those of the specified preparation, which `PrepareInFull` writes out; keys stay unique. |
| ExportService.PrepareInFull | internal/application/audit/export_service.go:65-130 | When a preparation is refused; that success stores or replays one artifact of the caller's key, filters and fingerprint, logs one event and answers that artifact's columns with its token; that a conflict means the key is taken by other filters or another fingerprint. |
| ExportPrepare.MintInFull | internal/application/audit/export_service.go:105-111 | Every column of a minted artifact: id, token, hashes, file name, 15 minutes to expiry. |
| ExportService.MadeInFull | internal/application/audit/export_service.go:83-111 | The artifact brought to the store carries the caller's identity, filters and fingerprint, and the CSV and count of exactly the rows its call exports. |
| ExportService.Service.DownloadExport | internal/application/audit/export_service.go:140-183 | Reply, artifact table and logged events are those of the protocol's four steps run in a row, with one clock for the checks and another that dates the download. |
| ExportService.DownloadInFull | internal/application/audit/export_service.go:140-183 | A download that replies gives content and file name, in this order, of a stored artifact whose token was presented by its requester under a covering scope, before expiry, with its authority and consent; the first one marks and dates the row and logs one event, a later one leaves everything. |
| ExportService.LookupInFull | internal/application/audit/export_service.go:141-172 | What the lookup and the checks have established when they let a download through, that with unique keys this is also enough, and the two gates before them. |
| ExportSteps.FaultsEndDownloads | internal/infrastructure/persistence/database/export/store.go:111-150 | A statement that fails ends a download in a refusal and leaves the table; an update whose commit is not acknowledged has run and its process does not go on. |
| ExportService.Service.LookUpExport | internal/application/audit/export_service.go:141-172 | Is the protocol's lookup step, which `LookupInFull` writes out. |
| ExportService.Service.MakeArtifact | internal/application/audit/export_service.go:66-111 | Builds the specified artifact from filters and listed events, or fails with the first applicable error. |
| PreparedDownload.PreparedTokenDelivers | internal/application/audit/export_service.go:65-183 | The token a successful preparation answers, new or replayed, delivers until the announced expiry exactly the export it announced: id, file name, content hash and row count, decodable to that many rows; from the expiry on it is refused as expired. |
| PreparedDownload.CreateKeepsMinted | internal/application/audit/export_service.go:111-112 | Storing a minted artifact keeps the table one of minted artifacts with unique keys. |
| PreparedDownload.DownloadKeepsMinted | internal/infrastructure/persistence/database/export/store.go:129-151 | So does every download, whatever its outcome. |
| ExportLifecycle.DownloadDeliversUntilExpiry | internal/application/audit/export_service.go:140-183 | The same for one call on any table: token rebuild, lookup, gate, expiry parse, fingerprint and integrity checks all pass for the entitled caller. |
| ExportLifecycle.CheckIsTheClock | internal/application/audit/export_service.go:152-172 | For the entitled caller of an intact artifact the checks reduce to the clock. |
| ExportLifecycle.ChecksOfIntactExport | internal/application/audit/export_service.go:152-172 | For the token of an intact export the requester, the numeric expiry instant, the authority and the authorizer decide in this order; the token and integrity checks never refuse. |
| ExportLifecycle.RequesterIsEntitled | internal/application/audit/export_service.go:132-134 | The requester is entitled to its artifact under its own owner scope, the scope of a download without a resolved one. |
| ExportLifecycle.UninterruptedDownload | internal/application/audit/export_service.go:140-183 | Four protocol steps without interference are the download as one call. |
| ExportLifecycle.UninterruptedCreate | internal/infrastructure/persistence/database/export/store.go:28-57 | Three protocol steps without interference are the creation as one call. |
| ExportLifecycle.MintedTokenPassesGate | internal/application/audit/export_service.go:145-147 | A minted token is 125 to 135 characters without surrounding space, inside the 80 to 160 gate. |
| ExportLifecycle.IntegrityNeverFails | internal/application/audit/export_service.go:122-125 | In every interleaving every stored artifact matches its token hash, content hash and filter hash. |
| ExportLifecycle.RowsStayMinted | internal/application/audit/export_service.go:101-112 | Every stored row of every run is, downloads aside, an artifact minted with the key. |
| ExportLifecycle.PrepareReplays | internal/application/audit/export_service.go:112-129 | A second preparation of the same key, filters and fingerprint gives the same id, content hash, row count, token and expiry and leaves the table alone, however events and downloads grew, if its own listing has a row; otherwise it gives that listing's error or reports that there is nothing to export. |
| ExportLifecycle.PrepareConflicts | internal/application/audit/export_service.go:113-118 | The same key with other filters or another fingerprint is a conflict and leaves the table alone. |
| ExportLifecycle.CreateFindsKey | internal/infrastructure/persistence/database/export/store.go:32-39 | A request whose key is stored is settled by the first read, with the table unchanged. |
| ExportPrepare.ServiceAndStoreAgree | internal/application/audit/export_service.go:204-207 | The id from the service's trimmed parts is the id the store derives from the stored fields. |
| ExportPrepare.PrepareMints | internal/application/audit/export_service.go:101-111 | Every preparation that reaches the store brings a minted artifact of 1 to 1000 ten-column rows. |
| ExportPrepare.MintedIsComplete | internal/infrastructure/persistence/database/export/store.go:204-209 | A minted artifact passes the store's completeness check if and only if the principal has a user. |
| ExportPrepare.MintedIsIntact | internal/application/audit/export_service.go:105-111 | A minted artifact's stored hashes are those of its token, content and filters. |
| ExportPrepare.RowCountIsDecoded | internal/application/audit/export_service.go:98-111 | The content decodes to the header and as many ten-column records as the stored row count, between 1 and 1000. |
| ExportContents.ExportIsExact | internal/application/audit/export_service.go:83-100 | An export holds, in its ten columns, exactly the business events of the principal's workspace with the wanted result that have each given filter value, lie within both time bounds and in the data scope, and are not buried under 1000 newer such events: nothing else, and none of these is missing. |
| ExportContents.ListedExactly | internal/infrastructure/persistence/database/audit/store.go:139-224 | A listing for an export holds exactly the events asked for that are not buried under 1000 newer ones. |
| ExportContents.ReplayExactly | internal/application/audit/export_service.go:83-129 | In terms of the event table: a second preparation replays the first if and only if some event would still be exported, and otherwise reports that there is nothing to export. |
| ExportContents.GrowingLogReplays | internal/application/audit/export_service.go:83-129 | Without a result filter, however many events were appended, the same call under the same scope always replays. |
| ExportContents.NewerResultsHideTheExport | internal/application/audit/export_service.go:88-100 | With a result filter, 1000 newer business events with other results leave nothing to export although the wanted event is still there and still matches. |
| ExportPrepare.ExportRow | internal/application/audit/export_service.go:89-96 | Gives the ten columns of an event exactly when it is a wanted business event. |
| ExportPrepare.CollectRows | internal/application/audit/export_service.go:87-97 | The rows of all wanted events, in listing order. |
| ExportPrepare.ExportRowsInOrder | internal/application/audit/export_service.go:87-97 | Rows stand in the order of their events, each at most once. |
| ExportFilters.NormalizeExportFilters | internal/domain/audit/service/export_filter.go:16-46 | The loop-by-loop normaliser is the specified one, errors included. |
| ExportFilters.NormalizedInFull | internal/domain/audit/service/export_filter.go:16-46 | Which error is given when, and each normalised field in terms of the request's. |
| EventFacts.FilterValueInFull | internal/domain/audit/service/export_filter.go:14 | A filter value by its character codes: 1 to 128 of them, a letter or digit first. |
| ExportFilters.CleanValues | internal/domain/audit/service/export_filter.go:21-26 | Succeeds exactly when every trimmed value is blank or a filter value, and gives the trimmed values. |
| ExportFilters.NormalizeBounds | internal/domain/audit/service/export_filter.go:28-37 | Succeeds exactly when every bound is blank or parses, and gives whole-second UTC text. |
| ExportFilters.LowerBoundIsRetained | internal/domain/audit/service/export_filter.go:41-44 | The lower bound is at or after the retention cutoff, as text and in time. |
| ExportFilters.NormalizingTwice | internal/domain/audit/service/export_filter.go:28-45 | Normalising again at the same instant is the identity if the bounds can be read and the upper one does not precede the cutoff; otherwise it is refused, and a range that ends before the cutoff is one no event time satisfies. For every request and every clock. |
| ExportFilters.LateMeansBelowCutoff | internal/domain/audit/service/export_filter.go:38-44 | The result's bounds cross exactly when the upper one precedes the cutoff. |
| ExportFilters.RangeCheckExactly | internal/domain/audit/service/export_filter.go:38-40 | The text comparison refuses exactly the ranges that end before they begin if and only if the bounds are not one in year 10000 and the other in the years 1001 to 9999. |
| ExportFilters.LowerBoundExactly | internal/domain/audit/service/export_filter.go:41-44 | For clocks whose cutoff is at most in year 10000, a given lower bound becomes the later of itself and the cutoff, in time, if and only if the two are not so misordered. |
| ExportFilters.LateYearIsRefused | internal/domain/audit/service/export_filter.go:28-44 | An input that shows both: the range from 2024-01-01T00:00:00Z to 9999-12-31T23:59:59-01:00 is refused, and the latter as a lower bound alone is replaced by the earlier cutoff. |
| ExportFilters.BoundTwice | internal/domain/audit/service/export_filter.go:31-35 | A normalised bound can be read back, unchanged, if and only if its instant is in the years 0 to 9999. |
| Authorization.FingerprintIsAuthority | internal/application/audit/export_service.go:208-219 | Fingerprints are equal if and only if the four trimmed fields and the system scope agree and the capabilities are equal as multisets. |
| Authorization.SortIsCanonicalForm | internal/application/audit/export_service.go:209-210 | Sorted lists are equal exactly when the lists are equal as multisets. |
| Csv.EncodeExportCSV | internal/application/audit/export_service.go:185-197 | Writes the byte-order mark, the header and every row in RFC 4180 form. |
| Csv.WriteRecord | internal/application/audit/export_service.go:189-194 | Appends one record: fields quoted where needed, separated by commas, ended by a line feed. |
| Csv.ExportRoundTrip | internal/application/audit/export_service.go:185-197 | An RFC 4180 section 2 decoder recovers the header and all rows exactly, whatever the fields hold. |
| Csv.ExportReads | internal/application/audit/export_service.go:185-197 | A reader finds the byte-order mark, the ten column names and the rows. |
| Csv.FieldInFull | internal/application/audit/export_service.go:189-194 | A field is quoted exactly if it holds a comma, a quote or a line break, starts with white space, or is a backslash and a dot. |
| Csv.RecordInFull | internal/application/audit/export_service.go:189-194 | Fields are separated by commas and a line feed ends the record. |
| Csv.ExportIsInjective | internal/application/audit/export_service.go:185-197 | Different rows never give the same text. |
| Rfc3339.ParseFormatNano | internal/application/audit/export_service.go:107 | The expiry printer and parser undo each other at nanosecond precision for years 0 to 9999. |
| Rfc3339.ParseFormat | internal/domain/audit/service/export_filter.go:31-35 | Whole-second text parses to the instant with its fraction cut. |
| Rfc3339.FormatOrder | internal/domain/audit/service/export_filter.go:38-44 | Text order of whole-second UTC strings is time order, and equal text means equal seconds. |
| Rfc3339.TextOrderExactly | internal/domain/audit/service/export_filter.go:38-44 | For all instants a text can denote, text order is time order if and only if they are not one in year 10000 and the other in the years 1001 to 9999. |
| Rfc3339.ParsedIsReadable | internal/domain/audit/service/export_filter.go:31 | Every parsed text denotes an instant in the UTC years -1 to 10000. |
| Rfc3339.UnwritableIsUnreadable | internal/domain/audit/service/export_filter.go:31-35 | The text of an instant outside the years 0 to 9999 cannot be parsed. |
| Rfc3339.FormatNanoLength | internal/application/audit/export_service.go:107 | An expiry is 20 to 30 characters. |
| Rfc3339.FormatCompactIsFormat | internal/application/audit/export_service.go:111 | The time in a file name is the RFC 3339 text without its separators. |
| EventStore.Store.AppendPrepared | internal/infrastructure/persistence/database/audit/store.go:85-119 | However the database takes insert and lookup, the table only grows, by at most the event's own row; success means a stored row with the event's key carries its ten payload columns one by one; a key stored with any of them different never succeeds, and a blank workspace never does. |
| EventTable.RecordedIsCarried | internal/infrastructure/persistence/database/audit/store.go:110-115 | The comparison of the lookup succeeds exactly when a stored row with the key carries the event, column by column. |
| EventRuns.AppendKeepsRows | internal/infrastructure/persistence/database/audit/store.go:103-118 | An append adds at most its own row, only if its key was free, and changes no other. |
| EventRuns.RunEvolves | internal/infrastructure/persistence/database/audit/store.go:85-119 | Over every run the keys stay unique and only grow, and identity, record and creation time of every row stay those of its first insert. |
| EventRuns.SuccessSawThePayload | internal/infrastructure/persistence/database/audit/store.go:103-118 | An append that reports success saw, at one of its own steps, a stored row that carries the event column by column. |
| EventRuns.ErasedNeverConfirms | internal/infrastructure/persistence/database/audit/store.go:113-115 | In no later state of any run does an erased row match a payload that is not itself erased. |
| EventRuns.ErasedEventIsNotRestored | internal/infrastructure/persistence/database/audit/subject_lifecycle.go:83-106 | Appending an erased event again never succeeds and never restores its content. |
| EventStore.Store.EraseSubjectResources | internal/infrastructure/persistence/database/audit/subject_lifecycle.go:61-111 | Refuses blank identities and incomplete resources without a change; otherwise every row of the subject or a declared record loses summary, metadata, before and after to fixed values, every row of the subject gets the alias of the first 24 hash digits, no organisation and no role, nothing else changes, and the sum of matches on the original table is reported. |
| EventStore.Store.SubjectClauses | internal/infrastructure/persistence/database/audit/subject_lifecycle.go:66-74 | One clause for the actor and one per resource, or none if a resource is incomplete. |
| EventStore.Store.EraseSubject | internal/infrastructure/persistence/database/audit/subject_lifecycle.go:57-59 | Erases the actor alone and reports the rows of that actor. |
| Erasure.PreviewAnnouncesErasure | internal/infrastructure/persistence/database/audit/subject_lifecycle.go:16-26 | The preview's count is what the erasure of the actor then reports, and is zero afterwards unless the alias is the identity itself. |
| Erasure.CountIsCardinality | internal/infrastructure/persistence/database/audit/subject_lifecycle.go:16-26 | A count is the number of rows hit. |
| Erasure.PreviewNeedsTrimmedTexts | internal/infrastructure/persistence/database/audit/subject_lifecycle.go:16-62 | Preview and erasure of the same texts count the same rows on every table if and only if both texts are trimmed. |
| Erasure.UpdateLoopIsOneUpdate | internal/infrastructure/persistence/database/audit/subject_lifecycle.go:83-106 | The loop of overlapping updates and the anonymising update are one update on the union of the clauses. |
| Erasure.ResourceOrderIsIrrelevant | internal/infrastructure/persistence/database/audit/subject_lifecycle.go:67-74 | The result depends on the set of resources, not on order or repetition. |
| Erasure.ErasureConserves | internal/infrastructure/persistence/database/audit/subject_lifecycle.go:80-106 | Row count, workspace, id, event, record and time survive; rows in the union have the erased values; all others are untouched. |
| Erasure.ErasedColumns | internal/infrastructure/persistence/database/audit/subject_lifecycle.go:83-103 | The erased table column by column, in the values the updates set. |
| Erasure.ActorDisappears | internal/infrastructure/persistence/database/audit/subject_lifecycle.go:101-106 | No row keeps the actor if and only if the alias differs from the identity or there was no such row. |
| Erasure.ErasureIsIdempotent | internal/infrastructure/persistence/database/audit/subject_lifecycle.go:61-111 | A second erasure changes nothing. |
| Erasure.CountSurvivesRedaction | internal/infrastructure/persistence/database/audit/subject_lifecycle.go:93-97 | What earlier updates of the loop redacted does not change what later ones match. |
| Erasure.SumCoversUnion | internal/infrastructure/persistence/database/audit/subject_lifecycle.go:93-110 | The reported sum is at least the number of rows concerned. |
| Erasure.ErasuresCommute | internal/infrastructure/persistence/database/audit/subject_lifecycle.go:66-106 | Two subjects' erasures end in the same table in either order for arbitrary overlapping resources, when neither identity is the other's alias or both have it as their alias. |
| Erasure.ErasuresCommuteExactly | internal/infrastructure/persistence/database/audit/subject_lifecycle.go:66-106 | They commute on every table if and only if each alias that is the other's identity is also the other's own alias. |
| ErasureRuns.UninterruptedErasure | internal/infrastructure/persistence/database/audit/subject_lifecycle.go:83-106 | The interleaved updates, run in a row, are the erasure. |
| ErasureRuns.ErasureReachesPresentRows | internal/infrastructure/persistence/database/audit/subject_lifecycle.go:80-106 | A row targeted when an erasure starts is redacted when it is done, whatever runs in between. |
| ErasureRuns.LateAppendKeepsContent | internal/infrastructure/persistence/database/audit/subject_lifecycle.go:80-106 | A concrete run in which a row appended between the updates is anonymised and keeps its content. |
| ErasureExact.RedactedExactly | internal/infrastructure/persistence/database/audit/subject_lifecycle.go:83-100 | Over every run of any appends and erasures: a row is redacted at the end if and only if it came redacted, or was there and hit when some redacting update ran. |
| ErasureExact.ErasureReachesExactly | internal/infrastructure/persistence/database/audit/subject_lifecycle.go:66-106 | For one erasure among any appends, in any interleaving: a row is redacted if and only if it came so, or one of the erasure's clauses, about its record or the actor it came with, ran after it came. |
| ErasureExact.ClausesRan | internal/infrastructure/persistence/database/audit/subject_lifecycle.go:83-100 | Each clause of an erasure has run or is still to run, and no other ever runs. |
| ErasureExact.SecondErasureMisses | internal/infrastructure/persistence/database/audit/subject_lifecycle.go:101-106 | A run in which a second erasure of one identity misses a row that is there when it starts, because the first has replaced its actor. |
| ErasureExact.InterleavedIsSequential | internal/infrastructure/persistence/database/audit/subject_lifecycle.go:83-106 | Two erasures of different identities, neither the other's alias, interleaved update by update in any order, end in the table of one after the other. |
| EventStore.Store.ListClauses | internal/infrastructure/persistence/database/audit/store.go:147-190 | The clauses built one after the other are the specified list, or the cursor's error. |
| EventStore.Store.ListWithinDataScope | internal/infrastructure/persistence/database/audit/store.go:128-224 | The listing is the specified one: workspace check, clauses, order, and at most the clamped limit of rows, all of the workspace and in descending order. |
| EventStore.Store.QueryEvents | internal/application/audit/audit_query_application_service.go:135-149 | Planning, listing, projecting and building the page compose to the specified page, errors of each included; every item is a projected event of the workspace's listing, its columns copied and its metadata, before and after redacted. |
| EventQuery.ItemColumns | internal/domain/audit/service/audit_query_service.go:91-105 | What a shown item holds, column by column: metadata, before and after are redacted, and result, reason and request id are read after redaction. |
| EventQuery.PageInFull | internal/domain/audit/service/audit_query_service.go:107-110 | A page's count is that of its items, its size and retention are the plan's, and without truncation there is no cursor. |
| EventQuery.ShownIsRedacted | internal/domain/audit/service/audit_query_service.go:95-103 | When redacting twice is redacting once, nothing shown of metadata, before and after is unredacted. |
| EventQuery.ListPredicatesMeaning | internal/infrastructure/persistence/database/audit/store.go:147-190 | The clauses select exactly the rows that match the query's fields, class, times, request id, cursor and scope. |
| EventQuery.CursorInFull | internal/infrastructure/persistence/database/audit/store.go:181-186 | A blank cursor is none; any other is decoded without surrounding space, or the listing fails. |
| EventQuery.ListIsNewestMatches | internal/infrastructure/persistence/database/audit/store.go:139-224 | A listing is descending, holds only matching rows of the workspace, and omits a match only if it is full of newer ones. |
| EventQuery.PlanQuery | internal/domain/audit/service/audit_query_service.go:46-79 | The field-by-field planner is the specified plan, errors included. |
| EventQuery.PlanInFull | internal/domain/audit/service/audit_query_service.go:46-79 | When planning fails, and each field of a plan: page size, lookahead, class, retention, and the lower bound. |
| EventQuery.PlanBoundsPages | internal/domain/audit/service/audit_query_service.go:50-76 | For every integer limit a page is 1 to 200 business or 1 to 1000 other rows, a limit within one page is kept, and the store's clamp never takes the lookahead row. |
| EventQuery.ProjectQuery | internal/domain/audit/service/audit_query_service.go:81-111 | The loop gives the specified page: truncation, next cursor, post-filter and items. |
| EventOrder.SortIsDescending | internal/infrastructure/persistence/database/audit/store.go:197 | Ordering by time and id, both descending, gives a strictly descending arrangement of the same rows. |
| EventOrder.TopOfSelection | internal/infrastructure/persistence/database/audit/store.go:197 | A limited result is the top of the selection. |
| Pagination.ItemsAreTheListing | internal/domain/audit/service/audit_query_service.go:81-106 | With a classifier that agrees with the store and a projection that keeps classes, the post-filter drops nothing and the next cursor is the last shown row's key. |
| Pagination.PageIsNewestMatches | internal/application/audit/audit_query_application_service.go:135-149 | One page shows the newest matching rows past the cursor; a business page is truncated if and only if a matching row is left, other pages never are. |
| Pagination.PageMatchesInFull | internal/infrastructure/persistence/database/audit/store.go:147-190 | Which rows a page is about, field by field. |
| PageWalk.PageSizeIsExact | internal/domain/audit/service/audit_query_service.go:82-110 | Count is the smaller of the page size and the matching rows past the cursor; a business page is truncated if and only if more match. |
| PageWalk.WalkIsDescending | internal/domain/audit/service/audit_query_service.go:82-89 | The pages of a walk concatenate to one strictly descending sequence, whatever happens to the table between them. |
| PageWalk.WalkShowsOnlyMatches | internal/application/audit/audit_query_application_service.go:135-149 | Every item shown is a row that matched, and lay past everything shown before, when its page was asked for. |
| PageWalk.FinishedWalkIsComplete | internal/application/audit/audit_query_application_service.go:135-149 | A finished walk has shown every event that was present and matching on every page. |
| PageWalk.LowerBoundMovesUp | internal/domain/audit/service/audit_query_service.go:66-69 | As the clock advances the effective lower bound only moves up. |
| PageWalk.AppendsLoseNothing | internal/infrastructure/persistence/database/audit/store.go:181-199 | With appends between pages and an advancing cutoff, a finished walk has shown every matching event of the first page's table still inside the last page's cutoff. |
| PageWalk.TruncatedPagesAreFull | internal/domain/audit/service/audit_query_service.go:82-89 | Pages that announce another one are full. |
| PageWalk.WalkIsBounded | internal/domain/audit/service/audit_query_service.go:82-89 | A walk announces at most n divided by page size further pages, where n rows have the keys of all rows awaited when their page was asked for; rows at or above what has been shown do not matter. |
| PageWalk.NewerAppendsAddNoPages | internal/domain/audit/service/audit_query_service.go:82-89 | In a growing log, appends that sort above what has been shown add no page: the walk is bounded by the first page's table. |
| PageWalk.PageConsumes | internal/domain/audit/service/audit_query_service.go:82-89 | The measure: the matching rows past the cursor drop by exactly the page size with every truncated page. |
| PageWalk.ShownIsRetained | internal/domain/audit/service/audit_query_service.go:66-69 | For a lower bound that is absent, unparsable or whole-second UTC, every matching row is at or after the retention cutoff. |
| EventClass.ClassesPartition | internal/infrastructure/persistence/database/audit/store.go:158-170 | For arbitrary marker lists every event is selected by exactly one of the three class clauses. |
| EventClass.ClassMeaning | internal/infrastructure/persistence/database/audit/store.go:318-348 | A class clause selects exactly the events of that class. |
| EventClass.OperationsMeaning | internal/infrastructure/persistence/database/audit/store.go:337-348 | The operations clause is the auth prefixes, the conflict event and the markers. |
| EventClass.MarkerMeaning | internal/infrastructure/persistence/database/audit/store.go:326-335 | The marker clause selects exactly the events whose lower-case event and object contain a lower-case marker. |
| EventClass.AuditClassMarkerPredicate | internal/infrastructure/persistence/database/audit/store.go:326-335 | The loop builds the specified clause, false for no markers. |
| EventFacts.ExportEventResult | internal/domain/audit/service/export_filter.go:48-64 | The first metadata key with a usable value decides, else the first word found in the event name. |
| EventFacts.ExportEventReason | internal/domain/audit/service/export_filter.go:66-76 | The first metadata key with a non-blank, non-nil reason decides. |
| EventFacts.ResultInFull | internal/domain/audit/service/export_filter.go:48-64 | The result, key by key and word by word. |
| EventFacts.ReasonInFull | internal/domain/audit/service/export_filter.go:66-76 | The reason, key by key. |
| EventFacts.ResultCanBeFiltered | internal/domain/audit/service/export_filter.go:48-64 | A reported result is blank or a lower-case value the filter accepts. |
| ScopePolicy.ResolveAuditDataScope | internal/application/audit/data_scope.go:16-75 | Grants if and only if, in the principal's own fields, it is known, holds the permission and a valid bundle about itself, some policy concerns the resource and action the last dot separates, all that do allow in canonical form with known scopes, and no record-level guardrail applies; otherwise it denies. The scope is the normalised union of the policies' scopes. |
| ScopePolicy.GrantInFull | internal/application/audit/data_scope.go:20-73 | The checks of the grant amount to exactly that written-out condition. |
| ScopePolicy.CollectPolicies | internal/application/audit/data_scope.go:32-63 | Succeeds exactly when every policy for the permission is an allow policy in canonical form with known scopes. |
| ScopePolicy.AddDataScopes | internal/application/audit/data_scope.go:47-62 | Adds every listed scope's subjects and organisations, or fails on an unsupported one. |
| ScopePolicy.GuardrailsPass | internal/application/audit/data_scope.go:67-73 | Passes exactly when no record-level guardrail applies to the permission. |
| ScopePolicy.CanonicalAuditScopePredicate | internal/application/audit/data_scope.go:77-99 | The loop builds the specified canonical predicate. |
| ScopePolicy.CanonicalMeaning | internal/application/audit/data_scope.go:77-99 | A canonical predicate accepts a record if and only if one of its scopes lets the subject see it. |
| ScopePolicy.CanonicalInFull | internal/application/audit/data_scope.go:77-99 | One scope's predicate stands by itself, several or none form an any-list, and the first unrestricted or unsupported scope decides. |
| ScopePolicy.CompilationPreservesMeaning | internal/application/audit/data_scope.go:32-75 | When the facts the policies list are closed under trimming, the resolved scope covers a clean record if and only if some matching policy's predicate accepts it under the subject's own facts; facts that are blank or untrimmed can only lose records. |
| ScopePolicy.CompilationExactly | internal/application/audit/data_scope.go:32-75 | Scope and policies agree on every clean record if and only if the scope is unrestricted or every listed fact, trimmed, is blank or itself listed. |
| ScopePolicy.UntrimmedSubjectWidens | internal/application/audit/data_scope.go:26-52 | A granted principal whose subject id carries a space: the scope covers an actor no policy accepts. |
| ScopePolicy.CompilationTrimsFacts | internal/application/audit/data_scope.go:49-74 | For every granted principal the scope means the policies read under the subject's trimmed facts. |
| ScopePolicy.CleanSubjectIsClean | internal/application/audit/data_scope.go:49-59 | Facts without surrounding space meet the condition. |
| ScopePolicy.PolicyOrderIsIrrelevant | internal/application/audit/data_scope.go:34-63 | Neither the grant nor the accepted records depend on the order of policies. |
| ScopeSql.EventScopeMeaning | internal/infrastructure/persistence/database/audit/store.go:231-250 | The event clause selects exactly the rows the scope covers by actor or organisation. |
| ScopeSql.ArtifactScopeMeaning | internal/infrastructure/persistence/database/export/store.go:168-181 | The artifact clause selects exactly the requesters among the subjects; organisations select nothing. |
| ScopeSql.CoversNormalized | internal/domain/audit/repository/data_scope.go:20-27 | Normalising never changes what a scope covers. |
| ScopeSql.OwnerScopeCovers | internal/domain/audit/repository/data_scope.go:16-18 | An owner's scope covers exactly what the trimmed owner acted on, and nothing for a blank owner. |
| DataScopes.NormalizedScopeValues | internal/domain/audit/repository/data_scope.go:29-41 | The loop with its seen map gives the specified list. |
| DataScopes.NormalizeDataScope | internal/domain/audit/repository/data_scope.go:20-27 | An unrestricted scope drops its lists; otherwise each list holds exactly the non-blank trimmed values it was given. |
| DataScopes.NormalizedMembers | internal/domain/audit/repository/data_scope.go:29-41 | Holds exactly the non-blank trimmed values. |
| Text.TrimCutsSpace | internal/domain/audit/repository/data_scope.go:33 | Trimming cuts white space off both ends of a text and nothing else. |
| DataScopes.NormalizedDistinct | internal/domain/audit/repository/data_scope.go:34-37 | No value appears twice. |
| DataScopes.NormalizedOrder | internal/domain/audit/repository/data_scope.go:32-39 | Values stand in the order of their first occurrence. |
| DataScopes.NormalizedIdempotent | internal/domain/audit/repository/data_scope.go:20-27 | Normalising twice is normalising once. |
| LikePattern.EscapeSQLLike | internal/infrastructure/persistence/database/audit/store.go:312-316 | The three replacements give the one-pass escaping. |
| LikePattern.SequentialReplacementIsOnePass | internal/infrastructure/persistence/database/audit/store.go:312-316 | Replacing one character after the other never escapes an escape twice. |
| LikePattern.ContainsPattern | internal/infrastructure/persistence/database/audit/store.go:329 | The escaped value between percent signs matches a text if and only if the text contains the value. |
| LikePattern.PrefixPattern | internal/infrastructure/persistence/database/audit/store.go:341-344 | The escaped value before a percent sign matches a text if and only if the text starts with the value. |

## Left out

- Redemption.ExportRoundTrip: the caller's own statements run and its authorizer agrees; statements of all other callers may fail or lose their acknowledgement.
- ExportContents.ReplayExactly: takes equal normalised filters as given; the retention cutoff enters the filters, so an absent or old lower bound at another second is a different request.
- PageWalk.AppendsLoseNothing: lower bounds are absent, unparsable or whole-second UTC text, because a bound in another form is kept as written and compared as text; events may be appended but not erased during the walk.
- PageWalk.WalkIsBounded: a log that keeps growing below the cursor has no bound.
- CreateRuns.CallersConverge: assumes that different keys have different ids and token hashes, and that requests are complete.
- ErasureRuns.ErasureReachesPresentRows: for a row reached through its actor, no other process may be anonymising the same identity; `ErasureExact.SecondErasureMisses` shows that the condition is needed.
- Transactions: the conditional update and its commit are one step; an erasure takes one step per UPDATE and its updates are visible at once, as under the weakest isolation; rolled-back transactions change nothing and are not steps. Isolation levels and locks are not modelled.
- Strings are sequences of characters: UTF-8 is not modelled, the byte-order mark is one character, the token gate counts characters, and lower-casing changes ASCII letters only.
- SQL is two-valued: a comparison with NULL selects nothing, and negation is used only over expressions that are never NULL. Collation is code-unit order. Rows affected are rows matched.
- An `any` list of a policy predicate that is empty accepts nothing and differs from the zero predicate, which accepts everything; that is the identity SDK's reading, and the SDK is not part of this model.
- `AccessBundle.Validate` and `HasPermission` are a flag and a list of the principal; their own rules are not part of this model.
- The time parser accepts RFC 3339 section 5.6 without leap seconds; leniencies of Go's parser beyond it are not modelled. Fractions are kept to nanoseconds.
- The CSV decoder accepts a line feed or a carriage return and line feed as line end.
- JSON and base64 codecs of the stored columns, and JSON scanning failures: rows hold the values themselves; an event's metadata is opaque text with a lookup.
- Audit events of the export lifecycle carry their kind and artifact id; their metadata, actor and request ids, and `BuildEvent`'s identifiers, are not modelled.
- A blank workspace passed to the query builder by `PreviewSubject` is not treated specially, because the builder is not part of this model.
- `Options`, `ExportSubject`, `List`, `ListSystem`, `AppendPreparedWithin`, host principal resolution, thin delegating methods, HTTP, assembly, migrations beyond their keys and SQL rendering: they would only add easy members.
- Cryptographic strength, constant-time comparison and secret redaction.
