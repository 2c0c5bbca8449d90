# Archive Center: verified model of its core algorithms

A Dafny 4.11 project. It models the parts of the Archive Center repository whose behaviour is hardest to see from
reading one function at a time, in the form the source has them (classes and loops where the source changes state,
functions where it computes), and proves what these parts are for. `dafny verify dfyconfig.toml` checks everything.

## What is modelled

| files | subject |
|---|---|
| `CanonicalJson`, `StringOrder` | the hand-written canonical JSON printer, and a reader after RFC 8259 that inverts it |
| `TableChecksums`, `CompareReport` | order-independent table checksums and the verdict of the export/MariaDB comparison |
| `ExportValidation` | the SQLite table exporter and the validator of what it wrote |
| `AdminJobs`, `AdminJobRuns`, `AdminJobManager` | the background-job table, every interleaving of its operations with event streams, and the lock-protected object |
| `ValueCompare`, `ValueDifferences` | the bounded deep comparison of two JSON trees, and its meaning |
| `ProbeBodies`, `CompareProbe` | how the probe reads response bodies, when that tells two bodies apart, and the probe verdict |
| `Semver`, `SemverPrecedence`, `SemverGrammar` | version comparison against section 11 of SemVer 2.0.0, the version pattern, and the compatibility range |
| `DuplicateKeys` | the recursive duplicate-key check over a token stream |
| `MemberNames`, `PackPreview`, `PackAcceptance`, `PackInspection` | member names, archive limits, the manifest/member correspondence of canon packs, and exactly which archives are accepted |
| `ProcessLifetime` | the process-group supervisor against an operating system that may answer anything |
| `LogRotation` | the rotating diagnostic log on a disk whose operations may fail |
| `RateLimiter` | the fixed-window limiter over whole runs |
| `SqlSplitter`, `SqlPrinting`, `SqlLiterals`, `SqlStatements` | the quote-aware statement splitter against a grammar of literals, and exactly which lists of statements it reads back |
| `ChatLogMigration` | the preflight, update, delete and unique index on chat logs |
| `Basics`, `Text` | shared vocabulary, and the Go string helpers in use |

Conventions. SHA-256 is a parameter `h`: it yields 64 characters without line breaks, and where a theorem needs it, no
two of the texts hashed for that theorem collide. Case folding, redaction, row normalisers, ZIP and JSON libraries,
the rounding of numbers, SQL text functions and Python's `int` are parameters too. Strings are sequences of Unicode
scalar values (member names: of bytes). The operating system and the disk appear as objects or parameters whose
answers are arbitrary. Map iteration is an arbitrary choice of the next key.

Every loop or stateful method is tied to a specification function or to an outright property; the theorems are about
these functions, about all inputs, or about all runs.

## What the proofs brought out

- A path with a dot in a key is classified by the text after the last dot, so the key `cfg.updated_at` counts as
  volatile (`CompareProbe.DottedKeyMisread`). `NearestKeyDecidesIff` says exactly for which keys the key's own name
  decides.
- Different keys and positions can share a path text: `a.b` at the top and `b` below `a` are both reported as `.a.b`
  (`CompareProbe.PathTextsCollide`); for keys without dot and bracket the texts are distinct (`RenderInjective`).
- The probe reads every number of a response body as a float64, so `{"id":9007199254740993}` and
  `{"id":9007199254740992}` are an exact match (`ProbeBodies.LargeIntegersMatch`), and every body that is not an object
  as the empty object, so `[1]` and `[2]` are one too (`NonObjectBodiesMatch`). `ToldApartIff` says exactly for which
  bodies the exact match is right: those that say the same, two objects with a disagreement that is more than numbers
  read as one, and bodies of which at least one is no object and one is an object with a member. Objects whose numbers
  are integers up to 2^53 in size are always told apart (`SmallIntegersToldApart`).
- Pre-release numbers wrap at 64 bits: `0.0.0-9223372036854775808` sorts below `0.0.0-1`
  (`SemverPrecedence.OverflowMisorders`). The comparison meets the standard for numbers below a limit exactly when the
  limit is at most 2^63 (`AgreesBelowIff`).
- The member name `.` passes the path check, as the only accepted name that is not made of plain elements
  (`MemberNames.SafeMemberNameIff`).
- When the log file exists but cannot be inspected, the size check is skipped and the bound fails
  (`LogRotation.FailedInspectionBreaksBound`); `RunBoundedIff` says exactly which runs keep it.
- A limiter whose limit is below one still passes the first request of a new window (`RateLimiter.OneRequestPasses`),
  and then at most one in every interval of one window (`AtMostTwiceTheLimit`); twice the limit bounds such an interval
  exactly when the limit is at least one (`WithinTwiceIff`).
- A comment that follows a semicolon on its line is kept as a statement, and lost when the statements are joined and
  split again (`SqlPrinting.CommentBehindSemicolon`); `SplitAgainIff` says exactly which texts keep their statements.
- Once the unique index is in place, a second spelling of a role with the same content passes the preflight and makes
  the `UPDATE` fail (`ChatLogMigration.SecondSpellingFails`); `ApplyMigration` says exactly when the migration is done.
- Two exceptions of a stop are not caught: a refusal of the pid file or of a signal, and the overflow of probing an id
  beyond a C int. A stop raises exactly when it meets one, possibly before every group was handled
  (`ProcessLifetime.StopProcessGroups`); a pid file with one line beyond `2147483647` is enough (`LargeIdListed`).

## Model

| member | source | states |
|---|---|---|
| CanonicalJson.CanonicalUnambiguous | go-service/cmd/mariadb-compare/main.go:608-711 | two well-formed values (any depth) have the same canonical text iff they are the same value |
| CanonicalJson.ReadInverts | go-service/cmd/mariadb-compare/main.go:616-711 | a JSON reader, written from the grammar of RFC 8259, gives back every printed value of any depth and leaves the text after it alone |
| CanonicalJson.PrefixFree | go-service/cmd/mariadb-compare/main.go:616-680 | the encoding is prefix-free up to a delimiter: the text read on determines the value and the rest |
| CanonicalJson.DecodeInvertsEncString | go-service/cmd/mariadb-compare/main.go:682-711 | an RFC 8259 section 7 string decoder gives back every encoded string and leaves the text after it alone |
| CanonicalJson.EncodeJSONString | go-service/cmd/mariadb-compare/main.go:682-711 | the loop produces the encoding that the decoder inverts |
| CanonicalJson.CollectKeys | go-service/cmd/mariadb-compare/main.go:618-621 | map iteration in any order lists each key once |
| CanonicalJson.EncodeCanonicalMap | go-service/cmd/mariadb-compare/main.go:616-635 | appends exactly the encoding of the object to the shared builder, whatever order the keys came in |
| CanonicalJson.EncodeCanonicalArray | go-service/cmd/mariadb-compare/main.go:657-667 | appends exactly the encoding of the array |
| CanonicalJson.EncodeCanonicalValue | go-service/cmd/mariadb-compare/main.go:637-680 | appends exactly the encoding of the value |
| CanonicalJson.CanonicalJSONBytes | go-service/cmd/mariadb-compare/main.go:608-614 | the bytes of a row are its canonical encoding |
| StringOrder.SortedUnique | go-service/cmd/mariadb-compare/main.go:603-605 | a sorted list is determined by its elements and multiplicities, so sorting hides the original order |
| StringOrder.SortOfEnumeration | go-service/cmd/mariadb-compare/main.go:618-622 | sorting the keys gives the same list for every iteration order |
| TableChecksums.ComputeChecksums | go-service/cmd/mariadb-compare/main.go:583-606 | hashing row by row, sorting and joining computes the table checksum |
| TableChecksums.ChecksumIgnoresOrder | go-service/cmd/mariadb-compare/main.go:583-606 | listing the rows in another order never changes the checksum |
| TableChecksums.ChecksumsEqualIff | go-service/cmd/mariadb-compare/main.go:583-606 | with collision-free hashing, checksums are equal iff the rows, without the keys id and _row_checksum and no others, are equal multisets |
| TableChecksums.ChangeNoticed | go-service/cmd/mariadb-compare/main.go:583-606 | another value under any key but these two, in any row, changes the checksum |
| TableChecksums.JoinInjective | go-service/cmd/mariadb-compare/main.go:604-605 | a join of fixed-length digests can be read back |
| CompareReport.CompareTable | go-service/cmd/mariadb-compare/main.go:247-330 | status, counts, checksums and error of one table, for every failure of reading or counting |
| CompareReport.CompareExport | go-service/cmd/mariadb-compare/main.go:177-245 | the report status is the verdict over all canonical tables; results and errors are those of the tables in order; it is failed iff an error was recorded |
| CompareReport.TableOkIff | go-service/cmd/mariadb-compare/main.go:247-330 | a table is ok iff nothing failed, counts agree and both sides hold the same normalised rows without id and _row_checksum |
| CompareReport.TableStatusIff | go-service/cmd/mariadb-compare/main.go:247-330 | what each status of a table means, the error it reports, and the counts and checksum match with it |
| CompareReport.CompareTables | go-service/cmd/mariadb-compare/main.go:196-232 | the loop over the canonical tables |
| CompareReport.ReportOkIff | go-service/cmd/mariadb-compare/main.go:177-330 | the report is ok iff every canonical table is exported, not skipped, and has equal multisets of normalised rows without id and _row_checksum |
| CompareReport.ReportFailedIff | go-service/cmd/mariadb-compare/main.go:177-330 | the report is failed iff the manifest or some table that is not skipped cannot be read, or was not exported |
| CompareReport.VerdictIgnoresRowOrder | go-service/cmd/mariadb-compare/main.go:177-330 | verdict and table results are the same whatever order either side lists its rows in |
| ExportValidation.ExportTable | go-service/cmd/sqlite-export/main.go:217-299 | succeeds iff columns and all rows can be read; then one line a row with the hash of the row without its id, and a meta record with columns, count and table checksum |
| ExportValidation.ScanRows | go-service/cmd/dry-run-validator/main.go:324-383 | accepted plus rejected rows is the number of lines; the errors are exactly those of the lines: unparsed, lacking a required field, or with all fields and broken JSON in a column |
| ExportValidation.EffectiveChecksumIs | go-service/cmd/dry-run-validator/main.go:336-340 | the stored checksum counts if there is one, otherwise the hash of the row without id and _row_checksum |
| ExportValidation.CloseReport | go-service/cmd/dry-run-validator/main.go:381-404 | each count and checksum error is reported iff it applies |
| ExportValidation.ValidateTable | go-service/cmd/dry-run-validator/main.go:275-407 | without a meta record the report holds just the reason; otherwise discovered is accepted plus rejected, and each error is reported iff it applies |
| ExportValidation.ExportValidates | go-service/cmd/dry-run-validator/main.go:409-434 | lines that carry an export in any order give the exporter's table checksum |
| ExportValidation.ExportAndValidate | go-service/cmd/dry-run-validator/main.go:275-434 | exporting a table, permuting its lines and validating them reports no row-count and no checksum error |
| ExportValidation.ChecksumAgreesIff | go-service/cmd/dry-run-validator/main.go:409-434 | whatever the lines hold: row count and table checksum agree iff the lines carry the stored row checksums as a multiset |
| AdminJobs.SerialOfJobID | go-service/internal/httpapi/admin_jobs.go:74-76 | an id gives back the serial number it was made from, so ids never repeat |
| AdminJobs.TerminalByText | go-service/internal/httpapi/admin_jobs.go:307-314 | exactly five status texts end a job |
| AdminJobs.UpdateRecords | go-service/internal/httpapi/admin_jobs.go:176-218 | a report on a live job records the status and every reported value, leaves all else but display_total alone, and publishes; on another job nothing happens |
| AdminJobs.DisplayTotal | go-service/internal/httpapi/admin_jobs.go:191-214 | what a report does to display_total |
| AdminJobs.FinishRecords | go-service/internal/httpapi/admin_jobs.go:220-256 | finishing records status, result, trimmed error and time as given, also in the progress map, with the percentage of each outcome |
| AdminJobs.CancelRecords | go-service/internal/httpapi/admin_jobs.go:258-294 | cancelling records the cancelled status and its error, and keeps the result |
| AdminJobs.PublishKeepsInv | go-service/internal/httpapi/admin_jobs.go:296-305 | publishing any legal change of a live job keeps the invariant of the table |
| AdminJobs.KeptOrderExact | go-service/internal/httpapi/admin_jobs.go:316-335 | the pruning loop drops exactly the oldest min(excess, terminal) terminal ids and keeps the rest in order |
| AdminJobs.PruneExact | go-service/internal/httpapi/admin_jobs.go:316-335 | the whole table after pruning; the order list still has no duplicates and equals the keys |
| AdminJobs.PruneBound | go-service/internal/httpapi/admin_jobs.go:316-335 | after pruning, the length is at most the limit or the number of live jobs |
| AdminJobs.StartKeepsInv | go-service/internal/httpapi/admin_jobs.go:53-143 | start keeps the invariant, returns a live job for the key, and bounds the table when it creates one |
| AdminJobRuns.StepEvolves | go-service/internal/httpapi/admin_jobs.go:53-335 | every operation keeps the invariant and lets the table only evolve |
| AdminJobRuns.WorkerSteps | go-service/internal/httpapi/admin_jobs.go:108-139 | what the worker's first report, its reports and its end do to a live job, and nothing to another |
| AdminJobRuns.StartStep | go-service/internal/httpapi/admin_jobs.go:53-120 | after a start a live job with the folded kind and the session is in the table |
| AdminJobRuns.RunEvolves | go-service/internal/httpapi/admin_jobs.go:53-335 | the same over any run |
| AdminJobRuns.AtMostOneLiveJob | go-service/internal/httpapi/admin_jobs.go:60-72 | in every reachable state at most one live job exists per folded kind and session |
| AdminJobRuns.TerminalIsFinal | go-service/internal/httpapi/admin_jobs.go:176-256 | a terminal record is never changed by anything that runs later; it can only be pruned |
| AdminJobRuns.CancelIsFinal | go-service/internal/httpapi/admin_jobs.go:258-294 | cancelling a live job ends it, and no later report, finish or start alters the record |
| AdminJobRuns.NoMissedPublication | go-service/internal/httpapi/admin_jobs.go:363-378 | in every reachable state, a stream waiting on an open channel follows a live job, and has sent the table's current record last, or asked to continue from its revision or a later one |
| AdminJobRuns.RevisionsIncrease | go-service/internal/httpapi/admin_jobs.go:493-519 | the revisions of one stream strictly increase beyond the one asked for, only its last snapshot can be terminal, and it moves on only by sending |
| AdminJobRuns.SubscribeOpens | go-service/internal/httpapi/admin_jobs.go:463-496 | a request for a known job opens a stream at the revision asked for; another opens none |
| AdminJobRuns.SnapshotsGenuine | go-service/internal/httpapi/admin_jobs.go:493-519 | every stream of a run answers a request of the run, and all it sent are records that the table held for the job |
| AdminJobRuns.TwoStepsDeliver | go-service/internal/httpapi/admin_jobs.go:493-519 | in every reachable state, waking and looking once brings a running stream up to date, or ends it because the job is gone |
| AdminJobRuns.EndedStays | go-service/internal/httpapi/admin_jobs.go:493-519 | a stream that has ended never changes again |
| AdminJobRuns.DisconnectedIsSilent | go-service/internal/httpapi/admin_jobs.go:513-517 | after the client went away nothing is sent |
| AdminJobRuns.StreamEndings | go-service/internal/httpapi/admin_jobs.go:493-519 | a stream ends by itself exactly after a terminal snapshot, or because its job is gone |
| AdminJobRuns.FinalSnapshotIsLast | go-service/internal/httpapi/admin_jobs.go:493-519 | a terminal snapshot is the job's last word over every continuation |
| AdminJobManager.Manager.constructor | go-service/internal/httpapi/admin_jobs.go:45-51 | a new manager is the empty table |
| AdminJobManager.Manager.InsertJob | go-service/internal/httpapi/admin_jobs.go:74-100 | after a failed scan: a new id, a queued live record with the given key and times at revision one, an open channel, no other live job of its key, all other records as before, the table valid |
| AdminJobManager.Manager.StartJob | go-service/internal/httpapi/admin_jobs.go:53-143 | keeps the table valid; state and result are those of the specified start, with the kind and session asked for; reused iff the job was there before, and then nothing changed |
| AdminJobManager.Manager.UpdateJob | go-service/internal/httpapi/admin_jobs.go:176-218 | as specified for every status; a terminal or unknown job is left alone; what the workers report keeps the table valid |
| AdminJobManager.Manager.FinishJob | go-service/internal/httpapi/admin_jobs.go:220-256 | as specified for every status; a terminal or unknown job is left alone; a terminal status keeps the table valid |
| AdminJobManager.Manager.CancelJob | go-service/internal/httpapi/admin_jobs.go:258-294 | as specified; the context is cancelled iff the job was live, and the snapshot is terminal |
| AdminJobManager.Manager.ObserveJob | go-service/internal/httpapi/admin_jobs.go:363-378 | the channel returned is open and this job's alone; no snapshot means a live job that has published nothing after the given revision |
| AdminJobManager.Manager.PruneLocked | go-service/internal/httpapi/admin_jobs.go:316-335 | the in-place loop computes the specified table |
| ValueCompare.CompareValues | go-service/internal/compare/value.go:51-61 | returns min(maxDiffs, n) of the n diffs (none for a bound below one), truncated iff n exceeds the bound, and all of them otherwise |
| ValueCompare.CompareValue | go-service/internal/compare/value.go:77-181 | extends the shared collector by the diffs of the two values, up to the bound |
| ValueCompare.CompareSlice | go-service/internal/compare/value.go:271-311 | the same for two arrays: length, then items in order |
| ValueCompare.CompareMap | go-service/internal/compare/value.go:213-269 | the same for two objects, with keys visited in any order |
| ValueCompare.DiffCollector.Append | go-service/internal/compare/value.go:63-75 | adds one classified diff, or marks the collector truncated at the bound |
| ValueDifferences.DiffIffDisagreement | go-service/internal/compare/value.go:77-311 | a diff is reported at a position iff the trees disagree there by direct lookup: in type, in length, as scalars, or because one object lacks the key |
| ValueDifferences.DisagreeIff | go-service/internal/compare/value.go:77-311 | what is reported at a position, kind and shown sides, in terms of the two trees alone |
| ValueDifferences.ReportedKind | go-service/internal/compare/value.go:63-311 | the kind of every reported diff says how the trees disagree there, or that the path is volatile |
| ValueDifferences.OneDiffPerPosition | go-service/internal/compare/value.go:77-311 | each diff occurs once, and no two diffs share a position |
| ValueDifferences.NoDiffsIffEqual | go-service/internal/compare/value.go:77-311 | without a bound there are no diffs iff the values are equal |
| ValueDifferences.SwapMirrors | go-service/internal/compare/value.go:77-311 | swapping the inputs mirrors every diff |
| ValueDifferences.SwapKeepsCount | go-service/internal/compare/value.go:51-61 | so the number of diffs, and truncation, do not depend on the order of the inputs |
| CompareProbe.VolatilePathIff | go-service/internal/compare/value.go:29-49 | a path text is volatile iff only indices follow its last key and the name read from that key is volatile |
| CompareProbe.VolatileNameIff | go-service/internal/compare/value.go:20-46 | which names are volatile |
| CompareProbe.CapitalsIgnored | go-service/internal/compare/value.go:42-46 | capitals make no difference to that |
| CompareProbe.VolatileByNearestKey | go-service/internal/compare/value.go:29-49 | for keys without dot and bracket, the nearest key decides |
| CompareProbe.DottedKeyMisread | go-service/internal/compare/value.go:29-49 | a concrete key with a dot for which it does not |
| CompareProbe.NearestKeyDecidesIff | go-service/internal/compare/value.go:29-49 | the nearest key decides iff it has neither dot nor bracket, or the name read from it is not volatile |
| CompareProbe.RenderInjective | go-service/internal/compare/value.go:213-311 | different positions made of such keys have different path texts |
| CompareProbe.UncleanKeysCollide | go-service/internal/compare/value.go:213-311 | a dot in any key, or an index in brackets at its end, gives the key the path text of two steps |
| CompareProbe.PathTextsCollide | go-service/internal/compare/value.go:213-311 | two diffs of one pair of trees, at different positions, with the same path text |
| CompareProbe.AllVolatileIff | go-service/internal/compare/value.go:29-311 | all diffs are volatile iff the trees are equal up to volatile positions |
| CompareProbe.TypesMatchIff | go-service/internal/compare/probe_value.go:60-66 | no reported diff is structural iff keys and types agree everywhere except at volatile positions |
| CompareProbe.DeriveVerdict | go-service/internal/compare/probe_value.go:42-73 | status, key, exact, type, volatile and behaviour match in terms of the two responses as they are read, position by position, and the exact condition on the bodies under which the exact match is right about them |
| CompareProbe.ExactIffEqual | go-service/internal/compare/probe_value.go:55-58 | with a positive bound an exact match is deep equality |
| ProbeBodies.RoundedDifferIff | go-service/internal/compare/probe_value.go:45-52 | reading every number at any depth as a float64 leaves two values different iff they disagree at some position by more than numbers read as one |
| ProbeBodies.LastMemberCounts | go-service/internal/compare/probe_value.go:45-47 | of the members of a body with one key the last is read, rounded |
| ProbeBodies.ToldApartIff | go-service/internal/compare/probe_value.go:45-58 | the exact match is right about two bodies iff they say the same, or are objects that disagree by more than numbers read as one, or not both are objects and one is an object with a member |
| ProbeBodies.KeptApartToldApart | go-service/internal/compare/probe_value.go:45-58 | two objects whose numbers stay in range and apart as float64 are an exact match only if they say the same |
| ProbeBodies.SmallIntegersToldApart | go-service/internal/compare/probe_value.go:45-58 | so are two objects whose numbers are integers up to 2^53 in size |
| ProbeBodies.RoundedNumbersMatch | go-service/internal/compare/probe_value.go:45-58 | two objects with different numbers under one key that have one float64 are an exact match |
| ProbeBodies.LargeIntegersMatch | go-service/internal/compare/probe_value.go:45-58 | 2^53 + 1 and 2^53 under one key are such a pair |
| ProbeBodies.NonObjectBodiesMatch | go-service/internal/compare/probe_value.go:45-47 | bodies that are no objects are an exact match, and told apart only if they say the same |
| Semver.WrappedOnce | go-service/internal/canonpack/preview.go:823-835 | wrapping at every digit is wrapping the value once at 64 bits |
| Semver.NumericIdentifier | go-service/internal/canonpack/preview.go:823-835 | accepts exactly the numbers without a leading zero, and yields the wrapped value |
| Semver.ComparePrerelease | go-service/internal/canonpack/preview.go:789-821 | the loop is the identifier-wise comparison |
| Semver.CompareVersions | go-service/internal/canonpack/preview.go:758-776 | the loop is the comparison of core numbers, then pre-release |
| Semver.SemverTotalPreorder | go-service/internal/canonpack/preview.go:758-835 | for all texts: antisymmetric, transitive, and zero iff the parts read are equal |
| SemverPrecedence.EqualIffSameMain | go-service/internal/canonpack/preview.go:758-835 | versions whose core fits in 63 bits compare equal iff they differ at most in build metadata |
| SemverPrecedence.AgreesWithStandard | go-service/internal/canonpack/preview.go:758-835 | valid versions with numbers below 2^63 compare as section 11 of SemVer 2.0.0 says |
| SemverPrecedence.OverflowMisorders | go-service/internal/canonpack/preview.go:823-835 | a concrete pair beyond 2^63 that compares the wrong way round |
| SemverPrecedence.AgreesBelowIff | go-service/internal/canonpack/preview.go:758-835 | agreement for all numbers below a limit holds exactly when the limit is at most 2^63 |
| SemverPrecedence.ValidateCompatibility | go-service/internal/canonpack/preview.go:619-642 | no issue iff the section is sound and the running version lies in its half-open range; each issue is reported iff it applies |
| SemverGrammar.MatchesIff | go-service/internal/canonpack/preview.go:300-300 | a text is accepted as a version iff it is written as three numbers with optional words behind a dash and a plus sign |
| SemverPrecedence.AcceptedVersionsConvex | go-service/internal/canonpack/preview.go:619-642 | the accepted versions form an interval |
| SemverPrecedence.MinimumAccepted | go-service/internal/canonpack/preview.go:619-642 | a sound section accepts its minimum and never its maximum |
| DuplicateKeys.WalkValue | go-service/internal/canonpack/preview.go:239-281 | on the tokens of a value the walk consumes exactly these, and succeeds iff no object repeats a key |
| DuplicateKeys.WalkReads | go-service/internal/canonpack/preview.go:239-281 | a successful walk has read the tokens of a value without repeated keys |
| DuplicateKeys.TokensPrefixFree | go-service/internal/canonpack/preview.go:239-281 | a stream is the tokens of at most one value |
| DuplicateKeys.CheckPassesIff | go-service/internal/canonpack/preview.go:239-294 | the check passes iff the document is exactly one value without repeated keys at any depth |
| DuplicateKeys.DecodingAgrees | go-service/internal/canonpack/preview.go:174-190 | then first-wins and last-wins decoding agree at every depth |
| DuplicateKeys.WhichWins | go-service/internal/canonpack/preview.go:174-190 | otherwise the first member with a key gives its value when first wins, and the last when last wins |
| DuplicateKeys.Decoder.WalkNext | go-service/internal/canonpack/preview.go:241-281 | the recursive closure over the stateful decoder computes the walk and restores the open delimiters |
| DuplicateKeys.Decoder.WalkObject | go-service/internal/canonpack/preview.go:252-272 | the member loop, with its set of seen keys |
| DuplicateKeys.Decoder.WalkArray | go-service/internal/canonpack/preview.go:273-280 | the element loop |
| DuplicateKeys.RejectDuplicateJSONKeys | go-service/internal/canonpack/preview.go:239-294 | accepted iff one value with unique keys; refused for a repeated key iff the value repeats one |
| MemberNames.SafeMemberNameIff | go-service/internal/canonpack/preview.go:209-222 | accepted names are `.` and relative slash paths of plain elements, without NUL, backslash and drive letter |
| PackPreview.RatioBound | go-service/internal/canonpack/preview.go:149-156 | although the product wraps at 64 bits, an accepted member expands at most a hundredfold |
| PackPreview.LimitsKept | go-service/internal/canonpack/preview.go:105-197 | names distinct ignoring case, total at most 8 MiB, hundredfold expansion, regular plain files |
| PackPreview.FewMembers | go-service/internal/canonpack/preview.go:548-617 | an accepted archive has at most four members |
| PackPreview.MemberNamesOk | go-service/internal/canonpack/preview.go:548-617 | every member is the one manifest or one of the three ancillary files |
| PackPreview.MemberDeclared | go-service/internal/canonpack/preview.go:586-611 | every other member corresponds to exactly one declared file, with its size and hash |
| PackPreview.DeclaredPresent | go-service/internal/canonpack/preview.go:612-616 | every declared file is exactly one member |
| PackAcceptance.SoundMembersIff | go-service/internal/canonpack/preview.go:121-161 | the member tests, in sequence, accept exactly sound members with distinct names and a bounded total |
| PackAcceptance.DeclarationsIff | go-service/internal/canonpack/preview.go:548-585 | the tests on the declared files accept exactly distinct sound declarations, with a signature where one is due |
| PackAcceptance.SameFilesIff | go-service/internal/canonpack/preview.go:586-616 | members and declarations match in both directions iff they are the same files |
| PackAcceptance.ArchiveIff | go-service/internal/canonpack/preview.go:105-207 | all checks together accept exactly the sound archives, in terms of members, declarations and literal limits |
| PackInspection.CheckMembers | go-service/internal/canonpack/preview.go:121-161 | a diagnostic is added iff some member is not in order; otherwise total and manifest are exact |
| PackInspection.CheckEntry | go-service/internal/canonpack/preview.go:551-577 | a diagnostic is added iff the entry is not in order or repeats a path |
| PackInspection.DeclareFiles | go-service/internal/canonpack/preview.go:549-579 | the loop over the entries |
| PackInspection.CompareActual | go-service/internal/canonpack/preview.go:592-611 | a diagnostic is added iff some member does not match its declaration, in any iteration order |
| PackInspection.CompareDeclared | go-service/internal/canonpack/preview.go:612-616 | a diagnostic is added iff a declared file is missing |
| PackInspection.ValidateFiles | go-service/internal/canonpack/preview.go:548-617 | a diagnostic is added iff members and declarations do not correspond |
| PackInspection.PreviewZIP | go-service/internal/canonpack/preview.go:105-207 | valid iff the archive is sound (PackAcceptance.SoundArchive), the running version's range and a due signature among it; then the summary holds the exact totals |
| PackInspection.OnlyManifest | go-service/internal/canonpack/preview.go:157-170 | an acceptable archive has one manifest, the member that the loop found |
| PackInspection.InspectZIP | go-service/internal/canonpack/preview.go:71-97 | succeeds on every sound archive and hands off exactly the content of its manifest member and the hash |
| ProcessLifetime.World.ProcessGroupExists | ops/full-package-posix/process-lifetime.py:30-37 | a probe with an arbitrary answer, recorded in the log; it raises iff the id does not fit a C int |
| ProcessLifetime.World.SignalProcessGroup | ops/full-package-posix/process-lifetime.py:40-44 | a signal that may raise, recorded in the log |
| ProcessLifetime.ReadProcessGroups | ops/full-package-posix/process-lifetime.py:14-27 | the groups listed: exactly the numbers above one on some line; or it raises when the file cannot be read |
| ProcessLifetime.KeepsPromises | ops/full-package-posix/process-lifetime.py:30-78 | which events keep the promises of a log |
| ProcessLifetime.ProbeAll | ops/full-package-posix/process-lifetime.py:58-64 | one round of probes splits the known groups into active and retired ones, or ends in the first id that does not fit |
| ProcessLifetime.TerminateAll | ops/full-package-posix/process-lifetime.py:66-68 | each target is asked to terminate once |
| ProcessLifetime.KillAll | ops/full-package-posix/process-lifetime.py:76-78 | every group left is found dead or killed |
| ProcessLifetime.StopRound | ops/full-package-posix/process-lifetime.py:54-68 | one round keeps what a stop relies on, or ends in the first refusal or the first id that does not fit |
| ProcessLifetime.StopProcessGroups | ops/full-package-posix/process-lifetime.py:47-78 | no signal after a dead probe, SIGTERM once and to every group found alive, SIGKILL only after it, ids above one; early return means that every group it is responsible for was found dead; at the deadline survivors are killed; it raises iff it meets a refusal or is responsible for an id that fits no C int, and nothing happens after that; its events are punctual: until the clock shows ten seconds, rounds of reading, probing and asking, a tenth of a second apart, slept through only while some group answered in the round and every other is dead; from then on only probes, and kills directly behind an answered one |
| ProcessLifetime.PaceKept | ops/full-package-posix/process-lifetime.py:51-78 | a log that keeps the stages of a stop has every event in its place |
| ProcessLifetime.QuietStart | ops/full-package-posix/process-lifetime.py:106-121 | the promises of a stop are promises of the whole run of a watcher |
| ProcessLifetime.WatchListed | ops/full-package-posix/process-lifetime.py:109-114 | newly listed groups are known or retired by a probe, or the first id that does not fit raises |
| ProcessLifetime.WatchKnown | ops/full-package-posix/process-lifetime.py:115-118 | known groups found dead retire |
| ProcessLifetime.WatchParent | ops/full-package-posix/process-lifetime.py:102-127 | the same promises over a whole run, from the watcher's start through any number of rounds; it raises iff something is refused or a listed id fits no C int; before every sleep of a tenth of a second each listed group was found dead, or alive in this round |
| ProcessLifetime.StopRounds | ops/full-package-posix/process-lifetime.py:102-121 | the rounds of the stop are rounds of the whole run |
| ProcessLifetime.LargeIdListed | ops/full-package-posix/process-lifetime.py:14-27 | a pid file with one line makes the stop raise iff the id on it is beyond 2147483647 |
| LogRotation.RotatedReading | go-service/internal/diagnostics/diagnostics.go:155-169 | a rotation, however it ends, loses the oldest file at most and keeps the order of all other entries |
| LogRotation.RotatedShifts | go-service/internal/diagnostics/diagnostics.go:155-169 | a rotation succeeds iff nothing it has to move is refused, and then every file has moved up by one |
| LogRotation.WriteReading | go-service/internal/diagnostics/diagnostics.go:112-153 | after a write the files read as before, less the dropped oldest entries, plus the entry if appended |
| LogRotation.RoomKeepsAll | go-service/internal/diagnostics/diagnostics.go:129-135 | while the entry fits, or the log cannot be inspected, no file is rotated and nothing is dropped, whatever fails |
| LogRotation.WriteSucceedsIff | go-service/internal/diagnostics/diagnostics.go:112-153 | when a write fails, and what it makes of the files when nothing is refused |
| LogRotation.ReadingIsSuffixOfHistory | go-service/internal/diagnostics/diagnostics.go:112-169 | over any run with any faults, the files in order read as a suffix of the appended entries |
| LogRotation.WriteBoundedIff | go-service/internal/diagnostics/diagnostics.go:112-153 | a write keeps every file within the limit iff it does not get to append an entry without room that it could not check |
| LogRotation.RunBoundedIff | go-service/internal/diagnostics/diagnostics.go:112-169 | every state of a run is within the limit iff the first is and no call overfills the state it finds |
| LogRotation.RunBounded | go-service/internal/diagnostics/diagnostics.go:112-169 | from an empty directory, without such a call, every file stays within the limit, and all within four times the limit |
| LogRotation.FailedInspectionBreaksBound | go-service/internal/diagnostics/diagnostics.go:130-134 | a run with one failed inspection that breaks the bound |
| LogRotation.Writer.Rotate | go-service/internal/diagnostics/diagnostics.go:155-169 | the in-place renames compute the specified rotation |
| LogRotation.Writer.Write | go-service/internal/diagnostics/diagnostics.go:112-153 | in sizes and readings: the entry is the redacted text, cut to the limit; entries are dropped only from a log found full, and then those of the oldest file; the error shows iff something needed is refused; without a fault the entry is added, or starts a new file before which all have moved up |
| RateLimiter.RunKeepsInv | go-service/internal/concurrency/ratelimiter.go:29-41 | after every request the window, its count and the stretch before it obey the limit |
| RateLimiter.AtMostTwiceTheLimit | go-service/internal/concurrency/ratelimiter.go:29-41 | any half-open interval of one window holds at most twice the limit, and at most one request if the limit is below one |
| RateLimiter.OneRequestPasses | go-service/internal/concurrency/ratelimiter.go:34-39 | with a limit below one, the first request of a new window passes all the same |
| RateLimiter.WithinTwiceIff | go-service/internal/concurrency/ratelimiter.go:29-41 | no run exceeds twice the limit in an interval of one window exactly when the limit is at least one |
| RateLimiter.TwiceTheLimitHappens | go-service/internal/concurrency/ratelimiter.go:29-41 | for every limit of at least one, a run that reaches this bound |
| RateLimiter.RefusedIff | go-service/internal/concurrency/ratelimiter.go:29-41 | a request is refused iff it is inside the current window and that window has allowed the limit |
| RateLimiter.Limiter.IsAllowed | go-service/internal/concurrency/ratelimiter.go:29-41 | refused iff the request falls into the current window and the history shows that this window has allowed the limit; the fields stay faithful to the history, which never exceeds twice the limit in one window |
| RateLimiter.Limiter.Reset | go-service/internal/concurrency/ratelimiter.go:44-49 | after a reset the next request passes |
| SqlSplitter.PiecesConcat | go-service/cmd/mariadb-schema/main.go:501-527 | the raw pieces concatenate to the cleaned text |
| SqlLiterals.BalancedIff | go-service/cmd/mariadb-schema/main.go:501-520 | the quote flags are both down exactly behind text made of quote-free parts and whole literals |
| SqlLiterals.CutsIff | go-service/cmd/mariadb-schema/main.go:501-526 | a part ends behind a character iff it is a semicolon outside literals |
| SqlLiterals.LiteralUncut | go-service/cmd/mariadb-schema/main.go:505-520 | no literal is cut, whatever it holds and whatever surrounds it |
| SqlLiterals.OpenLiteral | go-service/cmd/mariadb-schema/main.go:515-518 | a literal that is not closed leaves the text open |
| SqlLiterals.QuotedIsOne | go-service/cmd/mariadb-schema/main.go:501-530 | a text whose semicolons are all inside literals is one statement |
| SqlLiterals.SkippedLinesIgnored | go-service/cmd/mariadb-schema/main.go:491-499 | blank lines and comment lines make no difference wherever they stand |
| SqlLiterals.MarkIgnored | go-service/cmd/mariadb-schema/main.go:493-493 | a byte-order mark at the start of a line makes no difference |
| SqlSplitter.StatementsOfPieces | go-service/cmd/mariadb-schema/main.go:501-527 | the statements are the trimmed, non-empty pieces without their semicolons |
| SqlSplitter.StatementsWellFormed | go-service/cmd/mariadb-schema/main.go:501-527 | no statement has an unquoted semicolon, is empty or untrimmed, and all but the last close their quotes |
| SqlPrinting.StatementsOfPrintIff | go-service/cmd/mariadb-schema/main.go:501-527 | without line cleaning, statements joined by semicolon and line break read back iff the list is of that form |
| SqlSplitter.CleanedIntact | go-service/cmd/mariadb-schema/main.go:490-499 | cleaning leaves a text alone when none of its lines is blank, a comment or starts with a byte-order mark |
| SqlPrinting.StatementsVisible | go-service/cmd/mariadb-schema/main.go:501-527 | splitting loses exactly one visible character per cut |
| SqlPrinting.CleanLinesVisible | go-service/cmd/mariadb-schema/main.go:491-499 | cleaning takes no visible character only if no line starts with a byte-order mark or is a comment |
| SqlPrinting.SplitInvertsPrintIff | go-service/cmd/mariadb-schema/main.go:490-531 | for every list: it comes back from joining and splitting iff it is well-formed and no line of it is blank, a comment, or starts with a byte-order mark |
| SqlLiterals.ReadsBackIff | go-service/cmd/mariadb-schema/main.go:490-531 | the same in terms of literals and lines alone |
| SqlPrinting.SplitAgainIff | go-service/cmd/mariadb-schema/main.go:490-531 | for every text: its statements survive joining and splitting again iff all their lines are such lines |
| SqlStatements.SplitCleaned | go-service/cmd/mariadb-schema/main.go:501-530 | the text falls into parts behind exactly the semicolons outside literals; the statements are the parts without these semicolons, trimmed and not empty |
| SqlStatements.SplitSQLStatements | go-service/cmd/mariadb-schema/main.go:490-531 | the whole method computes the specified split: statements that are trimmed and not empty, with semicolons inside literals only, and all literals closed but in the last |
| SqlPrinting.CommentBehindSemicolon | go-service/cmd/mariadb-schema/main.go:494-497 | a comment behind a semicolon becomes a statement, and is lost when printed and split again |
| ChatLogMigration.MigratedIff | go-service/cmd/mariadb-schema/main.go:544-546 | a row is deleted iff an earlier row agrees in session, turn, normalised role and trimmed content; of the others only the role changes |
| ChatLogMigration.ContentKept | go-service/cmd/mariadb-schema/main.go:544-546 | every row's trimmed content survives in its slot |
| ChatLogMigration.PreflightIff | go-service/cmd/mariadb-schema/main.go:588-606 | the preflight passes iff the unique index can be added after the two statements, column by column |
| ChatLogMigration.ColumnsDecide | go-service/cmd/mariadb-schema/main.go:547-606 | conflicts, uniqueness and shared slots in terms of the columns |
| ChatLogMigration.SurvivorsAreLowest | go-service/cmd/mariadb-schema/main.go:588-606 | after a passed preflight exactly the lowest id of every slot is left |
| ChatLogMigration.SecondRunChangesNothing | go-service/cmd/mariadb-schema/main.go:544-546 | migrating twice is migrating once |
| ChatLogMigration.ChatLogs.UpdateRoles | go-service/cmd/mariadb-schema/main.go:545-545 | normalises the roles, or fails without effect when that would break the unique index |
| ChatLogMigration.ChatLogs.DeleteDuplicates | go-service/cmd/mariadb-schema/main.go:546-546 | a row stays, unchanged, iff no earlier row has its index key and trimmed content; every key and content that was there is still there |
| ChatLogMigration.ChatLogs.AddUniqueIndex | go-service/cmd/mariadb-schema/main.go:547-547 | succeeds iff the rows are unique, and then the index holds |
| ChatLogMigration.ChatLogs.ApplyMigration | go-service/cmd/mariadb-schema/main.go:587-615 | a conflict stops it unchanged; exactly when it is done; then the index holds on the migrated table |
| ChatLogMigration.SecondSpellingFails | go-service/cmd/mariadb-schema/main.go:545-547 | with the index in place, a second spelling of a role passes the preflight and fails the update |

## Left out

- HTTP handlers, routing, event-stream framing, heartbeats, flag parsing, report printing, launchers and DDL text: plumbing.
- The row normalisers of the comparison and the text of hashed rows in the exporter: they are parameters, so what they equate is not stated.
- The sanitising of job requests, the `get` and `list` snapshots, and how a worker's result becomes a status: no effect on the protocol.
- Overflow of the 64-bit job revision and serial: counters are unbounded.
- Invalid UTF-8, unpaired surrogate escapes, and non-finite numbers: strings are scalar values and numbers are their printed tokens.
- How a number is rounded to float64: the rounding is a parameter that may identify numbers or find them out of range.
- Signals sent to the supervisor itself: a stop is ended only by its own calls.
- Maps and slices of other Go types than those the JSON decoder yields: the comparison sees only decoded trees.
- DuplicateKeys.Decoder.Token: which misplaced commas, colons and keys the JSON decoder refuses by itself, because the walk refuses such streams either way.
- The messages of diagnostics and their final sorting: the preview's contracts say when there is a diagnostic, not which comes first.
- PackInspection.PreviewZIP: the validators of the manifest besides the file list and the compatibility section are one flag of the manifest.
- AdminJobManager.Manager.UpdateJob: takes the statuses of this file, not arbitrary texts, because no caller passes another.
- AdminJobManager.Manager.FinishJob: as above.
- ZIP decompression and the read limit's effect on an oversized member: a member's content is what reading it would yield.
- Leading blanks and signs in a version core that the regular expression rejects: scanning reads digits only.
- Partial writes to the log, concurrent processes on its files, and console output: a file is a sequence of entries.
- The clock's monotonic reading and the overflow of durations in the limiter: time is an integer.
- What happens between two statements of the migration, and the order of row updates inside one: a statement is atomic.
- PackInspection.CheckMembers: states when a diagnostic is added, not which, because the codes only serve the reader of a report.
- PackInspection.ValidateFiles: as above, for the file list.
- ProcessLifetime.StopProcessGroups: a stop that raises promises nothing about the groups it had not reached.
