# sconce, verified

sconce is a private Composer repository: it archives git trees, mirrors upstream registries, stores
the resulting blobs under their digests, sells access through license keys, and serves it all from a
catalog in Postgres. This project models the parts of it that are algorithms or protocols, one Dafny
module per part, and proves what they promise.

| module | what it models |
|---|---|
| `Crc32`, `CrcDivision`, `PathOrder`, `ZipFormat`, `ZipArchive`, `ZipReader`, `EntryPath` | the canonical ZIP writer (PKWARE APPNOTE.TXT sections 4.3.7, 4.3.12 and 4.3.16), its checksum against polynomial division, its sort, and an independent reader as the specification |
| `GitExport` | which records of a git tree enter an archive |
| `CivilDate`, `AmzDate`, `UriEncoding` | the request signer's calendar, timestamps, percent-encoding and blob names |
| `RateLimiter` | the pruned, capped and swept sliding-window limiter, against a plain log |
| `Closure`, `ComposerSync` | the capped worklist over an unknown dependency graph; the sync loop over immutable versions |
| `LicenseBounds`, `LicenseIssue`, `LicenseRenewal` | update bounds and merging keys; issuing once per order; renewing once per order |
| `SlugHistory` | renames, deletions and redirects of organization and repository slugs |
| `BlobTables`, `BlobGc` | reference counts and snapshot retention; writers and the sweeper at work concurrently |
| `JobQueue`, `CompositeRepo`, `UpdatePolicy`, `UpstreamRequire`, `GitRemote` | the background queue, repositories made of members, update policy, and two text forms |
| `Options`, `Multisets`, `Folds`, `ByteValues`, `Text` | shared vocabulary |

Where the source changes state, a class holds that state and its methods are proved equal to functions
of the old state; the properties are then lemmas about those functions, over single steps and over whole
runs. One SQL statement or transaction is one step; separate statements are separate steps, and where
others may act in between, what they do is a parameter or an interleaved event. Clocks, digests, fetched
documents, random ids, set membership and calendar months are parameters. Instants and dates of the
catalog are integers in seconds.

Properties that do not hold as one would first state them, each with the exact condition under which
they do:

- Renewing a key has no guard against an unbounded key (`crates/sconce-catalog/src/lib.rs:6824`, unlike the
  edge renewal at 6894): an account key issued from a time edition gets a bound where it had none, and what it
  covers by undated edges ends (`LicenseRenewal.RenewalRisesIff`, `LicenseRenewal.RenewalKeepsEntitlements`,
  `LicenseRenewal.AccountKeyLosesPerpetual`). The endpoint's comment
  (`crates/sconce-server/src/api.rs:272-276`) promises an error for a key that is not time-bounded.
- Adding a second edition over the same set reports success and changes nothing
  (`LicenseIssue.AddReachesBoundIff`).
- Retired slugs stay out of use while checks and transactions interleave exactly as long as no transaction
  takes one that was retired after its check (`SlugHistory.InterleavedValidIff`).
- Timestamps sort as instants do before year 10000 only (`AmzDate.OrderPreservedIff`).
- The web forms' slug guards check the trimmed slug and create the raw one (`SlugHistory.FormGuardValidIff`,
  `SlugHistory.FormRepoGuardValidIff`).
- A retry is refused by the unique index when the same job was requested meanwhile, and the job stays
  running (`JobQueue.RefusedRetry`, `JobQueue.UnattendedStays`).
- A sweep that overlaps a writer between storing and recording a blob loses its bytes
  (`BlobGc.ReferencedBytesKept`, `BlobGc.OverlapLosesBytes`). The comments at `crates/sconce-catalog/src/lib.rs:3742-3744` and
  `crates/sconce/src/main.rs:2307-2310` have the object deleted before the row; the code below the latter
  deletes the row first, and the model follows the code.
- The rate limiter answers as a plain log of all attempts for limits of at most 64, one window of at most
  an hour per key, `at_limit` limits above zero, and keys that differ in their first 256 characters
  (`RateLimiter.RefinesLogIff`), when calls reach the mutex in the order of their clock readings; each of
  these is needed (`RateLimiter.CapIsExact`, `RateLimiter.MixedWindowsDiffer`,
  `RateLimiter.LongWindowsDiffer`, `RateLimiter.ZeroLimit`, `RateLimiter.CutKeysDiffer`,
  `RateLimiter.ClockBackwardsDiffers`).
- Stored versions are immutable exactly as long as git mirrors archive them the same again
  (`ComposerSync.HistoryKeepsIff`).
- Member order shows in an archive when two different members share a path (`ZipReader.OrderNeverShowsIff`),
  as two files of a git tree do when their names differ in a backslash for a slash
  (`GitExport.OrderNeverShowsIff`);
  entry paths normalize idempotently unless slashes hide a "./" (`EntryPath.NormalizeTwiceIff`), and spellings
  of git remotes unless a second ".git", "://" or white space comes to light (`GitRemote.FoldTwiceIff`).
- Overrides tighten, and the approval queue is complete, for the three modes the database admits
  (`UpdatePolicy.TightenOnlyIff`, `UpdatePolicy.PartitionIff`).
- Composition stays one level deep when checks and writes of different requests overlap exactly as long as the
  checks would still pass at the write (`CompositeRepo.WriteMembersKeepsIff`,
  `CompositeRepo.OverlappingTransactionsKeepIff`, `CompositeRepo.BlindInsertKeepsIff`).

## Model

| member | source | states |
|---|---|---|
| Crc32.ShiftByte | crates/sconce-archive/src/lib.rs:238-244 | eight shifts of the inner loop are the byte step of the polynomial |
| Crc32.Compute | crates/sconce-archive/src/lib.rs:233-247 | the nested loop computes the fold that starts from all ones and is inverted at the end |
| Crc32.FoldIsBits | crates/sconce-archive/src/lib.rs:233-247 | feeding bytes is feeding their bits, least significant first, through the shift register |
| CrcDivision.FeedIsDivision | crates/sconce-archive/src/lib.rs:238-244 | the register after any bits is the remainder of the message, the register added to its highest coefficients, divided by the generator of IEEE 802.3 |
| CrcDivision.ChecksumIsRemainder | crates/sconce-archive/src/lib.rs:233-247 | the checksum is the complement of the remainder of the message times x^32, its highest 32 coefficients complemented, divided by x^32+x^26+x^23+x^22+x^16+x^12+x^11+x^10+x^8+x^7+x^5+x^4+x^2+x+1 |
| CrcDivision.RegisterInjective | crates/sconce-archive/src/lib.rs:233-247 | coefficients determine the checksum, so this is all there is to say of its value |
| Crc32.BurstDetected | crates/sconce-archive/src/lib.rs:233-247 | any two messages of equal length whose differing bits lie within 32 consecutive bits have different checksums |
| Crc32.FourByteChangeDetected | crates/sconce-archive/src/lib.rs:233-247 | so have any two contents that differ only inside four consecutive bytes |
| PathOrder.SortIsOrdered | crates/sconce-archive/src/lib.rs:121-125 | sorting by path bytes yields ascending paths |
| PathOrder.SortIsPermutation | crates/sconce-archive/src/lib.rs:121-125 | and keeps exactly the given members |
| PathOrder.SortStable | crates/sconce-archive/src/lib.rs:121-125 | members with the same path keep their order of insertion |
| PathOrder.SortCanonical | crates/sconce-archive/src/lib.rs:121-125 | every arrangement of a collection sorts to the same sequence if and only if no two different members share a path |
| ZipFormat.LittleEndianRoundTrip | crates/sconce-archive/src/lib.rs:158-163 | a number that fits its width is read back from its little-endian bytes |
| ZipFormat.ReadBack | crates/sconce-archive/src/lib.rs:176-231 | reading the fields of a record where it stands gives back the values written |
| ZipFormat.JoinLands | crates/sconce-archive/src/lib.rs:127-137 | record `i` of a sequence stands at the total length of the records before it |
| ZipArchive.WriteFields | crates/sconce-archive/src/lib.rs:158-163 | appends the little-endian encoding of the fields |
| ZipArchive.WriteLocalHeader | crates/sconce-archive/src/lib.rs:176-194 | appends the local record of APPNOTE section 4.3.7 with path and content, or panics exactly when a field is too narrow |
| ZipArchive.WriteCentralHeader | crates/sconce-archive/src/lib.rs:196-219 | appends the central record of section 4.3.12 with the remembered offset, or panics exactly when a field is too narrow |
| ZipArchive.InsertByPath | crates/sconce-archive/src/lib.rs:121-125 | insertion from the right keeps equal paths in order |
| ZipArchive.SortByPath | crates/sconce-archive/src/lib.rs:121-125 | the in-place sort equals the specified stable sort |
| ZipArchive.WriteLocals | crates/sconce-archive/src/lib.rs:127-134 | the first loop lays out all local records and remembers where each starts, or fails only when something does not fit |
| ZipArchive.WriteCentrals | crates/sconce-archive/src/lib.rs:135-137 | the second loop writes one central record per member at the remembered offsets |
| ZipArchive.FitsIff | crates/sconce-archive/src/lib.rs:127-163 | what is too large: more than 65535 members or path bytes, or 4 GiB of content, local records or directory |
| ZipArchive.CanonicalArchive.constructor | crates/sconce-archive/src/lib.rs:93-97 | a new archive is empty |
| ZipArchive.CanonicalArchive.Add | crates/sconce-archive/src/lib.rs:99-102 | appends one member |
| ZipArchive.CanonicalArchive.IntoZip | crates/sconce-archive/src/lib.rs:120-153 | leaves the entries sorted and returns exactly the serialized archive, or panics exactly when a 16- or 32-bit field would overflow |
| ZipReader.HeadersAre | crates/sconce-archive/src/lib.rs:165-219 | every local and central header says, field by field, what the format asks for: signatures, versions, no flags, stored, 1980-01-01, checksum, sizes, Unix mode and offset |
| ZipReader.RoundTrip | crates/sconce-archive/src/lib.rs:120-153 | a reader going from the end record through the central directory to each local offset recovers path, mode and content of every member, in order |
| ZipReader.ReadsSorted | crates/sconce-archive/src/lib.rs:120-153 | what is read back are the added members, sorted by path, none lost or invented |
| ZipReader.ZipBytesInjective | crates/sconce-archive/src/lib.rs:120-153 | different member sequences never serialize to the same bytes |
| ZipReader.SameBytesSameMembers | crates/sconce-archive/src/lib.rs:115-153 | without duplicate paths, two archives have equal bytes exactly when their members are a permutation of each other |
| ZipReader.OrderNeverShowsIff | crates/sconce-archive/src/lib.rs:86-153 | insertion order never shows in the bytes if and only if no two different members share a path |
| ZipReader.DamagedArchive | crates/sconce-archive/src/lib.rs:120-153 | for an archive with one member's data written over, the reader rejects the whole archive if the checksums differ, and otherwise returns the members with that data changed |
| ZipReader.DamageIsDetected | crates/sconce-archive/src/lib.rs:233-247 | so it rejects an archive with damage to a member's data within 32 consecutive bits |
| EntryPath.NormalizeKeepsIffPlain | crates/sconce-archive/src/lib.rs:74-83 | an entry path is stored unchanged exactly when it has no backslash and no leading slash or "./" |
| EntryPath.NormalizeTwiceIff | crates/sconce-archive/src/lib.rs:74-83 | a stored path has no backslash and no leading slash; normalizing is idempotent exactly on the paths where, once backslashes are slashes and leading "./" are gone, no slashes with another "./" behind them are left |
| GitExport.HasIgnoredAncestor | crates/sconce-git/src/lib.rs:325-336 | true exactly when some ignored directory is an ancestor of the path |
| GitExport.ArchiveRecords | crates/sconce-git/src/lib.rs:171-218 | the record loop returns the first failure in order, or the entries selected by the directories seen so far |
| GitExport.SelectionIsExact | crates/sconce-git/src/lib.rs:165-218 | with directories listed before their contents the loop archives exactly the files and links that are neither ignored nor inside any ignored directory of the whole tree |
| GitExport.SelectedBySeenIsSelected | crates/sconce-git/src/lib.rs:165-190 | knowing only the directories seen so far decides each record as the whole tree would |
| GitExport.SelectedIsExported | crates/sconce-git/src/lib.rs:171-190 | a record is selected when it is a file or link, is not export-ignored, and no export-ignored directory stands above it |
| GitExport.ArchivedExactly | crates/sconce-git/src/lib.rs:171-218 | what is archived is one entry per such record, in order, with its normalised path, its permissions and its content |
| GitExport.FailsIff | crates/sconce-git/src/lib.rs:171-218 | the walk fails exactly when some record of the tree has unreadable attributes, or is selected and has a path that is not UTF-8 or no object |
| GitExport.SameTreeSameBytes | crates/sconce-git/src/lib.rs:159-220 | in whatever breadth-first order the records of a tree arrive, the walk fails in all orders or in none; if it does not, and archived entries with the same path are the same entry, it serializes to the same bytes |
| GitExport.OrderNeverShowsIff | crates/sconce-git/src/lib.rs:159-220 | for a tree that is archived and serializes, the order of its records never shows in the bytes if and only if archived entries with the same path are the same entry |
| GitExport.CleanTreeSameBytes | crates/sconce-git/src/lib.rs:159-220 | so it never shows for trees with no backslash in a name |
| CivilDate.Bracket | crates/sconce-cas/src/sigv4.rs:158-163 | the nested division finds the March-based year that contains the day of the era |
| CivilDate.NextCivilDay | crates/sconce-cas/src/sigv4.rs:158-169 | the date of day n+1 is the calendar successor, by the leap rule, of the date of day n, and both are dates |
| CivilDate.CivilIsCalendar | crates/sconce-cas/src/sigv4.rs:156-169 | for every day number the code gives the Gregorian date counted from 1970-01-01; all its subtractions stay non-negative |
| AmzDate.SixteenWide | crates/sconce-cas/src/sigv4.rs:142-154 | a timestamp is 16 characters wide exactly before year 10000 |
| AmzDate.FieldsRead | crates/sconce-cas/src/sigv4.rs:142-154 | each field of it, read where it stands, is that of the calendar date and the time of day, with T and Z in their places |
| AmzDate.OrderPreserved | crates/sconce-cas/src/sigv4.rs:142-154 | before year 10000 timestamps compare as the instants do, and the 8-character date scope agrees exactly within one UTC day |
| AmzDate.OrderPreservedIff | crates/sconce-cas/src/sigv4.rs:142-154 | the order of timestamps is that of the instants for all instants below a bound if and only if the bound is at most the first second of year 10000 |
| UriEncoding.UnreservedIff | crates/sconce-cas/src/sigv4.rs:126-131 | which characters pass: letters, digits and the four marks of RFC 3986 section 2.3 |
| UriEncoding.UriEncode | crates/sconce-cas/src/sigv4.rs:121-140 | the loop computes the percent-encoding of RFC 3986 section 2.1 |
| UriEncoding.EncodedRoundTrip | crates/sconce-cas/src/sigv4.rs:121-140 | decoding gives back every byte string |
| UriEncoding.EncodedIsSafe | crates/sconce-cas/src/sigv4.rs:121-140 | the result holds unreserved characters and escapes only |
| UriEncoding.ToHex | crates/sconce-cas/src/lib.rs:56-65 | the loop computes the lowercase hexadecimal name of a blob |
| UriEncoding.HexNameInjective | crates/sconce-cas/src/lib.rs:54-65 | different digests have different names |
| RateLimiter.Prune | crates/sconce-server/src/ratelimit.rs:138-145 | drops attempts from the front while they are outside the window |
| RateLimiter.ExpiredIff | crates/sconce-server/src/ratelimit.rs:138-145 | an attempt is outside when it is as old as the window is long; one in the future counts as made now |
| RateLimiter.RateLimiter.FromSetting | crates/sconce-server/src/ratelimit.rs:61-72 | off exactly for the trimmed, case-insensitive words off, false, 0, disabled, no; empty at first |
| RateLimiter.RateLimiter.Sweep | crates/sconce-server/src/ratelimit.rs:107-112 | leaves the swept table |
| RateLimiter.SweptMeans | crates/sconce-server/src/ratelimit.rs:107-112 | from 4096 keys on, exactly those with an attempt in the last hour remain, with all their attempts; below, all do |
| RateLimiter.RateLimiter.Hit | crates/sconce-server/src/ratelimit.rs:102-127 | the new table and the answer are the specified functions of the old table; disabled changes nothing |
| RateLimiter.RateLimiter.Allow | crates/sconce-server/src/ratelimit.rs:75-77 | admits exactly when fewer than max attempts remain after pruning, and records only admitted attempts |
| RateLimiter.RateLimiter.Record | crates/sconce-server/src/ratelimit.rs:96-98 | records unconditionally |
| RateLimiter.RateLimiter.AtLimit | crates/sconce-server/src/ratelimit.rs:82-93 | answers without recording |
| RateLimiter.CallSimulates | crates/sconce-server/src/ratelimit.rs:75-145 | one call answers as a log of shortened keys does and goes on standing for it |
| RateLimiter.RefinesLog | crates/sconce-server/src/ratelimit.rs:1-16 | over every run with non-decreasing times, one window per key of at most an hour, limits of at most 64 and keys that differ in their first 256 characters, every answer is that of a log that keeps every attempt of every key forever, despite pruning, cap, sweep and key truncation |
| RateLimiter.RefinesLogIff | crates/sconce-server/src/ratelimit.rs:147-149 | that holds for all runs over a set of keys if and only if no two keys of the set share their first 256 characters |
| RateLimiter.CutKeysDiffer | crates/sconce-server/src/ratelimit.rs:27-29 | for any two keys that do, an attempt of one is reported for the other |
| RateLimiter.NoWindowOverfull | crates/sconce-server/src/ratelimit.rs:1-16 | any max+1 admitted attempts of a limited key span at least the window |
| RateLimiter.MemoryPerKeyBounded | crates/sconce-server/src/ratelimit.rs:27-33 | after any calls at all, keys have at most 256 characters and 64 attempts |
| RateLimiter.OverCapNeverDenies | crates/sconce-server/src/ratelimit.rs:32-33 | a limit above 64 never denies |
| RateLimiter.CapIsExact | crates/sconce-server/src/ratelimit.rs:32-33 | and for every such limit there is a run on which the log denies what the limiter admits, so 64 is the exact bound |
| RateLimiter.ZeroLimit | crates/sconce-server/src/ratelimit.rs:82-93 | with a limit of zero `at_limit` reports, until there are 4096 calls, exactly the keys attempted before, and the log every key |
| RateLimiter.MixedWindowsDiffer | crates/sconce-server/src/ratelimit.rs:24-26 | any two different windows on one key break the refinement, whichever the key |
| RateLimiter.LongWindowsDiffer | crates/sconce-server/src/ratelimit.rs:24-26 | so does any window of more than an hour |
| RateLimiter.ClockBackwardsDiffers | crates/sconce-server/src/ratelimit.rs:75-98 | so do two attempts of one key that reach the mutex in the opposite order of their clock readings, for every two readings |
| Closure.Probe | crates/sconce-mirror/src/lib.rs:695-702 | the first upstream in order that has the name |
| Closure.StatusMeaning | crates/sconce-mirror/src/lib.rs:646-709 | private wins: the status says exactly whether a private, only a public, or no composer upstream has the name |
| Closure.ExpandsLastVersion | crates/sconce-mirror/src/lib.rs:691-790 | a name is resolved by the first upstream in listing order that has it, private ones before public ones, is listed with that upstream, and is expanded into the packages its last listed version requires, in their order |
| Closure.FirstOfferExists | crates/sconce-mirror/src/lib.rs:668-702 | there is exactly one such upstream whenever any has the name |
| Closure.PackagesConcat | crates/sconce-mirror/src/lib.rs:724-728 | picking the packages among names keeps order and multiplicity |
| Closure.PackagesOfOne | crates/sconce-mirror/src/lib.rs:724-728 | a name is a package exactly when it has a slash |
| Closure.Enqueue | crates/sconce-mirror/src/lib.rs:711-716 | appends a request for each required package, platform names left out |
| Closure.Seed | crates/sconce-mirror/src/lib.rs:675-681 | the initial worklist covers the direct requirements |
| Closure.Expand | crates/sconce-mirror/src/lib.rs:691-720 | classifies one name and enqueues the requirements of its latest version |
| Closure.ResolveClosure | crates/sconce-mirror/src/lib.rs:652-722 | terminates on any graph; lists each name once, rightly classified, at most 2000 of them, in non-decreasing distance, each required by a package of the repository or by an earlier entry one step nearer; a name left out is no nearer than any listed one; below the cap exactly the reachable names are listed |
| Closure.HeadDistance | crates/sconce-mirror/src/lib.rs:683-687 | the head of the worklist, when new, is at its shortest distance |
| Closure.CompleteBelowCap | crates/sconce-mirror/src/lib.rs:652-722 | below the cap a name is listed exactly when it is reachable |
| ComposerSync.Package.InsertOnce | crates/sconce-catalog/src/lib.rs:4568-4621 | inserts unless present; otherwise tells identical bytes from different ones and changes nothing |
| ComposerSync.Package.Backfill | crates/sconce-catalog/src/lib.rs:4513-4533 | fills in a missing path, never overwrites one |
| ComposerSync.Package.SyncOne | crates/sconce-mirror/src/lib.rs:476-604 | one listed version: its fate, the rows, the downloads and the report |
| ComposerSync.Package.Sync | crates/sconce-mirror/src/lib.rs:443-606 | the loop ends at the first version that fails, with that error, or reports the fate of every version |
| ComposerSync.SyncKeeps | crates/sconce-mirror/src/lib.rs:468-606 | a sync that ends anywhere, with others inserting at any point, keeps every stored version: bytes, digests, reference, and a recorded path |
| ComposerSync.HistoryKeeps | crates/sconce-catalog/src/lib.rs:4440-4621 | however publishes, git mirrors that archive the same again, and the versions of any number of syncs interleave, a stored version never changes its bytes and never goes away |
| ComposerSync.HistoryKeepsIff | crates/sconce-catalog/src/lib.rs:4393-4440 | over any such interleaving, git mirrors within running syncs included, that is so if and only if every version a git mirror archives again has the digests and reference of the row it meets |
| ComposerSync.SyncIsHistory | crates/sconce-mirror/src/lib.rs:443-606 | a sync with racing inserts leaves the rows of such a history |
| ComposerSync.DecisionIsRaceFree | crates/sconce-catalog/src/lib.rs:4568-4621 | what others insert between the insert and the comparison does not change the outcome |
| ComposerSync.RelativePathIff | crates/sconce-mirror/src/lib.rs:606-620 | a recorded path is what stands in the dist URL between the base with a slash and a query or fragment |
| ComposerSync.StoredConflictIff | crates/sconce-mirror/src/lib.rs:622-644 | a stored version is a conflict exactly when its listed checksum differs, or without one its reference does, and for which of the two reasons |
| ComposerSync.StoredRowAfter | crates/sconce-mirror/src/lib.rs:520-536 | a listed version changes the row of a stored one by filling in a path, under exactly these conditions |
| ComposerSync.NewVersionFate | crates/sconce-mirror/src/lib.rs:538-604 | a version that is not stored is downloaded, checked, and mirrored unless it came to be there meanwhile; which error, count or conflict each case gives |
| ComposerSync.SkippedIff | crates/sconce-mirror/src/lib.rs:494-518 | exactly the versions without a dist and those below the floor are skipped, and for which reason |
| ComposerSync.ConflictsListed | crates/sconce-mirror/src/lib.rs:472-606 | the report lists exactly the conflicts, with package, version and reason |
| ComposerSync.SkippedListed | crates/sconce-mirror/src/lib.rs:472-606 | exactly the skipped versions |
| ComposerSync.MirroredListed | crates/sconce-mirror/src/lib.rs:472-606 | and exactly the mirrored ones |
| ComposerSync.StoredConflictReported | crates/sconce-mirror/src/lib.rs:520-536 | so a moved dist of a stored version is in the report of the sync |
| ComposerSync.ReportPartitions | crates/sconce-mirror/src/lib.rs:472-606 | mirrored, skipped, unchanged and conflicts together count every listed version once |
| ComposerSync.MirroredThenUnchanged | crates/sconce-mirror/src/lib.rs:526-604 | a version the first sync mirrored is unchanged in the next |
| ComposerSync.RepeatIsIdle | crates/sconce-mirror/src/lib.rs:465-606 | after a successful sync, repeating it downloads nothing and inserts nothing, whatever others stored and the upstream serves by then, and succeeds unless the catalog fails |
| ComposerSync.SameBlobSameBytes | crates/sconce-catalog/src/lib.rs:741-753 | with a collision-free digest "already published" means the very same bytes |
| ComposerSync.UpsertKeepsIff | crates/sconce-catalog/src/lib.rs:4395-4440 | the git upsert keeps what is stored exactly when the version is new or has the same digests and reference |
| LicenseBounds.JoinAllPerAxis | crates/sconce-catalog/src/lib.rs:5976-5982 | the join of the covering edges is, per axis, unbounded as soon as one edge is, else the greatest value among them |
| LicenseBounds.MergeEdges | crates/sconce-catalog/src/lib.rs:6667-6713 | copying edge by edge with conflict resolution computes the merged table |
| LicenseBounds.LicenseTables.MergeKeys | crates/sconce-catalog/src/lib.rs:6625-6720 | outcome and new tables of the transaction, for every combination of missing, revoked, bounded and equal keys |
| LicenseBounds.MergeJoins | crates/sconce-catalog/src/lib.rs:6608-6720 | after merging, the target's effective bound for every package name and any set membership is the per-axis join of both keys' effective bounds before |
| LicenseBounds.MergeLeavesOthers | crates/sconce-catalog/src/lib.rs:6625-6720 | every other key keeps its effective bounds; of the keys only the source changes, by being revoked |
| LicenseBounds.MergesCommute | crates/sconce-catalog/src/lib.rs:6625-6720 | folding two sources into one target in either order gives the same tables |
| LicenseBounds.MergeOnlyOnce | crates/sconce-catalog/src/lib.rs:6637-6645 | merging a merged source again finds no source |
| LicenseBounds.MergeKeepsVisible | crates/sconce-catalog/src/lib.rs:7686-7691 | every version visible under either key is visible under the merged one |
| LicenseBounds.JoinIsUnionIffComparable | crates/sconce-catalog/src/lib.rs:6608-6624 | the merged bound lets through exactly the union of what both did if and only if one bound is within the other |
| LicenseIssue.LicenseDesk.Find | crates/sconce-catalog/src/lib.rs:6761-6776 | finds a key of the order if there is one |
| LicenseIssue.LicenseDesk.Attach | crates/sconce-catalog/src/lib.rs:6455-6511 | freezes the members or refers to the set, leaving existing edges alone |
| LicenseIssue.LicenseDesk.Issue | crates/sconce-catalog/src/lib.rs:6353-6447 | returns the order's existing key; or nothing for an edition not on sale; or, the insert race lost, what the second lookup finds; or creates a key with its edges; with other requests at work before the insert and before the second lookup |
| LicenseIssue.LicenseDesk.AddEdition | crates/sconce-catalog/src/lib.rs:6532-6575 | outcome and new tables |
| LicenseIssue.IssuedMeans | crates/sconce-catalog/src/lib.rs:6333-6447 | issuing by reference entitles to what the set holds later, frozen to what it held then; with the bound on the key or on the edges, under exactly the edition's bound |
| LicenseIssue.NothingChangedYet | crates/sconce-catalog/src/lib.rs:6455-6487 | at the time of issuing the two are the same |
| LicenseIssue.TemplateShows | crates/sconce-catalog/src/lib.rs:6380-6392 | a perpetual edition bounds nothing, a time edition the date, a version edition the major version |
| LicenseIssue.IssuedShows | crates/sconce-catalog/src/lib.rs:6333-6447 | in versions: the buyer sees exactly those of the edition's packages that editions of its kind let through |
| LicenseIssue.AddedShows | crates/sconce-catalog/src/lib.rs:6513-6575 | the same for a first edition added to a key, besides what the key showed before |
| LicenseIssue.AddOutcomes | crates/sconce-catalog/src/lib.rs:6532-6560 | which of the four outcomes, by key, edition, bound and frozen members |
| LicenseIssue.AddJoins | crates/sconce-catalog/src/lib.rs:6513-6575 | a first edition on a set joins its bound into what the key entitles to, and changes no other key |
| LicenseIssue.AddReachesBoundIff | crates/sconce-catalog/src/lib.rs:6528-6531 | for each package of the set, the buyer is entitled to an added edition's bound exactly when the set had no edge yet, or the key entitled to that bound before |
| LicenseIssue.PerpetualAfterAnnualIsIgnored | crates/sconce-catalog/src/lib.rs:6490-6508 | a perpetual edition added after an annual one on the same set is reported as added and gains nothing |
| LicenseIssue.RunConsistent | crates/sconce-catalog/src/lib.rs:6353-6447 | the invariant linking keys, orders and answers holds in every reachable state |
| LicenseIssue.OneLicensePerOrder | crates/sconce-catalog/src/lib.rs:6353-6447 | in every interleaving, the calls for one (repository, edition, order) that return a license return the same one, and at most one created it |
| LicenseIssue.OneCreatorPerOrder | crates/sconce-catalog/src/lib.rs:6353-6447 | for each order a key was issued for, exactly one call was told it created the key |
| LicenseIssue.RaceHappens | crates/sconce-catalog/src/lib.rs:6398-6420 | for every order a run leads there: two calls race, one creates, the other is given the same key |
| LicenseIssue.OrdersAreUnique | crates/sconce-catalog/migrations/0041_edition_integrity.sql:26-34 | an order never has two keys, and a call that lost the race finds the winner's unless the edition was deleted |
| LicenseRenewal.RenewalDesk.Extend | crates/sconce-catalog/src/lib.rs:6824-6903 | extends the bound of a renewable key or edge from the later of bound and now, else changes nothing |
| LicenseRenewal.RenewalDesk.Renew | crates/sconce-catalog/src/lib.rs:6843-6968 | ledger, tables and reported bound of one renewal |
| LicenseRenewal.OrderTakesEffectOnce | crates/sconce-catalog/src/lib.rs:6838-6887 | over any history a (license, order) takes effect at most once, whichever bound the renewals are for and even if the first found nothing to extend |
| LicenseRenewal.KeyRenewalMeans | crates/sconce-catalog/src/lib.rs:6824-6887 | the key's new date and all else unchanged, if the key is active, its edition is for a time and the order is new; otherwise nothing changes |
| LicenseRenewal.EdgeRenewalMeans | crates/sconce-catalog/src/lib.rs:6894-6968 | the same for a dated edge of an edition of the repository |
| LicenseRenewal.LedgerRecords | crates/sconce-catalog/src/lib.rs:6849-6864 | the order is recorded whenever the key is the repository's |
| LicenseRenewal.RenewalsCarry | crates/sconce-catalog/src/lib.rs:6824-6968 | any number of renewals of one key or one edge carry its date forward once per order, each from the later of the date so far and its own time |
| LicenseRenewal.RenewalsStack | crates/sconce-catalog/src/lib.rs:6832-6836 | when none is late, each adds one period |
| LicenseRenewal.LateRestarts | crates/sconce-catalog/src/lib.rs:6832-6836 | a late one restarts from its own time |
| LicenseRenewal.RenewalRisesIff | crates/sconce-catalog/src/lib.rs:6824-6830 | a renewal lowers no bound of any key or edge if and only if it is not a key renewal that hits an unbounded key |
| LicenseRenewal.RenewalKeepsEntitlements | crates/sconce-catalog/src/lib.rs:6824-6968 | a renewal takes no version of any package from any buyer if and only if it does not hit an unbounded key, or no undated edge of that key covers any package |
| LicenseRenewal.RunKeepsEntitlements | crates/sconce-catalog/src/lib.rs:6824-6968 | no run of such renewals does |
| LicenseRenewal.UnboundedKeyIsCut | crates/sconce-catalog/src/lib.rs:6824-6830 | renewing an unbounded key cuts off, at a date, every package that an undated edge of it covers, whatever dated edges it has besides |
| LicenseRenewal.AccountKeyLosesPerpetual | crates/sconce-catalog/src/lib.rs:6490-6830 | an account key issued for an annual edition, given a perpetual edition on another set, and renewed: the perpetual purchase now ends |
| SlugHistory.SlugTables.CreateOrg | crates/sconce-catalog/src/lib.rs:1585-1595 | guarded creation: refused exactly for retired slugs, a no-op for live ones |
| SlugHistory.SlugTables.CreateRepo | crates/sconce-catalog/src/lib.rs:1599-1612 | guarded creation within a live organization |
| SlugHistory.SlugTables.RenameOrg | crates/sconce-catalog/src/lib.rs:1771-1814 | the new slug is trimmed; refused as invalid, taken or retired; otherwise the old slug goes into the history |
| SlugHistory.SlugTables.RenameRepo | crates/sconce-catalog/src/lib.rs:1850-1897 | the same within an organization |
| SlugHistory.SlugTables.DeleteRepo | crates/sconce-catalog/src/lib.rs:1822-1847 | the repository goes and its slug is retired |
| SlugHistory.SlugTables.ResolveCanonical | crates/sconce-catalog/src/lib.rs:1634-1689 | live slugs first, then the history, at both levels |
| SlugHistory.StepValid | crates/sconce-catalog/migrations/0027_slug_history.sql:1-11 | every guarded operation keeps live and retired slugs disjoint and forgets no binding |
| SlugHistory.CanonicalPairIsDirect | crates/sconce-catalog/src/lib.rs:1629-1633 | the canonical pair leads to the same repository with `moved` false, and `moved` is true exactly when it differs from the requested pair |
| SlugHistory.UrlsKeepTheirMeaning | crates/sconce-catalog/migrations/0027_slug_history.sql:1-11 | over every run a slug pair that resolved to a repository resolves to it as long as it exists, and to nothing ever after |
| SlugHistory.DeletedForever | crates/sconce-catalog/src/lib.rs:1816-1821 | a deleted repository never comes back |
| SlugHistory.CreateOrgValidIff | crates/sconce-catalog/src/lib.rs:1585-1595 | unguarded creation keeps the invariant exactly when the slug is not retired at the insert |
| SlugHistory.CreateRepoValidIff | crates/sconce-catalog/src/lib.rs:1599-1612 | the same for repositories |
| SlugHistory.FormGuardValidIff | crates/sconce-server/src/ui.rs:2697-2722 | the web form, which checks the trimmed slug and creates the raw one, keeps the invariant exactly when it refuses or the raw slug is not retired; always for trimmed slugs |
| SlugHistory.FormGuardMisses | crates/sconce-server/src/ui.rs:2697-2722 | a retired slug with outer white space passes the form, and the links through it stop resolving |
| SlugHistory.FormGuardMissHappens | crates/sconce-server/src/ui.rs:2697-2722 | from the empty catalog a run of the form and one rename leads there, for every slug with outer white space |
| SlugHistory.FormRepoGuardValidIff | crates/sconce-server/src/ui.rs:2730-2768 | the form that creates repositories keeps the invariant exactly when it refuses or the raw slug is not retired in the organization; always for trimmed slugs |
| SlugHistory.FormRepoGuardMisses | crates/sconce-server/src/ui.rs:2747-2763 | a retired repository slug with outer white space passes the form, and the links through it lead to the new repository |
| SlugHistory.FormRepoGuardMissHappens | crates/sconce-server/src/ui.rs:2730-2768 | from the empty catalog a run leads there, for every slug with outer white space |
| SlugHistory.CommitRenameValidIff | crates/sconce-catalog/src/lib.rs:1771-1814 | when others act between the checks and the transaction, a stale slug makes it fail, and what commits keeps the invariant exactly when the new slug was not retired meanwhile |
| SlugHistory.CommitRenameRepoValidIff | crates/sconce-catalog/src/lib.rs:1850-1897 | the same for repositories |
| SlugHistory.CommitDeleteKeeps | crates/sconce-catalog/src/lib.rs:1822-1847 | a delete that commits is the delete of the repository as it is by then |
| SlugHistory.InterleavedValidIff | crates/sconce-catalog/src/lib.rs:1585-1897 | however checks and transactions of any number of requests interleave, the invariant holds at every moment if and only if no transaction takes a slug retired by then |
| SlugHistory.InterleavedUrlsKeepTheirMeaning | crates/sconce-catalog/migrations/0027_slug_history.sql:1-11 | and in such runs slug pairs keep leading where they led |
| BlobTables.BlobCatalog.UpsertBlob | crates/sconce-catalog/src/lib.rs:3705-3716 | records or freshens a row, leaving the count alone |
| BlobTables.BlobCatalog.OrphanBlobs | crates/sconce-catalog/src/lib.rs:3745-3757 | exactly the rows with count zero unseen for longer than the grace |
| BlobTables.BlobCatalog.DeleteBlobIfOrphan | crates/sconce-catalog/src/lib.rs:3765-3782 | deletes exactly under the re-checked guard |
| BlobTables.BlobCatalog.PutVersion | crates/sconce-catalog/migrations/0036_blob_refcount_gc.sql:34-60 | inserting or repointing a version adjusts both counts; a missing row is refused |
| BlobTables.BlobCatalog.CreateSnapshot | crates/sconce-catalog/src/lib.rs:7296-7318 | inserts and counts; a missing row is refused |
| BlobTables.BlobCatalog.AdvanceLatest | crates/sconce-catalog/src/lib.rs:7322-7342 | moves the pointer to an existing snapshot |
| BlobTables.BlobCatalog.RegisterSnapshot | crates/sconce-server/src/snapshots.rs:175-192 | with others at work between its three statements: the outcome and the tables in each case, counts exact and every pointer on a snapshot of its own variant |
| BlobTables.RegistrationSteps | crates/sconce-server/src/snapshots.rs:175-192 | each of the three statements keeps counts and pointers |
| BlobTables.BlobCatalog.PruneSnapshots | crates/sconce-catalog/src/lib.rs:7418-7445 | removes exactly all but the newest `keep` and the pointer's target, and reports how many |
| BlobTables.NewestOf | crates/sconce-catalog/src/lib.rs:7433-7436 | the `limit` newest by creation time and sequence |
| BlobTables.NewestUnique | crates/sconce-catalog/migrations/0050_snapshot_seq.sql:1-8 | there is exactly one such set |
| BlobTables.WithVersionCounted | crates/sconce-catalog/migrations/0036_blob_refcount_gc.sql:28-60 | every count stays the number of referring versions and snapshots when a version is inserted or repointed |
| BlobTables.WithoutVersionsCounted | crates/sconce-catalog/migrations/0036_blob_refcount_gc.sql:1-9 | also under deletion and cascades |
| BlobTables.WithSnapshotCounted | crates/sconce-catalog/migrations/0045_snapshots.sql:38-58 | also when a snapshot is inserted |
| BlobTables.WithoutSnapshotsCounted | crates/sconce-catalog/migrations/0045_snapshots.sql:38-58 | also when snapshots are deleted |
| BlobTables.OrphanDeletionCounted | crates/sconce-catalog/src/lib.rs:3759-3764 | the guard lets go only of rows nothing refers to |
| BlobTables.PruneKeepsPointers | crates/sconce-catalog/src/lib.rs:7413-7417 | retention keeps every pointer and its target and touches no other variant |
| BlobTables.PruneKeepsNewest | crates/sconce-catalog/src/lib.rs:7413-7417 | of the variant exactly the newest `keep` and the pointer's target remain |
| BlobGc.FsBlobStore.Put | crates/sconce-cas/src/lib.rs:209-237 | put-if-absent under the digest; an I/O error changes no blob |
| BlobGc.FsBlobStore.Get | crates/sconce-cas/src/lib.rs:244-250 | the stored bytes, or nothing |
| BlobGc.FsBlobStore.Delete | crates/sconce-cas/src/lib.rs:252-260 | idempotent removal |
| BlobGc.PutThenGet | crates/sconce-cas/src/lib.rs:85-96 | with a collision-free digest the store gives back exactly what was put |
| BlobGc.CollectGarbage | crates/sconce/src/main.rs:2307-2328 | with others at work before each deletion: goes once through exactly the orphans of the scan, removes those that are still orphans when their turn comes, with their objects unless these cannot be deleted, and counts the freed and the skipped |
| BlobGc.SweepIsSafe | crates/sconce/src/main.rs:2307-2320 | whatever others do in between, a row goes only when nothing refers to it then, and counts stay exact |
| BlobGc.QuietSweep | crates/sconce/src/main.rs:2307-2328 | with nobody else at work every orphan of the scan goes |
| BlobGc.AlwaysCounted | crates/sconce-catalog/src/lib.rs:3745-3782 | in every interleaving of writers and sweeps counts are exact, referenced blobs have rows, and no sweep deletes a referenced row |
| BlobGc.ReferencedBytesKept | crates/sconce-cas/src/lib.rs:209-260 | referenced blobs keep their bytes over every interleaving in which no collection of a blob overlaps a writer's span from storing to recording it |
| BlobGc.ReferenceInTimeSucceeds | crates/sconce-catalog/src/lib.rs:3698-3704 | a reference made within the grace of recording the blob is never refused, if every sweep leaves at least that grace |
| BlobGc.OverlapLosesBytes | crates/sconce-cas/src/lib.rs:213-216 | from any state with such an overlap, three steps lead to a referenced blob without bytes |
| BlobGc.OverlapHappens | crates/sconce-cas/src/lib.rs:213-216 | and any orphan past its grace that is put again can run into it |
| BlobGc.LossHappens | crates/sconce-cas/src/lib.rs:213-216 | from the empty store a run leads to a referenced blob without bytes, for every blob, grace and version |
| BlobGc.UploadMovesLatest | crates/sconce-catalog/src/lib.rs:7296-7342 | undisturbed, an upload counts the blob, keeps the snapshot and moves the pointer to it |
| BlobGc.AdvanceMeans | crates/sconce-catalog/src/lib.rs:7322-7342 | the pointer moves to the snapshot if it is still there |
| BlobGc.CollectionTakes | crates/sconce/src/main.rs:2307-2328 | a collection takes row and bytes of the orphan and nothing else |
| BlobGc.DropsTake | crates/sconce-catalog/migrations/0045_snapshots.sql:1-58 | deletions take what they name, pointers to it included |
| BlobGc.LatestResolves | crates/sconce-catalog/src/lib.rs:7322-7445 | in every interleaving of uploads, retention and sweeps each "latest" pointer leads to a snapshot of its own variant, and a variant keeps its pointer until the snapshot it leads to is itself deleted |
| JobQueue.SameSlotIff | crates/sconce-catalog/migrations/0018_generalize_jobs.sql:13-22 | two keys are the same job when kind, upstream and repository agree and the packages do or are both blank |
| JobQueue.JobTable.Enqueue | crates/sconce-catalog/src/lib.rs:5304-5327 | creates a job exactly when no pending one has the same key, and when it returns one is pending |
| JobQueue.JobTable.Claim | crates/sconce-catalog/src/lib.rs:5332-5365 | claims an eligible job with the earliest time, if there is any, and counts the attempt |
| JobQueue.JobTable.Retry | crates/sconce-catalog/src/lib.rs:5380-5397 | reschedules, refused by the unique index exactly when another job with the key is pending; a row that is gone is no error |
| JobQueue.JobTable.Finish | crates/sconce-catalog/src/lib.rs:5368-5410 | sets the final status of that job only |
| JobQueue.JobTable.CancelPending | crates/sconce-catalog/src/lib.rs:4353-4361 | deletes exactly the pending jobs of the archived package |
| JobQueue.JobTable.Cascade | crates/sconce-catalog/migrations/0015_mirror_jobs.sql:5-9 | leaves the table without the jobs of the deleted upstreams and repositories |
| JobQueue.BackoffHolds | crates/sconce-catalog/src/lib.rs:5380-5397 | a retried job is eligible when the backoff has passed and not before |
| JobQueue.FinishedIsFinal | crates/sconce-catalog/src/lib.rs:5368-5410 | a finished job has that status and is not eligible again |
| JobQueue.ArchivedExactly | crates/sconce-catalog/src/lib.rs:4353-4361 | archiving takes exactly the pending mirror jobs of the package at the given upstreams |
| JobQueue.CascadedExactly | crates/sconce-catalog/migrations/0015_mirror_jobs.sql:5-9 | deletion takes exactly the jobs that name a deleted upstream or repository |
| JobQueue.WorkerEnds | crates/sconce/src/main.rs:2515-2560 | how a worker's job ends: ready, failed, pending again after the backoff, or abandoned |
| JobQueue.TimePasses | crates/sconce-catalog/src/lib.rs:5332-5350 | the clock moves and nothing else does |
| JobQueue.AlwaysSound | crates/sconce-catalog/migrations/0018_generalize_jobs.sql:13-22 | in every interleaving, deletions of upstreams and repositories included, at most one pending job per key, no two workers on one job, and `attempts` counts claims |
| JobQueue.RequestIsNotLost | crates/sconce-catalog/src/lib.rs:5302-5327 | from the enqueueing call on, a request is pending until a worker claims it, archiving cancels it or it goes with its upstream or repository |
| JobQueue.RefusedRetry | crates/sconce-catalog/src/lib.rs:5380-5397 | a retry leaves the job pending exactly without a pending twin; refused, the job stays running and the worker is gone, while the twin carries the request |
| JobQueue.RefusedRetryHappens | crates/sconce-catalog/src/lib.rs:5302-5397 | from the empty queue three events lead there, for every key, worker and backoff |
| JobQueue.UnattendedStays | crates/sconce/src/main.rs:2540-2555 | over any run a job that is finished, or running with no worker, stays exactly as it is, unless its upstream or repository is deleted |
| CompositeRepo.RepoTables.SetMembers | crates/sconce-catalog/src/lib.rs:4833-4905 | the first failing check in order, or the new member list |
| CompositeRepo.RepoTables.UpsertPackage | crates/sconce-catalog/src/lib.rs:3984-4027 | each of the four statements decides by the tables it finds |
| CompositeRepo.UpsertErrorMeans | crates/sconce-catalog/src/lib.rs:3992-4010 | an existing package is refused when private, by declaration or else by the caller, in a repository for public ones; or when the repository has members or is gone |
| CompositeRepo.NewPackageErrorMeans | crates/sconce-catalog/src/lib.rs:3992-4010 | the same for a new one, by the caller's word |
| CompositeRepo.InsertsMeans | crates/sconce-catalog/src/lib.rs:4009-4027 | the insert leaves one row of that name, a declared visibility as it was and otherwise the caller's, and nothing else changed |
| CompositeRepo.DeletedExactly | crates/sconce-catalog/migrations/0060_repo_members.sql:1-21 | deleting a repository takes exactly its packages and its places in member lists |
| CompositeRepo.SetMembersKeeps | crates/sconce-catalog/src/lib.rs:4828-4832 | setting members keeps composition one level deep |
| CompositeRepo.AlwaysOneLevel | crates/sconce-catalog/migrations/0060_repo_members.sql:1-11 | over every serialized run a repository with members owns no packages and is nobody's member; members are distinct and of its organization |
| CompositeRepo.WriteMembersKeepsIff | crates/sconce-catalog/src/lib.rs:4838-4905 | whatever was checked before, writing a member list keeps composition one level deep if and only if the checks would pass at the write |
| CompositeRepo.OverlappingTransactionsKeepIff | crates/sconce-catalog/src/lib.rs:4838-4905 | two transactions on different repositories that check before either writes keep it if and only if neither makes the other's repository, when it gets members, one of its own |
| CompositeRepo.OverlapHappens | crates/sconce-catalog/src/lib.rs:4838-4905 | from the empty tables, any two new repositories of an organization can come to be members of each other |
| CompositeRepo.BlindInsertKeepsIff | crates/sconce-catalog/src/lib.rs:4009-4027 | the insert of a package, whatever was checked before, keeps it if and only if the repository has no members then |
| CompositeRepo.ServedFromOnePlace | crates/sconce-catalog/src/lib.rs:1520-1530 | without grants, a repository serves at most one package under a name: its own, or that of the earliest member owning the name |
| CompositeRepo.FirstOwnerIsServed | crates/sconce-catalog/src/lib.rs:8023-8035 | the earliest owner's package is served unless it is private in a public-only repository |
| UpdatePolicy.EffectiveMeans | crates/sconce-catalog/src/lib.rs:1386-1411 | the stricter mode, a bare cooldown counting as a delay, and the longer cooldown |
| UpdatePolicy.OrderDoesNotMatter | crates/sconce-catalog/src/lib.rs:1393-1411 | folding any rearrangement of a list of overrides gives the same policy |
| UpdatePolicy.AllTighten | crates/sconce-catalog/src/lib.rs:1387-1392 | under any overrides only versions the repository serves are served |
| UpdatePolicy.TightenOnlyIff | crates/sconce-catalog/src/lib.rs:1393-1411 | that holds for all overrides if and only if the repository's mode is auto, delayed or manual |
| UpdatePolicy.PartitionIff | crates/sconce-catalog/src/lib.rs:1491-1506 | every version is exactly one of withdrawn, served and pending if and only if the mode is one of these three |
| UpstreamRequire.ParseIsCanonical | crates/sconce-catalog/src/lib.rs:593-624 | every parsed entry is canonical |
| UpstreamRequire.RoundTripIff | crates/sconce-catalog/src/lib.rs:626-641 | printing and parsing an entry gives it back if and only if it is canonical |
| UpstreamRequire.ParsePrintParse | crates/sconce-catalog/src/lib.rs:589-641 | the printed form of whatever a text parses to parses to the same entry |
| Text.WhiteIff | crates/sconce-catalog/src/lib.rs:469 | what trimming removes at the ends: the 25 characters of White_Space |
| Text.LowerCharIff | crates/sconce-catalog/src/lib.rs:469 | what lower case changes: the 26 ASCII capitals |
| GitRemote.NormalizeGitRemote | crates/sconce-catalog/src/lib.rs:468-502 | the in-place rewriting equals the staged function |
| GitRemote.PortIff | crates/sconce-catalog/src/lib.rs:484-496 | a colon is before a port exactly when at least one decimal digit and nothing else follows up to a slash or the end |
| GitRemote.SpellingsFold | crates/sconce-catalog/src/lib.rs:451-502 | every spelling of a remote without separator clashes, as URL, bare or scp form, with any user, ending, ASCII case and outer white space, folds to `host/path` |
| GitRemote.FixedIff | crates/sconce-catalog/src/lib.rs:468-502 | folding leaves a text alone exactly when it is of the stated fixed form |
| GitRemote.FoldTwiceIff | crates/sconce-catalog/src/lib.rs:468-502 | every such spelling with any path folds to the host and what is left of the path without one ".git" and its last slashes; folding again changes nothing exactly when that neither ends in ".git" nor holds "://" nor has outer white space |
| GitRemote.GitSlashFoldsTwice | crates/sconce-catalog/src/lib.rs:499-502 | so ".git/" folds to ".git" first and to the key then |

## Left out

- HTTP handlers, templates, headers, user, session, SCIM and listing queries: plumbing and row updates.
- Network, git object access, S3 requests, mail, OIDC and JWT: calls into other systems; fetches and object contents are parameters.
- SHA-256, SHA-1, HMAC and encryption: digests are uninterpreted functions, collision-free only where a lemma says so.
- Version constraints, stability and version ordering (`composer_semver`), package globs and minified documents (`composer_wire`): these are not part of this model; subscriptions and set membership are arbitrary predicates.
- Calendar months: an arbitrary function that never moves a date back.
- Integer widths: numbers are unbounded; the archive's 16- and 32-bit fields are checked explicitly, and every intermediate value of the date arithmetic stays far below 64 bits for 64-bit seconds.
- Sorted version listings: the comparison is not transitive when parseable and unparseable versions mix.
- ZipArchive.CanonicalArchive.IntoZip: the archive is one value of bytes, not a growing buffer, and the standard library's sort is modelled as a stable insertion sort.
- RateLimiter.RefinesLog: assumes that calls reach the mutex in the order of their clock readings, which are taken before; ClockBackwardsDiffers shows what happens otherwise.
- Closure.ResolveClosure: upstream metadata does not change while the plan is made; all failures of a fetch count as absence, as in the source.
- ComposerSync.HistoryKeeps: deletion of the whole repository is not modelled.
- ComposerSync.RepeatIsIdle: what others do during the first sync are inserts; no git mirror writes the same package then.
- ComposerSync.Package.Sync: fetching and parsing the document come before the loop and are left out; which statement of a version failed shows only in the error.
- LicenseIssue.OneLicensePerOrder: the transaction that inserts key and edges is one step; key material is left out.
- LicenseRenewal.OrderTakesEffectOnce: licenses are not deleted, so ledger rows stay.
- LicenseBounds.MergeKeepsVisible: the update policy and visibility of packages are not part of what a bound lets through.
- SlugHistory.UrlsKeepTheirMeaning: a guard and the operation it guards are one step; InterleavedValidIff and InterleavedUrlsKeepTheirMeaning say what holds when they are not.
- BlobGc.ReferencedBytesKept: temporary files and fsync are not modelled; a write makes the object appear at once, as the rename does.
- JobQueue.AlwaysSound: a claim is one step, and row locks are not modelled beyond that; the foreign keys' refusal to enqueue for a missing upstream or repository is left out.
- BlobGc.CollectGarbage: what others do to the store's objects meanwhile is left to the interleavings of BlobGc.ReferencedBytesKept and BlobGc.OverlapLosesBytes.
- BlobGc.LatestResolves: one retention statement is one step.
- CompositeRepo.AlwaysOneLevel: a request's statements run without others in between; the three "KeepsIff" lemmas say what holds when they do not.
- GitRemote.FoldTwiceIff: texts that are not spellings without separator clashes are covered by GitRemote.FixedIff, which speaks of the folded text.
- CompositeRepo.ServedFromOnePlace: grants and grant rules are not modelled.
- UpdatePolicy.PartitionIff: a day has 86400 seconds; session time zones are not modelled.
- GitRemote.SpellingsFold: a path that itself ends in ".git", or ".git" followed by a slash, is not one of the spellings.
- GitExport.ArchiveRecords: the attribute engine, UTF-8 validation and the object database are functions that may fail.
