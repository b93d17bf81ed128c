# Verified models of the hub's governance tools

This project models the small tools that guard the Data Interoperability Hub
repository, in Dafny, and proves what they promise: a nightly ledger, a
dead-code gate, a restore-point archiver, an image-context audit, two retry
loops, two source rewriters, a route flattener and an OpenAPI enhancer. Text is
a sequence of code points, dictionaries are maps, and every call into a cloud
service, a database, git or the file system is an arbitrary value or an
arbitrary sequence of outcomes.

`dafny verify dfyconfig.toml` checks everything.

| file | what it models |
|---|---|
| Text.dfy | the Python string operations the tools use, and their laws |
| LedgerRows.dfy | ledger rows: dates, the upsert, the consecutive-green counter |
| MarkdownSplice.dfy | rewriting a section between two sentinels |
| LedgerMarkdown.dfy | rendering that section |
| Ledger.dfy | the two ledger files over whole runs of calls |
| WiringIndex.dfy | the binary-search reference test and the orphan search |
| DeadCodeGate.dfy | gate, growth check, allowlist recording, histories |
| TagManifest.dfy, ManifestFlip.dfy | the manifest: printing, parsing, flipping to deleted |
| DirTree.dfy | following names to directories and removing what is there |
| TagArchive.dfy | archiving and deleting restore points |
| WordGaps.dfy | the words of a text and the white space between them |
| Dockerfile.dfy | continuation lines and copied sources |
| DockerNotes.dfy | blank and comment lines inside an instruction |
| Dockerignore.dfy | ignore patterns, environment files, the context audit |
| AuditSoundness.dfy | when the context audit misses nothing |
| SecretsLoader.dfy, DatabaseRetry.dfy | the two retry loops |
| SourceEdits.dfy | edits made from the end of a text backwards |
| RouteTree.dfy | flattening included URL patterns |
| OpenApi.dfy | adding security documentation to an OpenAPI document |

## Where the code and its words differ

- The ledger says that rows older than the newest one are refused. The code
  refuses them only when no row has their date; an old row can be rewritten
  (`LedgerRows.UpsertExact`, `LedgerRows.OlderDateIsRewritten`).
- Splicing is last-writer-wins exactly when the first text holds no END sentinel
  and a file without the sentinel pair has no lone BEGIN above its heading
  (`MarkdownSplice.LastWriterWinsExactly`); a file whose END stands only before
  its BEGIN loses everything after BEGIN (`MarkdownSplice.SpliceDropsTail`).
- The reference test misses a wired module when a string extends its path with a
  character sorted before the dot (`WiringIndex.IsWired`,
  `WiringIndex.HyphenHidesReference`).
- The gate is said to reject empty reasons; a reason of spaces passes
  (`DeadCodeGate.BlankReasonPasses`). The growth message offers to offset new
  entries by removals; any new entry fails (`DeadCodeGate.PassingMeansShrinking`).
- An upload without an ETag gives a row that the parser skips, so that the
  deletion leaves that tag alone (`TagManifest.RoundTripExactly`,
  `TagArchive.ArchiveThenDelete`). A confirmed deletion that its guards let start
  fails half way exactly when the manifest lists a tag twice or a backup whose
  name leads through what it removes (`TagArchive.DeletionCompletes`,
  `TagArchive.RepeatedTagCrashes`).
- A COPY or ADD is read as declared exactly when a space follows the keyword
  directly and a space stands in the gap before the first word that is not an
  option: a tab there loses words (`Dockerfile.ShellTokensExactly`,
  `Dockerfile.TabAfterOption`).
- The JSON reader decides an instruction exactly when its first argument opens an
  array, so an array after an option is read as shell words
  (`Dockerfile.JsonDecides`, `Dockerfile.ArrayAfterOption`).
- A blank line or a comment inside a continued instruction ends it, and a comment
  that goes on adds its own words: the lines read as the file without such lines
  exactly when there are none (`DockerNotes.NotesExactly`,
  `DockerNotes.NotesAtInputs`).
- The context audit looks a source up as it is written. It misses no baked
  environment file, in any context and under any ignore file, exactly when every
  path that a source matches as a wildcard is at or below a source as written,
  and environment files themselves are written without a detour
  (`AuditSoundness.AuditSoundExactly`): `COPY .env* ./` and, with a pattern that
  brings it back, `COPY ./svc/.env ./` bake a file without a finding
  (`AuditSoundness.WildcardIsMissed`, `AuditSoundness.DetourIsMissed`).
- A listed backup is removed wherever its name leads: a row named `..` takes
  everything below the parent of the backups directory
  (`TagArchive.ParentRowSweepsAll`). A removal stays in the entry of its own name,
  in every tree, exactly when the name is one path component
  (`DirTree.SweepStaysExactly`).
- The ledger's two files are said to be always in sync. After an accepted call
  they are exactly when the markdown has a place for the section, no field holds
  END and no lone BEGIN stands above the heading (`Ledger.SyncExactly`); without
  such a place the sidecar runs ahead for good (`Ledger.RunSyncsExactly`).
- The growth check compares the working copy with the head revision, so that it
  says something only before a commit is made; a history is taken to be checked
  then. On a clean checkout it compares a revision with itself and passes.
- Repeating a ledger call changes nothing, except when the section is written
  with a field that holds the END sentinel, or below a lone BEGIN
  (`Ledger.RepeatedCall`).
- The loader documents delays of 1, 2 and 4 seconds; the third never happens
  (`SecretsLoader.NoFourSecondDelay`).
- Deleting a clause that was recorded twice takes following text along: the
  result is right exactly for disjoint clauses (`SourceEdits.DeletionExactly`).
- With an empty base path, or one of slashes, included routes lose their leading
  slash: the paths are right exactly when the base path holds more than slashes
  or no leaf stands below an include that adds to it
  (`RouteTree.AuditIsJoinOnce`, `RouteTree.IncludedRouteLosesSlash`).

## Model

| member | source | states |
|---|---|---|
| LedgerRows.RecomputeConsecutiveGreen | scripts/append_260b_ledger_row.py:69-88 | the backward walk with early exits computes the documented forward counter (green adds one up to 14, red and unknown reset, infra-skip keeps) for every row list |
| LedgerRows.CounterReaches | scripts/append_260b_ledger_row.py:14-19 | the counter is at least n exactly when some newest stretch of rows holds n green nights and no resetting one |
| LedgerRows.DateTextOrder | scripts/append_260b_ledger_row.py:102-121 | zero-padded date texts compare as their calendar dates, so the text sort key and the date comparison agree |
| LedgerRows.SortByDateSorts | scripts/append_260b_ledger_row.py:121-121 | whatever the ledger held, the sort permutes it into date order |
| LedgerRows.UpsertExact | scripts/append_260b_ledger_row.py:104-122 | on an ordered ledger: replace the row of that date, else append when later than all, else refuse; the sort after the append moves nothing |
| LedgerRows.UpsertKeepsOrder | scripts/append_260b_ledger_row.py:91-122 | an accepted row keeps dates strictly increasing and unique, drops no date, changes no other row |
| LedgerRows.UpsertTwice | scripts/append_260b_ledger_row.py:94-108 | repeating an accepted upsert changes nothing, on any ledger at all |
| LedgerRows.OlderDateIsRewritten | scripts/append_260b_ledger_row.py:20-20 | the documented refusal of older rows does not hold for a date that is already there |
| LedgerRows.LaterRow | scripts/append_260b_ledger_row.py:36-122 | a night later than all before it is accepted exactly when its outcome is `green`, `red` or `infra-skip`, and becomes the last row |
| LedgerRows.ForwardSnoc | scripts/append_260b_ledger_row.py:14-19 | one more night, in numbers: up by one to at most 14, to zero, or unchanged |
| LedgerRows.DateReads | scripts/append_260b_ledger_row.py:55-111 | ten characters of digits and dashes are a date exactly when year, month and day are in range |
| LedgerRows.MonthEnds | scripts/append_260b_ledger_row.py:55-111 | which months have a 30th and a 31st |
| LedgerRows.CalendarEdges | scripts/append_260b_ledger_row.py:55-111 | at inputs: leap days of ordinary years and of centuries, a 31st of April, a thirteenth month, other separators |
| MarkdownSplice.LastWriterWinsExactly | scripts/append_260b_ledger_row.py:176-201 | splicing twice equals splicing the second text alone, for every second text, exactly when the first holds no END and no lone BEGIN stands above an unspliced file's heading |
| MarkdownSplice.SpliceAgainExactly | scripts/append_260b_ledger_row.py:176-201 | splicing the same text twice equals splicing it once, under exactly the same condition |
| MarkdownSplice.SpliceKeepsOutside | scripts/append_260b_ledger_row.py:180-183 | between a BEGIN and the next END only the section changes |
| MarkdownSplice.SpliceDropsTail | scripts/append_260b_ledger_row.py:181-183 | with END only before BEGIN, everything after BEGIN is dropped |
| MarkdownSplice.FirstSpliceKeeps | scripts/append_260b_ledger_row.py:184-200 | the first splice keeps all text up to the run heading and all text from the closure heading on |
| MarkdownSplice.FirstSpliceInFull | scripts/append_260b_ledger_row.py:170-200 | with the script's own texts: the first splice puts both sentinels and the section between the two headings in place of what stood there |
| MarkdownSplice.LaterSpliceInFull | scripts/append_260b_ledger_row.py:170-183 | with the script's own texts: a later splice replaces what stands between the sentinels |
| LedgerMarkdown.RenderHoldsEnd | scripts/append_260b_ledger_row.py:125-167 | a rendered section holds the END sentinel exactly when some field of some row does |
| LedgerMarkdown.RenderInFull | scripts/append_260b_ledger_row.py:125-167 | the section in full: the counter in comment and text, the closing notice from 14 on, the table head, one line per row numbered from one |
| LedgerMarkdown.ColumnsShowFields | scripts/append_260b_ledger_row.py:153-165 | a row's line, cut at its bars, shows every field in its own column, for all fields without bars |
| LedgerMarkdown.HeadingColumns | scripts/append_260b_ledger_row.py:148-148 | the table head, cut at its bars, names those columns in that order |
| Ledger.LedgerFiles.UpsertInPlace | scripts/append_260b_ledger_row.py:91-122 | the in-place upsert changes the rows as specified, or refuses and leaves them |
| Ledger.LedgerFiles.Append | scripts/append_260b_ledger_row.py:216-241 | one call: refused without effect, or recorded in the sidecar with the recomputed counter and, when it can be anchored, in the markdown |
| Ledger.StepKeepsLedger | scripts/append_260b_ledger_row.py:216-235 | one call keeps the ledger well formed; a refused one changes nothing, any other leaves its row in the ledger |
| Ledger.LaterNight | scripts/append_260b_ledger_row.py:36-122 | a night later than all before it is recorded exactly when its outcome is `green`, `red` or `infra-skip`; the stored counter then is min(c + 1, 14), 0 or c |
| Ledger.RunKeepsLedger | scripts/append_260b_ledger_row.py:216-235 | over every run: strictly increasing dates, stored counter equal to the documented one, no recorded date lost or moved |
| Ledger.RepeatedCall | scripts/append_260b_ledger_row.py:12-13 | repeating a call changes neither file and answers the same, exactly unless the section is written with a field that holds END or below a lone BEGIN |
| Ledger.MarkdownShowsSidecar | scripts/append_260b_ledger_row.py:22-24 | after every run whose rows hold no END sentinel the markdown is the first file with exactly the final rows and counter spliced in |
| Ledger.SyncExactly | scripts/append_260b_ledger_row.py:22-24 | after an accepted call the markdown shows the sidecar exactly when it has a place for the section, no field holds END and no lone BEGIN stands above the heading |
| Ledger.RunSyncsExactly | scripts/append_260b_ledger_row.py:216-241 | over every run whose rows hold no END and that changed something: the two files agree at its end exactly when the first markdown has a place for the section |
| WiringIndex.BisectLeft | scripts/audit_dead_code.py:322-322 | the index splits the sorted strings into those below the path and the rest |
| WiringIndex.IsWired | scripts/audit_dead_code.py:317-325 | sound for every set of strings; finds a real reference exactly when the path itself is present or no string extends it with a character below the dot |
| WiringIndex.SearchCompleteOnNames | scripts/audit_dead_code.py:135-137 | complete on strings of letters, digits, underscores and dots |
| WiringIndex.HyphenHidesReference | scripts/audit_dead_code.py:298-306 | unfiltered literals break completeness: a hyphenated extension hides a dotted one |
| WiringIndex.FindOrphanedModules | scripts/audit_dead_code.py:327-333 | the orphans are exactly the candidates that are neither imported nor found, in order |
| WiringIndex.OrphansExactly | scripts/audit_dead_code.py:310-333 | a module is reported exactly when nothing imports it and every string that wires it is hidden |
| WiringIndex.ModuleIsOrphan | scripts/audit_dead_code.py:182-333 | in path segments: the file `a/b/c.py` is reported exactly when it is a candidate, `a.b.c` is not imported, and every string that wires `a.b.c` is hidden |
| WiringIndex.WiringInWords | scripts/audit_dead_code.py:310-325 | a string wires a module when it is its name or goes on with a dot, and hides it when it goes on with a hyphen or a space |
| DeadCodeGate.CheckGate | scripts/audit_dead_code.py:475-534 | the violations are exactly the ones there are; exit zero exactly when there is no legacy file, the keys are the orphans, all are files, no reason is hollow |
| DeadCodeGate.BlankReasonPasses | scripts/audit_dead_code.py:518-518 | every reason of white space only passes the gate |
| DeadCodeGate.ReasonsExactly | scripts/audit_dead_code.py:518-518 | the gate fails on an empty reason and on one that starts with TODO behind any white space, and on no other |
| DeadCodeGate.GrowthExactly | scripts/audit_dead_code.py:557-593 | the growth check passes exactly against a head without an allowlist, or with one that has every working key |
| DeadCodeGate.PassingMeansShrinking | scripts/audit_dead_code.py:557-593 | a history passes both checks exactly when every commit passes the gate and no commit has an orphan its predecessor lacked |
| DeadCodeGate.OrphansOnlyShrink | scripts/audit_dead_code.py:35-36 | over every passing history the keys equal the orphans at each commit and the orphans never grow |
| DeadCodeGate.RemovedNeverReturns | scripts/audit_dead_code.py:35-36 | an orphan, or an entry, that has gone does not come back |
| DeadCodeGate.UpdatePartitions | scripts/audit_dead_code.py:596-617 | recording splits the old entries into kept, dead and stale, makes the keys the orphans, keeps surviving reasons, gives new ones the TODO text, and is idempotent |
| DeadCodeGate.GateAfterUpdate | scripts/audit_dead_code.py:599-601 | after recording the gate passes exactly with no legacy file, no new orphan and no hollow surviving reason |
| DeadCodeGate.UpdateThenRatchet | scripts/audit_dead_code.py:557-630 | recording over a passing commit passes both checks exactly when nothing legacy and no new orphan appeared |
| TagManifest.MatchRowIsRegex | scripts/archive_staging_tags.py:54-58 | the word-by-word matcher accepts exactly the lines of the row expression, with exactly those groups |
| TagManifest.ParseManifest | scripts/archive_staging_tags.py:188-208 | the section loop reads the rows as the line-by-line specification does |
| TagManifest.ParsePrinted | scripts/archive_staging_tags.py:148-208 | printing and parsing back gives the rows with an ETag, in order, each in its section, and nothing from the bullets above |
| TagManifest.RoundTripExactly | scripts/archive_staging_tags.py:148-208 | every row comes back with its fields exactly when all fields are non-empty and free of white space and the hashes are 64 hex digits |
| TagManifest.RowReadExactly | scripts/archive_staging_tags.py:54-58 | a row without spaces in its fields is read back exactly when the hash is 64 characters of 0-9 and a-f, the size is digits, the flags are letters, digits and underscores, and nothing holds white space |
| TagManifest.PrintedLines | scripts/archive_staging_tags.py:175-185 | the printed line of every row, field by field, with the commit of its own tag |
| TagManifest.ManifestHasRows | scripts/archive_staging_tags.py:148-186 | the manifest's lines: the opening, two headed sections, one line per row, in order |
| TagManifest.DestinationRedacted | scripts/archive_staging_tags.py:154-168 | the bucket shows by the length of its name and by nothing else |
| Text.DecimalReads | scripts/archive_staging_tags.py:179-179 | a printed size reads back as the number, without leading zeros |
| Text.CarriageReturns | scripts/archive_staging_tags.py:191-191 | reading lines: a carriage return ends one, and takes a newline after it along |
| Text.SpacesExactly | scripts/archive_staging_tags.py:54-58 | the white space and the line breaks, character by character |
| ManifestFlip.FlipIsReprint | scripts/archive_staging_tags.py:248-249 | replacing the flag text in a printed manifest gives the manifest printed as deleted, and touches nothing else |
| TagArchive.MakeTagTreeArchives | scripts/archive_staging_tags.py:97-122 | one archive per distinct commit, first seen first |
| TagArchive.DedupExactly | scripts/archive_staging_tags.py:100-110 | every tag's commit is archived and none twice |
| TagArchive.OwnArchive | scripts/archive_staging_tags.py:343-349 | looking an archive up by key suffix finds the tag's own one, for full hashes of one length |
| TagArchive.ShortCommitIsAmbiguous | scripts/archive_staging_tags.py:347-347 | for shorter names the suffix lookup would also match another archive |
| TagArchive.DiscoveredExactly | scripts/archive_staging_tags.py:69-94 | tags are taken by the prefix `backup-staging-`, directories by `staging_` and directly in the backups directory |
| TagArchive.KeysDiffer | scripts/archive_staging_tags.py:111-132 | different commits and different directories have different keys, and no directory shares a key with a commit |
| TagArchive.ArchivedKeysApart | scripts/archive_staging_tags.py:341-364 | after a successful archiving two rows share a key only if they are tags of one commit: no stored archive was overwritten |
| TagArchive.KeysUnderPrefix | scripts/archive_staging_tags.py:111-169 | every key lies under the prefix that the manifest announces |
| TagArchive.UploadTags | scripts/archive_staging_tags.py:341-355 | succeeds exactly when every upload verified; each row then carries its own commit, archive and ETag |
| TagArchive.UploadDirs | scripts/archive_staging_tags.py:357-364 | the same for the backup directories, each under the key of its own name |
| TagArchive.ArchiveAll | scripts/archive_staging_tags.py:336-364 | all rows exactly for the local tags and directories, exactly when every upload verified; no two of them share a key unless they are tags of one commit |
| TagArchive.Tool.RunArchive | scripts/archive_staging_tags.py:329-369 | the manifest is written only when there was something to archive and every upload verified, each under its own key; otherwise it is untouched |
| TagArchive.Tool.RunDelete | scripts/archive_staging_tags.py:211-250 | the deletion does to tags, directories and manifest exactly what its specification says, on every path, wherever the listed names lead |
| TagArchive.DeleteRefusals | scripts/archive_staging_tags.py:211-232 | a deletion is refused exactly without confirmation, without rows, with a row that is not verified, or with a listed tag that is gone |
| TagArchive.OnlyVerifiedRowsAreRemoved | scripts/archive_staging_tags.py:211-250 | whatever the manifest and however it ends: only staging tags with a verified row go, and only directories at or below what a verified row's name leads to, which for plain names is the entry of that name; a refusal changes nothing |
| DirTree.SweepStaysExactly | scripts/archive_staging_tags.py:240-244 | removing what a name leads to stays in the entry of that name, in every tree, exactly when the name is one path component |
| DirTree.TargetsAtInputs | scripts/archive_staging_tags.py:240-241 | where a listed name leads: down, through dots and doubled slashes, up, and from the top |
| DirTree.SweepEntries | scripts/archive_staging_tags.py:240-246 | with plain names the removal never fails and takes exactly the listed entries with everything below them |
| TagArchive.ParentRowSweepsAll | scripts/archive_staging_tags.py:240-244 | at an input: one verified row named `..` takes everything below the parent of the backups directory, and then fails |
| TagArchive.DeletionCompletes | scripts/archive_staging_tags.py:211-250 | a confirmed deletion completes exactly when there are rows, all verified, every listed tag is there, none is listed twice, and no name leads through what it removes, which plain names never do; otherwise, once started, it stops half way |
| TagArchive.RepeatedTagCrashes | scripts/archive_staging_tags.py:234-238 | at an input: one staging tag printed twice stops the deletion after removing it, with the manifest unchanged |
| TagArchive.ArchiveThenDelete | scripts/archive_staging_tags.py:211-369 | with the manifest that the archiver wrote, whatever the repository has become: deletion is refused when nothing got an ETag or a listed tag has gone, else it removes exactly the tags and backup entries whose own upload verified and got an ETag, and leaves the manifest printed as deleted; what was removed is stored under a key that no upload of another commit or directory used |
| TagArchive.ArchiveAndDelete | scripts/archive_staging_tags.py:211-369 | the two steps in a row: nothing changes unless every upload verified; then exactly the archived names with an ETag go; what was removed is stored under a key that no upload of another commit or directory used |
| Dockerfile.JoinContinuations | scripts/audit_image_build_contexts.py:82-93 | the buffering loop gives the specified logical lines |
| Dockerfile.ParseCopies | scripts/audit_image_build_contexts.py:74-127 | the parser collects the sources of all logical lines |
| Dockerfile.ContinuationIsOneLine | scripts/audit_image_build_contexts.py:84-93 | any number of continued lines, whatever their text, indentation and padding, reads as one line of all the texts, anywhere in a file |
| DockerNotes.NotesAtInputs | scripts/audit_image_build_contexts.py:84-93 | at inputs: a comment or a blank line inside a continued COPY ends it, and a comment ending in a backslash becomes sources |
| DockerNotes.NotesExactly | scripts/audit_image_build_contexts.py:82-93 | with blank and comment lines anywhere between the first and last line of an instruction, the file reads as the file without them exactly when there are none |
| Dockerfile.DropFlagsExactly | scripts/audit_image_build_contexts.py:110-116 | the option loop leaves exactly the words after the leading options, exactly when a space stands in the gap that ends them |
| Dockerfile.OptionGapExactly | scripts/audit_image_build_contexts.py:110-115 | one option is dropped alone exactly when the white space after it holds a space |
| Dockerfile.KeywordExactly | scripts/audit_image_build_contexts.py:97-101 | an instruction is seen exactly when its first word is COPY or ADD and a space follows directly; its body is the rest of the words |
| Dockerfile.KeywordsAnyCase | scripts/audit_image_build_contexts.py:98-100 | COPY and ADD in any case of letters, and nothing else |
| Dockerfile.ShellTokensExactly | scripts/audit_image_build_contexts.py:97-118 | for every spacing: the parser takes exactly the declared words, exactly when the instruction is separated by spaces at the two places that matter |
| Dockerfile.ShellForm | scripts/audit_image_build_contexts.py:97-126 | a separated shell-form COPY or ADD, however its words are spaced, gives the words after the leading options, without the destination, filtered as documented |
| Dockerfile.JsonDecides | scripts/audit_image_build_contexts.py:102-109 | the JSON reader has a say in the sources exactly when the first argument opens an array |
| Dockerfile.ArrayAfterOption | scripts/audit_image_build_contexts.py:102-126 | at an input: an array after an option gives its first shell word as a source, whatever the JSON reader |
| Dockerfile.SplitInstruction | scripts/audit_image_build_contexts.py:74-127 | splitting a separated instruction at token boundaries over continued lines leaves the source set of the whole file unchanged, and it is the declared one |
| Dockerfile.SourcesOfWords | scripts/audit_image_build_contexts.py:120-126 | absolute and variable sources and the plain parent `..` are dropped (`../x` is kept), a dot means the context, all others are kept |
| Dockerfile.QuotedSource | scripts/audit_image_build_contexts.py:121-121 | quotes around a source make no difference |
| Dockerfile.TabAfterOption | scripts/audit_image_build_contexts.py:110-115 | at an input: with a tab after an option, the first source goes with the option |
| Dockerignore.GlobPrefix | scripts/audit_image_build_contexts.py:159-161 | a plain pattern matches itself only, and with a star exactly its extensions |
| Dockerignore.GlobInfix | scripts/audit_image_build_contexts.py:157-161 | a star between two plain texts covers exactly what starts with the one and ends with the other |
| Dockerignore.GlobRange | scripts/audit_image_build_contexts.py:157-161 | a range of characters, and everything but a range |
| Dockerignore.GlobClass | scripts/audit_image_build_contexts.py:157-161 | a class of single characters, a bracket as its first, and one that is never closed |
| Dockerignore.LineForms | scripts/audit_image_build_contexts.py:141-153 | a name, anchored, as a directory, negated or with blanks around gives its pattern; comments, blanks and bare slashes give none |
| Dockerignore.OneLineIgnores | scripts/audit_image_build_contexts.py:134-166 | a name without a slash ignores what has it as a segment, as a directory what has a segment that begins with it; with a slash that path, and as a directory what lies below |
| Dockerignore.Dockerignored | scripts/audit_image_build_contexts.py:134-166 | the overwritten flag says exactly that the last pattern covering the path is not negated |
| Dockerignore.AuditContext | scripts/audit_image_build_contexts.py:176-208 | the findings are exactly the real environment files that the looked-up sources lead to and that are not ignored; which files those are is BakedExactly |
| Dockerignore.EnvFileExactly | scripts/audit_image_build_contexts.py:66-71 | a real environment file is named `.env` or `.env.` and one line more, and ends in none of the three template endings |
| Dockerignore.BakedExactly | scripts/audit_image_build_contexts.py:197-200 | of the paths looked at and not ignored, exactly those whose last segment, trailing slashes and dots aside, is such a name are found |
| Dockerignore.BakedAtInputs | scripts/audit_image_build_contexts.py:44-71 | at inputs: `.env.production` is found, `.env.example` and `.envrc` are not |
| AuditSoundness.AuditSoundExactly | scripts/audit_image_build_contexts.py:176-208 | the audit misses no baked environment file, in any context and under any ignore file, exactly when every path that a source matches is watched by a source as it is written |
| AuditSoundness.LiteralSourcesAreSeen | scripts/audit_image_build_contexts.py:195-207 | with sources that match only what they say, and environment files named without a detour, every baked environment file is found |
| AuditSoundness.WildcardIsMissed | scripts/audit_image_build_contexts.py:195-207 | at an input: a wildcard source bakes an environment file without a finding |
| AuditSoundness.DetourIsMissed | scripts/audit_image_build_contexts.py:197-200 | at an input: a file source written as `./svc/.env` stays ignored when a pattern brings `svc/.env` back |
| AuditSoundness.SameNormal | scripts/audit_image_build_contexts.py:197-197 | a trailing slash and a leading `./` lead to the same place |
| Dockerignore.EnvStarProtects | scripts/audit_image_build_contexts.py:134-208 | with `.env*` present, the audit is clean exactly when no later negated pattern exposes an environment file that it looks at |
| Dockerignore.NoLaterNegation | scripts/audit_image_build_contexts.py:11-14 | with `.env*` and no later negated pattern covering a real environment file, the audit finds nothing, for every context and source set |
| SecretsLoader.Process.InjectSecrets | hub/aws_secrets_loader.py:131-134 | writing key by key overlays the whole dictionary |
| SecretsLoader.Process.DoLoad | hub/aws_secrets_loader.py:137-163 | all secrets or none: a failing read leaves the environment unchanged |
| SecretsLoader.MergeIsLaterWins | hub/aws_secrets_loader.py:142-151 | a name is set exactly when some secret had it, to the value of the last one that did |
| SecretsLoader.Process.LoadFromAws | hub/aws_secrets_loader.py:188-260 | for any number of attempts: a raising load changes nothing, a returning one overlays its successful attempt, the sleeps are the first back-offs |
| SecretsLoader.RunExactly | hub/aws_secrets_loader.py:179-184 | a load ends at the first attempt that loads or fails for good, and is exhausted exactly when all fail in a retryable way |
| SecretsLoader.FailuresExactly | hub/aws_secrets_loader.py:188-260 | by what was raised: missing credentials, a runtime error and the two authorisation codes end the load, every other failure is tried again |
| SecretsLoader.LoadOnceExactly | hub/aws_secrets_loader.py:137-163 | one attempt fails with the client's failure, or the first reading's that is not a secret that does not exist; otherwise it loads |
| SecretsLoader.TotalDelay | hub/aws_secrets_loader.py:208-234 | with n attempts the delays are a prefix of 1, 2, ..., 2^(n-2), totalling at most 2^(n-1) - 1 |
| SecretsLoader.NoFourSecondDelay | hub/aws_secrets_loader.py:74-76 | with three attempts the documented four-second delay never happens |
| SecretsLoader.ThreeTransientFailures | hub/aws_secrets_loader.py:75-76 | at an input: three transient failures take three attempts and sleeps of one and two seconds |
| DatabaseRetry.SetupDatabases | hub/conftest.py:1285-1329 | the loop ends, counts and waits as specified, for every sequence of replies |
| DatabaseRetry.EndsAtFirstFinalReply | hub/conftest.py:1288-1329 | it ends at the first reply that is not a retryable error, with what that reply gave |
| DatabaseRetry.RunBounds | hub/conftest.py:1307-1327 | for general limits: no more attempts than the larger allowance, no longer than the worst mixture, never past the range |
| DatabaseRetry.WorstIsReached | hub/conftest.py:1316-1327 | one sequence of errors reaches both the bound on the attempts and the bound on the wait |
| DatabaseRetry.RangeSuffices | hub/conftest.py:1288-1329 | some sequence of errors runs past the range exactly when the range is below the larger allowance |
| DatabaseRetry.ConftestBounds | hub/conftest.py:1288-1329 | at most 15 attempts and 155 seconds, both reached in one run, and never a fall through 20 steps |
| DatabaseRetry.SteadyError | hub/conftest.py:1288-1327 | an error that stays, by its text: 15 attempts over 140 seconds for host names and recovery, five over 50 for lost connections, one for any other |
| SourceEdits.InsertMarkers | scripts/bootstrap_test_markers.py:175-184 | inserting upwards equals the simultaneous insertion |
| SourceEdits.MarkedPositions | scripts/bootstrap_test_markers.py:178-181 | every line keeps its order, and every target has one marker with its own indentation directly above |
| SourceEdits.MarkerStandsAbove | scripts/bootstrap_test_markers.py:178-181 | above a target of some white space and some code stands the same white space and the marker's literal text |
| SourceEdits.MarkerInClass | scripts/bootstrap_test_markers.py:178-181 | at an input: the marker of a test in a class gets its four spaces |
| SourceEdits.RemovingMarkersRestores | scripts/bootstrap_test_markers.py:178-183 | removing the marker lines restores the file exactly when it had none before |
| SourceEdits.DeleteIntervals | scripts/auto_fix_unused_assert_raises.py:124-129 | the loop applies the clipped deletions one after the other |
| SourceEdits.DeletionExactly | scripts/auto_fix_unused_assert_raises.py:124-131 | deleting in descending order leaves exactly the characters outside all intervals, exactly when the intervals are disjoint |
| RouteTree.Auditor.ParseResolver | scripts/audit-api-endpoints.py:663-788 | the recursion appends exactly the flattened paths to the shared list |
| RouteTree.FlattenIsJoinOnce | scripts/audit-api-endpoints.py:744-788 | for every tree and every prefix that the audit hands down: stripping, joining and collapsing at every level equals joining once and collapsing once, up to a trailing slash, exactly when the prefix holds more than slashes or no leaf stands below an include that adds to it |
| RouteTree.AnchorsIgnored | scripts/audit-api-endpoints.py:744-748 | an include with a leading or trailing anchor gives the paths of the one without; without anchors the pattern is taken as it is |
| RouteTree.CollapseKeeps | scripts/audit-api-endpoints.py:98-98 | collapsing takes nothing but slashes away |
| RouteTree.DocumentedRoute | scripts/audit-api-endpoints.py:750-788 | at an input: the documented base path, include and leaf |
| RouteTree.AuditIsJoinOnce | scripts/audit-api-endpoints.py:628-638 | the same for the audit's own call, in terms of its base path |
| RouteTree.FlattenHasNoDoubleSlash | scripts/audit-api-endpoints.py:98-98 | no path has two adjacent slashes, for every tree, base and prefix |
| RouteTree.TrailingSlashIsPatterns | scripts/audit-api-endpoints.py:99-101 | a path ends with a slash exactly when its own pattern does |
| RouteTree.SlashPrefixLosesRoot | scripts/audit-api-endpoints.py:752-761 | below slashes, an include that adds to them takes the leading slash from every path under it, while joining keeps it: the lists agree only when empty |
| RouteTree.IncludedRouteLosesSlash | scripts/audit-api-endpoints.py:628-761 | at an input: base path `/`, include `api/`, leaf `ping` give `api/ping` instead of `/api/ping` |
| OpenApi.AddSectionsLaws | scripts/add-security-requirements-to-openapi.py:253-304 | the text stays as a prefix, every section is there, adding again changes nothing, and nothing is added exactly when all were there |
| OpenApi.OperationSettles | scripts/add-security-requirements-to-openapi.py:247-356 | an operation gets every section, its headers and required security, keeps all it had, and settles after one pass |
| OpenApi.EntryExactly | scripts/add-security-requirements-to-openapi.py:185-330 | an entry is touched exactly when its method is one of five and its path is in the table; it then gets every section and, when it had no security, exactly the two schemes if authentication is required or offered |
| OpenApi.SectionsAtInputs | scripts/add-security-requirements-to-openapi.py:256-304 | at inputs: the sections of an entry with everything, and of a public one |
| OpenApi.OneLimitAtInputs | scripts/add-security-requirements-to-openapi.py:287-298 | at inputs: a burst without a daily limit, and a daily limit without a burst |
| OpenApi.OptionalAtInputs | scripts/add-security-requirements-to-openapi.py:306-314 | at inputs: a method that says optional, in any case of letters, offers authentication |
| OpenApi.HeadersExactly | scripts/add-security-requirements-to-openapi.py:318-356 | the four rate headers are there with their examples, and headers that were there stay |
| OpenApi.SchemesSettle | scripts/add-security-requirements-to-openapi.py:359-399 | both schemes end up documented, nothing else changes, and a second pass changes nothing |
| OpenApi.DocumentExactly | scripts/add-security-requirements-to-openapi.py:185-225 | a document that is no OpenAPI document stays; one without schemes gets exactly the two, of their kinds |
| OpenApi.Document.AppendSections | scripts/add-security-requirements-to-openapi.py:256-304 | the check-and-append steps give the specified text and report a change exactly when there is one |
| OpenApi.Document.EnhanceOperation | scripts/add-security-requirements-to-openapi.py:247-356 | the operation becomes the enhanced one, and the flag is true exactly when something changed |
| OpenApi.Document.EnhanceScheme | scripts/add-security-requirements-to-openapi.py:363-379 | the scheme is filled in or completed, and the flag says whether it changed |
| OpenApi.Document.Enhance | scripts/add-security-requirements-to-openapi.py:185-240 | the document becomes the enhanced one and is written exactly when it changed |
| OpenApi.EnhanceTwice | scripts/add-security-requirements-to-openapi.py:185-240 | enhancing twice equals enhancing once, for every document and table, and old descriptions are prefixes of new ones |

## Left out

- LedgerRows.ParseDate: reads the dashed ten-character form only, the one form that both of the script's parsers accept; the other ISO forms that newer Python versions read in a hand-edited ledger are not modelled. A row without an outcome key counts as an unknown outcome.
- TagManifest.Identifier: the word class of the row expression is modelled for ASCII text, and its digit class for ASCII digits.
- TagArchive.Tool.RunArchive: an upload that raises counts as one that did not verify; both leave the manifest as it was. The manifest's directory is taken to be there.
- TagArchive.Tool.RunDelete: only directories are modelled. A plain file of a listed name would make the removal raise after the tags are gone, and a removal that reaches the manifest's or the repository's own directory would take those along. Links are not followed.
- TagArchive.ArchiveThenDelete: names with white space in them, which the row expression does not read, are excluded here; what is read back of such rows is TagManifest.RoundTripExactly.
- Dockerfile.ParseCopies: the JSON reader is a parameter, and reads its text as it is spaced; splitting an array over lines is therefore not part of SplitInstruction.
- AuditSoundness.AuditSoundExactly: the builder's own wildcard matching is a parameter, ignore patterns mean what the audit takes them to mean, and the lookup answers for the files that exist; nothing is said about what sources with `..` segments lead to.
- DatabaseRetry.SetupDatabases: messages are given in lower case, and closing the connections between attempts is not modelled.
- SourceEdits.InsertMarkers: the targets arrive sorted, as the script's sort leaves them; finding test nodes by parsing Python is not modelled.
- SourceEdits.DeletionExactly: the clause matches are given; a match is never empty and the colon always follows it, so it ends before the text does.
- RouteTree.Flatten: includes that fail to load, regular-expression routes and service names are not modelled.
- OpenApi.Document.EnhanceScheme: stands for each of the two schemes in turn; reading and writing YAML, and aliases that make two operations share one dictionary, are not modelled.
- SecretsLoader.Process.InjectSecrets: writing an environment variable does not itself fail.
- Import resolution, the collection of strings and files, and the commented-block finder of the dead-code audit: inputs of the model, or easy.
- `verify` of the archiver, the credential scan and the reports of the image audit: no state, or foreign tools.
- Database routing, settings, front-end configuration and the regular-expression classifiers: little logic or no crisp specification.
