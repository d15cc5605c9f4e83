# SPED layout validator, modelled in Dafny

The service checks SPED text files against a layout. The layout maps each block code
(*registro*) to the list of its field names, the first of which is the registro label itself.
A data file is read line by line. Only lines whose trimmed text starts with `|` are used. Each
such line is split into a registro and its fields, its registro is counted, a registro the
layout does not declare is recorded as a missing block, and a line whose field count differs
from the layout's is recorded as a discrepancy, with at most 3 sample texts and 5 sample line
numbers per registro.

Three front ends use that validator:
- the `/validate_layout` route checks one uploaded file;
- the `/validate_layout_archive` route unpacks an archive under a fresh directory, walks it for
  `.txt` files, validates each one in isolation and aggregates the results;
- the `validate_backlog.js` command does the same for a folder, optionally recursively, and
  writes one entry per file.

The project models:
- `LineParser` and `Text`: trimming, the two pipe strips, and `split` on `|`;
- `Validation`: the accumulating loop, as a method proved equal to a specification `Validate`
  on the lines, and `Validate`'s meaning;
- `PathPosix`: the zip entry sanitiser together with POSIX `normalize`, `join` and `resolve`, as
  a segment stack;
- `Discovery`: `walk` and `collectTxts`, over an in-memory tree;
- `Ordering`: the `indexOf` comparator sort, both as written and as intended;
- `Routes`: the two routes after upload and extraction, with the per-file loop and the
  aggregate fold;
- `Backlog`: the command's per-file loop.

One `Validation.ValidateOneSpedFile` models all three copies of the loop: index.js:17-65,
index.js:94-121 and validate_backlog.js:24-72. The first two differ only in `line` versus
`lineRaw`.

A file's lines are given already decoded: a `seq<string>`, numbered from 1. Reading a file is a
parameter `read: string -> FileInput`, which gives either the lines or the message of the read
error.

Every sort of missing blocks takes a `SortMode`:
- `OrderNotInScope` is the program as written;
- `LayoutOrder(order)` is what was intended, where `order` plays `Object.keys(layout)`;
  `Routes.OrderOfLayout` states that every entry of it is a layout key.

See "## Findings".

## Model

| member | source | states |
|---|---|---|
| Text.TrimMeaning | index.js:31 | `trim()`: the result is the slice of the input after its leading whitespace, everything dropped before and after it is whitespace, and neither of its ends is whitespace |
| Text.Trim | index.js:31 | `trim()` never lengthens its input; what it keeps and drops is `Text.TrimMeaning`, and it is idempotent (`Text.TrimIdempotent`) |
| Text.LeadingCountMeaning | index.js:31 | the leading run `trim()` drops is all whitespace and stops at the first non-whitespace character |
| Text.TrailingCountMeaning | index.js:31 | the trailing run `trim()` drops is all whitespace and stops at the last non-whitespace character |
| Text.TrimIdempotent | index.js:48 | trimming a trimmed line changes nothing, so a sample text is the trimmed line as the parser saw it |
| Text.Split | index.js:32 | `split('\|')` always gives at least one piece, so `partes[0]` exists |
| Text.SplitPiecesFree | index.js:32 | no piece of a split contains the separator |
| Text.SplitLength | index.js:35 | the number of pieces is the number of separators plus one |
| Text.JoinSplit | index.js:32 | joining the pieces with the separator gives back the split text |
| Text.SplitJoin | index.js:32 | splitting the join of separator-free pieces gives back the pieces |
| Text.SplitAround | index.js:32 | splitting around one separator is the concatenation of the splits of the two sides |
| LineParser.StripPipes | index.js:32 | `^\|` then `\|$` remove one leading and then one trailing `\|`; a lone `\|` becomes empty |
| LineParser.ParseLine | index.js:31-35 | a line gives a record exactly when its trimmed form starts with `\|` |
| LineParser.ParseLineWellFormed | index.js:32-33 | neither the registro nor any field of a kept line contains `\|` |
| LineParser.ParseEncodeParse | index.js:31-35 | writing a parsed record back as `\|reg\|f1\|…\|` and parsing that gives the same record |
| LineParser.FieldCountIsDelimiterCount | index.js:35 | `partes.length - 1` is the number of `\|` inside the stripped line, so it is never negative |
| LineParser.ParseEncode | index.js:32-35 | writing a record of pipe-free pieces as `\|reg\|f1\|…\|` and parsing it gives back the record |
| LineParser.ParseReconstruct | index.js:31-35 | a kept line, trimmed, is its record written back, with or without the final `\|` |
| LineParser.ExampleC100 | index.js:32-35 | `\|C100\|x\|y\|` parses to registro `C100` with the 2 fields `x` and `y` |
| Validation.ValidateOneSpedFile | index.js:17-65 | the loop, with its maps, Set and capped pushes, returns exactly `Validate(lines, layout)`; the same loop is validate_backlog.js:24-72 and, inlined, index.js:94-121 |
| Validation.ValidateLine | index.js:29-50 | one pass of the loop body moves the three accumulators from the report of the lines before to the report including this one |
| Validation.Validate | index.js:53-64 | the report the loop returns: `total_unique_blocks` is the number of keys of `block_occurrences`; its parts mean what `Validation.OccurrencesMeaning`, `Validation.MissingExact`, `Validation.MissingFirstSeenOrder` and `Validation.DiscrepancyEntryMeaning` state |
| Validation.CountBlock | index.js:34 | `blockOccurrences[reg] = (… \|\| 0) + 1` gives the occurrences of the lines up to this one |
| Validation.RecordMismatch | index.js:42-49 | creating the entry on its first mismatch, counting and pushing under the caps gives the discrepancies of the lines up to this one |
| Validation.OnlySkippedLines | index.js:27-31 | a file none of whose lines starts with `\|` gives no blocks, no missing blocks and no discrepancies |
| Validation.RegistrosAreSeen | index.js:33-34 | a registro is a key exactly when some line of the file carries it, and then it is counted at least once |
| Validation.OccurrencesMeaning | index.js:34 | `block_occurrences[reg]` is the number of lines carrying `reg` and is at least 1; `total_unique_blocks` is the number of keys |
| Validation.OccurrencesAdd | index.js:34 | each kept line adds exactly 1 to its registro's count |
| Validation.OccurrencesKeep | index.js:31 | a skipped line leaves every count unchanged |
| Validation.MissingExact | index.js:36-40 | `missing_blocks` holds each registro absent from the layout once, and nothing else |
| Validation.MissingFirstSeenOrder | index.js:38 | `Array.from` of the Set (index.js:56) lists the undeclared registros in the order of their first lines: an earlier entry was first seen on an earlier line |
| Validation.MissingHaveFirstLine | index.js:36-38 | every missing block was seen on some line of the file |
| Validation.MissingSnoc | index.js:36-38 | a line adds at most one missing block, one no earlier line carries and this line does |
| Validation.FirstLineOfMeaning | index.js:38 | the first line of a registro is the least index of a line carrying it, or the number of lines when none does |
| Validation.FirstLineSeen | index.js:33-34 | a registro has a first line exactly when it is a key of `block_occurrences` |
| Validation.MissingAndDiscrepanciesDisjoint | index.js:36-43 | missing blocks are keys of `block_occurrences`; discrepancy keys are layout keys that occur; no registro is both |
| Validation.DiscrepancyPresence | index.js:41-45 | a registro has a discrepancy entry exactly when some line of it has a field count other than expected |
| Validation.DiscrepancyEntryMeaning | index.js:41-49 | an entry has `expected = layout[reg].length - 1`; its occurrences count every mismatch, at least 1 and at most the registro's count; samples are the first min(n,3) trimmed texts and the first min(n,5) line numbers, aligned |
| Validation.MismatchLineNumbersExact | index.js:47-49 | the recorded mismatch line numbers are increasing and are exactly the mismatching lines; every mismatch before a recorded one is recorded before it |
| Validation.MismatchLineNumbersSound | index.js:49 | each recorded line number is a line that mismatches |
| Validation.MismatchLineNumbersComplete | index.js:47 | every mismatching line is recorded |
| Validation.MismatchTextsAligned | index.js:48-49 | the k-th sample text is the trimmed text of the line at the k-th line number |
| Validation.MismatchesBounded | validate_backlog.js:53-54 | a registro's mismatches never exceed its occurrences |
| Validation.MismatchesAdd | index.js:46-49 | a mismatching line appends its number and its trimmed text to its registro's lists |
| Validation.DiscrepanciesAdd | index.js:43-49 | a mismatching line creates or extends its registro's entry, occurrences plus one, samples pushed under their caps |
| Validation.DiscrepanciesKeep | index.js:42 | a line that mismatches no registro leaves the discrepancies unchanged |
| Validation.Take | index.js:48-49 | a capped list is the first min(n, cap) elements of the full list |
| Validation.TakeAppend | index.js:48-49 | `if (s.length < cap) s.push(x)` on the capped list is the capped list of the extended one |
| Validation.SingleLine | index.js:31-50 | the report of a single kept line, for every case of layout entry and field count |
| Validation.ExampleMismatch | index.js:41-49 | `\|C100\|x\|y\|` against a C100 of 3 fields: one occurrence, one discrepancy expecting 3, sampled at line 1 |
| Validation.ExampleMissing | index.js:36-40 | `\|C200\|z\|` with C200 undeclared: C200 is missing and has no discrepancy |
| Validation.OneUndeclaredBlock | validate_backlog.js:43-47 | a one-line file `\|reg\|f\|` with `reg` undeclared reports `reg` missing and nothing else |
| Ordering.IndexOfMeaning | index.js:126 | `indexOf` is -1 exactly when absent, otherwise the position of the first occurrence |
| Ordering.SortByOrder | index.js:126 | the intended comparator sort, also at index.js:223 and index.js:246, keeps the length; that it is an ordered, stable permutation is `Ordering.SortByOrderSortedPermutation` and `Ordering.SortByOrderStable` |
| Ordering.SortByOrderSortedPermutation | index.js:246 | the comparator sort orders by layout position and keeps every element with its multiplicity |
| Ordering.SortByOrderSorted | index.js:126 | the sort's result never decreases in layout position |
| Ordering.SortByOrderPermutation | index.js:126 | the sort's result is a permutation of its input |
| Ordering.SortByOrderStable | index.js:223 | elements at the same layout position keep their relative order |
| Ordering.SortByOrderOfSorted | index.js:246 | an already ordered list is left as it is |
| Ordering.SortAbsentIsIdentity | index.js:246 | a list none of whose elements is in the order is left as it is |
| Ordering.SortMissing | index.js:126 | as written, the sort throws `layoutOrder is not defined` exactly when there are two or more elements; as intended, it is a sorted permutation |
| Ordering.SortMissingAbsent | index.js:223 | as intended, undeclared blocks come back unchanged |
| Ordering.AsWrittenTwoBlocksThrow | index.js:246 | two blocks make the sort throw as written; as intended, the order of a layout declaring only C100 leaves them in first-seen order |
| PathPosix.StripParentPrefix | index.js:174 | the input is a run of `../` and `..\` steps followed by the result, the run closed by a final `..` only when the result is empty; the result neither starts with such a step nor is `..` |
| PathPosix.Normalize | index.js:174 | `path.normalize` of the empty path is `.` and of an absolute path is absolute; which `..` it keeps is `PathPosix.FoldAbsoluteNoParent`, `PathPosix.FoldParentsFirst` and `PathPosix.NormalizeParentA` |
| PathPosix.JoinPath | index.js:175 | `path.join`, also at index.js:203 and validate_backlog.js:78: two empty parts give `.`, and a join under an absolute directory is absolute; `PathPosix.DestinationWithinRoot` states where it lands |
| PathPosix.FoldAbsoluteNoParent | index.js:174 | normalising an absolute path leaves no `..` segment |
| PathPosix.FoldParentsFirst | index.js:174 | normalising a relative path leaves `..` segments only in front |
| PathPosix.SanitizedHasNoParent | index.js:174 | a sanitised entry name has no `..` segment at all |
| PathPosix.Resolve | index.js:176 | `path.resolve` against an absolute working directory is absolute |
| PathPosix.ResolveRoot | index.js:176 | `path.resolve` of `/r` is `/r` |
| PathPosix.EntryDestination | index.js:174-186 | the entry is drained exactly when its destination does not start with the resolved root; otherwise a directory entry creates and a file entry writes exactly that destination |
| PathPosix.DestinationWithinRoot | index.js:174-176 | for an absolute extraction root the destination is the root itself or lies below it, whatever the entry's name |
| PathPosix.NeverDrained | index.js:176-179 | consequently the drain branch is never taken for an absolute root |
| PathPosix.ParentEntriesReRooted | index.js:174-175 | `../a` and `..\a` are written to `root/a`, not dropped |
| PathPosix.NormalizeParentA | index.js:174 | `normalize` keeps the leading `..` of a relative path |
| Discovery.CollectTxts | validate_backlog.js:74-88 | the loop with its recursive call returns exactly `TxtPaths(dir, entries, recursive)` |
| Discovery.TxtPaths | validate_backlog.js:74-88 | what `collectTxts` and `walk` (index.js:199-211) collect: without descent each entry of the listing gives at most one path; what is collected is stated by `Discovery.FlatMembership`, `Discovery.RecursiveIsFilteredFiles` and `Discovery.ChainsEndInDataFile` |
| Discovery.Walk | index.js:199-211 | `walk` is the recursive collection |
| Discovery.TxtPathsRendered | validate_backlog.js:78 | every collected path is `path.join` of the root and the names leading to the file |
| Discovery.ChainsEndInDataFile | validate_backlog.js:83-84 | every collected path lies below the directory and ends in a name matching `/\.txt$/i` |
| Discovery.RecursiveIsFilteredFiles | index.js:202-209 | with descent, the result is every non-directory entry of the tree, in walk order, filtered by name |
| Discovery.FlatIsFilteredTopFiles | validate_backlog.js:79-85 | without descent, the result is the listing's own non-directory entries filtered by name |
| Discovery.FlatMembership | validate_backlog.js:79-85 | without descent, a path is collected exactly when it names a matching file of the listing |
| Discovery.DirectoryNeverListed | validate_backlog.js:79-83 | a directory is never collected itself, even one named `x.txt` |
| Discovery.SubdirectorySpliced | validate_backlog.js:80-82 | with descent, a subdirectory's files are spliced in at its position; without it, it contributes nothing |
| Discovery.TxtChainsAppend | validate_backlog.js:77-86 | the collection of a listing is the concatenation of the collections of its parts |
| Routes.SortReport | index.js:126 | sorting a report's missing blocks changes nothing else, keeps them as a multiset, and fails only with the ReferenceError |
| Routes.ValidateLayout | index.js:94-126 | `/validate_layout` gives the report of the loop with its missing blocks sorted |
| Routes.ValidateLayoutAsWritten | index.js:126 | as written, the route fails exactly when the file uses two or more undeclared registros |
| Routes.ValidateLayoutIntended | index.js:126 | as intended, the route answers with the report unchanged |
| Routes.ArchiveOutcome | index.js:220-227 | an unreadable file records its message; as written, a readable file records the error exactly when it has two or more missing blocks, and that error is always `layoutOrder is not defined` |
| Routes.ArchiveOutcomeIntended | index.js:220-224 | as intended, a readable file records its report |
| Routes.ValidateArchiveFile | index.js:220-227 | the loop body in its `try` computes `ArchiveOutcome` |
| Routes.ValidateArchiveFiles | index.js:218-228 | every discovered file gets its own entry, whatever the other files gave; keys come in first-insertion order |
| Routes.AddAll | index.js:239 | adding to a `Set` contains exactly what was there and what was added |
| Routes.AddAllMeaning | index.js:239 | the Set keeps what was there in front and holds nothing twice |
| Routes.AddAllOrder | index.js:239 | what the Set gains from a list comes after what it held, in the order of first positions in that list |
| Routes.Values | index.js:236 | `Object.entries` walks the values in key order |
| Routes.AggregateSummaries | index.js:230-246 | the counting loop with its inner `forEach` returns `AggregateOf` |
| Routes.UnionMissingMeaning | index.js:237-239 | `unique_missing_blocks` holds each block once, and a block exactly when some file's summary lists it |
| Routes.UnionMissingPrefix | index.js:236-239 | the union over the first files is a prefix of the union over all of them |
| Routes.UnionMissingOrder | index.js:236-239 | the blocks a summary adds follow those of the files before it, come from its own `missing_blocks` and keep that list's order |
| Routes.CountsBounded | index.js:237-243 | error entries count toward neither counter: both counters count the same over the summaries alone, are at most their number, and summaries plus errors are all the entries |
| Routes.FailedAddsNothing | index.js:236-244 | an error entry leaves the aggregate unchanged |
| Routes.AggregateAsWritten | index.js:246 | as written, the aggregate fails exactly when the union has two or more blocks |
| Routes.AggregateIntended | index.js:245-246 | as intended, the union of undeclared blocks keeps its first-seen order |
| Routes.ValidateArchive | index.js:198-248 | the route after extraction: walk, per-file loop, aggregate, with 404 when no data file is found |
| Routes.ArchiveFilesShape | index.js:213-231 | a validated answer lists every discovered file once, gives each its entry, and `total_files` counts all of them, failed ones included |
| Routes.ArchiveIntended | index.js:218-246 | as intended, an archive with data files is always answered, with the union in first-seen order and each readable file's report unchanged |
| Routes.OutcomeMissingAbsent | index.js:223 | a recorded missing block is never a layout block, sorted or not |
| Routes.TwoFileArchiveAsWritten | index.js:246 | two files, each one line `\|reg\|f\|` with a different undeclared block: as written the whole request fails |
| Routes.TwoFileArchiveIntended | index.js:230-246 | the same files as intended: 2 files, 2 with missing blocks, 0 with discrepancies, the union of the two blocks in file order |
| Routes.TwoFileUnion | index.js:237-243 | two one-block summaries give the union of both blocks and count 2 files with missing blocks, 0 with discrepancies |
| Routes.TwoFileExample | index.js:213-246 | `a.txt` = `\|C200\|z\|` and `b.txt` = `\|C300\|w\|` against a layout that declares only C100 are such an archive |
| Backlog.BacklogOutcome | validate_backlog.js:107-114 | an entry is an error exactly when the file cannot be read, with that message; otherwise it is the file's report |
| Backlog.BacklogAgreesWithArchive | validate_backlog.js:109 | the backlog's entries are the archive route's entries as intended, and as written whenever a file has fewer than two undeclared blocks |
| Backlog.ValidateBacklogFile | validate_backlog.js:107-114 | the loop body in its `try` computes `BacklogOutcome` |
| Backlog.ValidateBacklogFiles | validate_backlog.js:106-115 | every found file gets its own entry, whatever the other files gave |
| Backlog.RunBacklog | validate_backlog.js:103-115 | the command collects with the given flag and then fills the report |
| Backlog.BacklogReportShape | validate_backlog.js:105-115 | the report has one entry per found file, each once, and an entry is an error exactly when its file could not be read |

## Left out

- HTTP layer (Express, multer, status codes, JSON shapes, static files): not modelled. The
  routes are modelled from the loaded layout and the uploaded lines onwards. Answers are a
  `Result` or an `ArchiveResponse` whose constructors name the status they stand for.
- Reading files (`readline`, streams, latin1 decoding, CRLF handling): not modelled. Lines are
  given decoded, and a read error is a `FileInput.Unreadable` message.
- Loading the layout (`existsSync`, `JSON.parse`, its error answers, `process.exit`): not
  modelled. The layout is a `map<string, seq<string>>`.
- Layout values that are not arrays, and keys a JS object inherits such as `constructor`: not
  modelled, because a Dafny map has neither.
- Object key order: JS enumerates integer-like keys first. So `block_occurrences`,
  `field_count_discrepancies` and `per_file` are modelled as maps, with no order promised;
  `field_count_discrepancies` is that map rather than an array of objects.
- Archive extraction (the unzipper stream, the `unrar` process, `mkdir`, temp-directory naming,
  cleanup, the un-awaited `entry` handlers racing with `walk`): not modelled. The sanitiser's
  decision per entry is `PathPosix.EntryDestination`; the extracted tree is a parameter of
  `Routes.ValidateArchive`.
- Unsupported archive extension (400): not modelled.
- `path.relative(tempDir, f)` as the per-file key: not modelled. Entries are keyed by the
  discovered path, which determines it.
- `path` on Windows: not modelled; only POSIX separators.
- The report's `generated_at` timestamp, argv parsing, the folder check and `writeFileSync` in
  validate_backlog.js: not modelled. The command starts from an `Invocation`.
- The report on the command's output: not modelled; its JSON entry keys (`erro` in the
  archive, `error` in the backlog) are rendering.
- Discovery: facts about discovered paths are stated on the chain of names leading to each
  file (`TxtChains`). `TxtPathsRendered` ties each chain to its `path.join` text.
- The engine's sort algorithm: not modelled. That the as-written comparator throws only for
  two or more elements rests on the engine not calling the comparator for shorter arrays.
- Escaping entries: a zip-slip guard would normally drop an entry that escapes the extraction
  root. This code re-roots such an entry instead: `../a` is written to `<root>/a`. So the drain
  branch at index.js:176-179 is never taken for an absolute extraction directory. The model
  follows the code (`PathPosix.ParentEntriesReRooted`, `PathPosix.NeverDrained`) and proves that
  every destination lies under the root (`PathPosix.DestinationWithinRoot`).

## Findings

| source | as written | input that shows it | evidently intended | confidence | as-written member | corrected member |
|---|---|---|---|---|---|---|
| index.js:126 | `layoutOrder` is a `const` of the inner `try` at line 82, so the comparator throws a ReferenceError and the route answers 500 `falha validacao` | a file with lines `\|C200\|z\|` and `\|C300\|w\|`, neither block in the layout | the missing blocks sorted by `Object.keys(layout)`, which leaves them in first-seen order | not executed | Routes.ValidateLayoutAsWritten | Routes.ValidateLayoutIntended |
| index.js:223 | `layoutOrder` is a `const` of the `try` at line 159, so a file with two or more missing blocks gets `{erro: 'layoutOrder is not defined'}` instead of its summary | one data file with two undeclared blocks | that file's summary, with its missing blocks in first-seen order | not executed | Routes.ArchiveOutcome | Routes.ArchiveOutcomeIntended |
| index.js:246 | the same out-of-scope `layoutOrder` makes the union's sort throw, and the whole request is answered 500 `Falha ao processar archive` | two data files, `\|C200\|z\|` and `\|C300\|w\|`, each with one undeclared block (`Routes.TwoFileExample`) | the aggregate with `unique_missing_blocks` `C200, C300` | not executed | Routes.TwoFileArchiveAsWritten | Routes.TwoFileArchiveIntended |
