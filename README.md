# Email validator demo: the verified core

This project is a Dafny model of the server side of the email-validator demo, plus the list
helper of its browser script. The model proves properties of each part. It covers:

- **The list store (`ListStore`).** `lists.ini` names one list file per section. The store
  reads and writes the index and every file it references. Paths are normalised (`\` becomes
  `/`, one leading `config/` is dropped) and any path containing `..` is refused. A path that
  names the directory itself is refused too, since its real path is the directory, which does
  not lie under `dir/`. A target that exists must also have a real path inside the directory. A target without a real path is used
  as it stands, so the store stays inside the directory only as far as the parent directories
  on that path do.
- **The archive service (`ArchiveService`).**
  - Export bundles `lists.ini` and the referenced files as a ZIP entry list, or as the JSON
    shape of `load` when ZIP support is missing.
  - Import takes a JSON document, which is handed to `save`, or a ZIP archive. The archive's
    entries are guarded by name: `lists.ini` goes to the index, `*.txt` names go to list files,
    everything else is skipped.
- **The token-bucket rate limiter (`RateLimiter`).** It keeps one state file per
  `namespace:key`. Each hit does these steps in order: read or default the state, refill it
  capped at the capacity, admit or deny, stamp the time and write the state back. Failures
  fail open.
- **The suggestion store and its controller.** The store holds one domain per line, trimmed,
  lower-cased, de-duplicated, with comments skipped. The controller decides 415/400/200 from a
  JSON `content` string or a `domains` array.
- **The router.** It keeps separate GET and POST tables. A later registration for a path
  replaces the earlier one. An unknown path answers 404.
- **The `/validate` controller.** Every request is charged one token first. A denial answers
  429 with a `Retry-After` header. Otherwise the address comes from the query (GET) or the JSON
  body (any other method).
- **The browser's "Clean & sort" and entry count.** Comments are stripped and lines trimmed.
  Duplicates are dropped case-insensitively, keeping the first spelling. The lines are sorted
  by a comparator.

## Modelling choices

- **Files.**
  - The disk is a `map<string, string>` from full paths to contents. Directories are implicit
    and separators are `/`.
  - `realpath` is an oracle `canon` that applies to existing files only. A path under `dir/`
    whose remaining part holds only `.` and `/` names the directory itself. Its real path is
    the directory without a trailing separator: `/` when the directory is the root, and a
    path outside `dir/` otherwise.
  - A file is a key of the map, spelled as its path. Spellings that the file system treats as
    one file (`a.txt`, `./a.txt`) are different keys.
  - `parse_ini_string` is an oracle from text to an optional list of sections.
- **The limiter's state files.**
  - They are a `map<string, Option<Bucket>>`. `None` is a file that exists but holds no usable
    state.
  - `sha256` is an uninterpreted `hash`.
  - The clock (`now`) and whether `fopen` succeeds (`canOpen`) are parameters.
  - Tokens and time are `real`.
- **JSON.** JSON values are a datatype. `json_encode`/`json_decode` are not modelled: the
  model works on decoded values.
- **The browser code.**
  - `toLowerCase` is an oracle `lower` and `localeCompare` an oracle comparator `cmp`.
  - The JavaScript sort is stable, so for a consistent comparator its result equals the stable
    insertion sort used here.
- **Handlers and external calls.**
  - Route handlers are values of a type parameter, run by a `call` function.
  - The email validator (`validate`) and the rate-key provider (`rateKey`) are functions
    supplied by the caller.
- **Loops.** Each loop of the source is a method with a loop. It is proved equal to a
  recursive function, and the properties are lemmas about that function. This covers `load`,
  `save`, `refsFromIni`, the import entry loop, the export loop, `SuggestionStore::load` and
  `cleanList`.
  The import entry loop works on a local copy of the disk and stores it back on both exits, on
  success and on the first failed write. The disk after the call is the same as with writes in
  place.
- **Behaviours the model keeps, as the code has them.**
  - A division by a zero refill rate throws inside `hit`'s `try`, so the hit fails open.
  - `fopen(..., 'c+')` creates a missing state file even when the later write does not happen.
  - PCRE's `$` also matches before a final newline, so a ZIP entry named `a.txt\n` passes the
    `.txt` pattern.
  - The import guard refuses only `../`. A name such as `a..txt` passes the guard and the
    pattern, then makes `resolve` throw. Entries written before it stay written.
  - A list file whose path is `lists.ini` is written over the index that `save` wrote just
    before.
  - `save` normalises a path and `resolve` normalises it again, so `config/config/x` lands at
    `x`.
  - A `domains` array item reaches the store's typed closure through `array_map`, which coerces
    integers and booleans to strings. Any other item throws a `TypeError` before anything is
    written.

## Model

| member | source | states |
|---|---|---|
| Store.ListStore.constructor | src/Demo/Service/ListStore.php:17-20 | The configuration directory is kept with trailing separators removed. |
| Store.ListStore.IniPath | src/Demo/Service/ListStore.php:26-29 | The index path is the directory followed by `/lists.ini`: it starts with `dir/`, ends with `lists.ini` and is exactly 10 characters longer than `dir`. |
| Store.NormalizeRel | src/Demo/Service/ListStore.php:140-150 | Succeeds exactly when the path has no `..` anywhere. The result has no `..` and no `\`. It is the path with separators unified, minus at most one leading `config/`. |
| Store.SaveNormalisesTwice | src/Demo/Service/ListStore.php:63-64 | For any path `x` without `..`, normalising `config/config/x` twice, as `save` and then `resolve` do, strips both `config/` prefixes and turns backslashes into separators. |
| Store.Resolve | src/Demo/Service/ListStore.php:120-133 | Every accepted path starts with `dir/`. A path containing `..` is refused. |
| Store.ResolveTail | src/Demo/Service/ListStore.php:122-124 | The part `resolve` puts after `dir/` has no `..` and no leading separator. |
| Store.DirItself | src/Demo/Service/ListStore.php:125-131 | A path naming the directory itself resolves exactly when the directory is the root, and then to `/`. |
| Store.ResolveDirItself | src/Demo/Service/ListStore.php:122-131 | A path naming the directory itself (`''`, `/`, `.`, `config/`, `./` and the like) throws `Path escapes config dir`, except under the root, whatever the disk holds. |
| Store.DirNamesRefused | src/Demo/Service/ListStore.php:120-133 | Under a directory other than the root, `''`, `/`, `.` and `config/` each throw `Path escapes config dir`, with the normalised path in the message. |
| Store.ResolveNew | src/Demo/Service/ListStore.php:122-131 | A target that does not exist resolves to `dir/` plus the normalised path with leading separators removed, unless it names the directory itself. |
| Store.ResolveExisting | src/Demo/Service/ListStore.php:122-132 | An existing target that is not the directory itself resolves to its real path when that lies under `dir/`. Otherwise it throws `Path escapes config dir`. |
| Store.ResolveInside | src/Demo/Service/ListStore.php:120-133 | When no real path of a file lies outside the directory, a path resolves exactly when it has no `..` and does not name the directory itself (the root excepted). |
| Store.LastCharNamesFile | src/Demo/Service/ListStore.php:122-124 | A path whose last character is not `.`, `/` or `\` does not name the directory itself. |
| Store.NormalizeKeepsLastChar | src/Demo/Service/ListStore.php:140-150 | Normalising keeps a last character that is not a separator. |
| Store.ListFileNameLastWins | src/Demo/Service/ListStore.php:103-104 | A section's `listFileName` is found exactly when some key spells it in any case. Its value is the last such key's value. |
| Store.ListFileNameIgnoresCase | src/Demo/Service/ListStore.php:103-104 | A key spelled `listFileName` in any case supplies the file name. |
| Store.RefPathStripsConfigPrefix | src/Demo/Service/ListStore.php:104-107 | One leading `config/` or `config\` is removed from the referenced path, and no more. |
| Store.RefsOf | src/Demo/Service/ListStore.php:99-111 | The section→path map has each section at most once. |
| Store.RefsOfSections | src/Demo/Service/ListStore.php:99-111 | Every reference comes from a section that names a non-empty path, and every such section is referenced. Top-level values and empty names are skipped. |
| Store.RefsOfListsSections | src/Demo/Service/ListStore.php:99-111 | With distinct section names, the map holds the naming sections in order, one pair each. |
| Store.ListedElements | src/Demo/Service/ListStore.php:99-111 | The reference list holds exactly the sections that name a non-empty path. |
| Store.RefsOfText | src/Demo/Service/ListStore.php:88-113 | Empty or unparsable index text gives no references. Otherwise the references are exactly the naming sections, each once. |
| Store.ListStore.RefsFromIni | src/Demo/Service/ListStore.php:88-113 | The section loop computes exactly the reference map. |
| Store.LoadFilesOk | src/Demo/Service/ListStore.php:42-46 | `load` succeeds exactly when every reference resolves. |
| Store.LoadFilesLength | src/Demo/Service/ListStore.php:42-46 | `load` returns one file per reference. |
| Store.LoadFilesAt | src/Demo/Service/ListStore.php:42-46 | File `i` has reference `i`'s section and path, the resolved full path, and that file's content ('' when missing). |
| Store.LoadFilesSpec | src/Demo/Service/ListStore.php:42-46 | The same as LoadFilesAt, for every reference at once, plus the length. |
| Store.LoadFilesRefusesDotDot | src/Demo/Service/ListStore.php:43 | One reference containing `..` makes `load` throw. |
| Store.LoadFilesStep | src/Demo/Service/ListStore.php:42-46 | One loop step either stops with the resolution error or appends the file and continues. |
| Store.LoadReadsReferences | src/Demo/Service/ListStore.php:36-48 | `load` returns the index text. Its files have the references' keys and paths. It throws when any reference contains `..`. |
| Store.LoadMissingIndex | src/Demo/Service/ListStore.php:38-39 | A missing index loads as '' with no files. |
| Store.ListStore.Load | src/Demo/Service/ListStore.php:36-48 | The method's result is the specified `load` result. |
| Store.ListStore.ReadFiles | src/Demo/Service/ListStore.php:41-46 | The file loop computes the specified per-reference result, stopping at the first failure. |
| Store.SaveTarget | src/Demo/Service/ListStore.php:63-64 | `save`'s target for an entry lies under `dir/`. A path containing `..` is refused. |
| Store.WriteFiles | src/Demo/Service/ListStore.php:62-69 | The file loop writes at most one file per entry and completes exactly when it wrote one per entry. Each file it wrote exists afterwards, every file it did not write keeps its content, and every file on disk afterwards was there before or was written. |
| Store.WriteFilesContent | src/Demo/Service/ListStore.php:62-69 | A written file that no later entry of the same call writes again holds its own entry's content. |
| Store.SaveTargetIs | src/Demo/Service/ListStore.php:120-133 | An entry goes to `dir/` plus its path normalised twice with leading separators removed, or, when that file exists, to its real path. An entry naming the directory is accepted only under the root, and goes to `/`. |
| Store.SaveTargetRefuses | src/Demo/Service/ListStore.php:120-151 | A path containing `..` is refused with `normalizeRel`'s error for it. A path naming the directory itself (not the root) is refused with `Path escapes config dir`. |
| Store.SaveTargetInside | src/Demo/Service/ListStore.php:63-64 | When no real path of a file lies outside the directory, an entry is accepted exactly when it is not refused for `..` or for naming the directory. |
| Store.WriteFilesTargets | src/Demo/Service/ListStore.php:62-69 | The `i`-th file written is the target of the `i`-th entry. |
| Store.WriteFilesFailsAt | src/Demo/Service/ListStore.php:62-69 | When the loop throws, the entry it stopped at is the first one it did not write, and the exception is the one that entry's target gives on the disk the loop leaves, which is the disk as it was when that entry was reached. |
| Store.WriteFilesStopAt | src/Demo/Service/ListStore.php:62-69 | An entry refused on every disk stops the loop at or before it, and exactly there when every earlier entry is accepted. |
| Store.WriteFilesReachUnsafePath | src/Demo/Service/ListStore.php:62-69 | When no real path of a file lies outside the directory, the loop writes exactly the entries before the first refused one (with `..`, or naming the directory) and throws that entry's error. |
| Store.SaveWrites | src/Demo/Service/ListStore.php:55-70 | After `save`, whether or not it threw: the disk holds only the old files, the index and the written files. The index holds the saved text unless a list file went over it. Each other old file is unchanged. The `i`-th written file is the `i`-th entry's target and, unless a later entry overwrote it, holds that entry's content. |
| Store.WriteFilesAllTargets | src/Demo/Service/ListStore.php:62-69 | Every written file is the target of the entry at the same position. |
| Store.WriteFilesAllContent | src/Demo/Service/ListStore.php:62-69 | Every written file that no later entry writes again holds its entry's content. |
| Store.WriteFilesUnderDir | src/Demo/Service/ListStore.php:62-69 | Every file `save` writes lies under `dir/`. |
| Store.WriteSingleFile | src/Demo/Service/ListStore.php:63-68 | An entry whose target resolves writes its content there and nothing else. Section keys play no part. |
| Store.SaveStopsAtUnsafePath | src/Demo/Service/ListStore.php:60-69 | A refused entry (with `..`, or naming the directory) throws after the index was written, and the index holds the saved text unless an earlier entry went over it. At most the files before it were written. When no real path lies outside the directory and no earlier entry is refused, exactly those files were written and the error is the refused entry's. |
| Store.WriteFilesStopsAtUnsafePath | src/Demo/Service/ListStore.php:62-69 | At most the files before the first refused entry are written. |
| Store.SaveThenLoadIndex | src/Demo/Service/ListStore.php:55-70 | Unless an entry is written to the index path, `load().ini` afterwards equals the saved index, whether or not `save` threw. |
| Store.NormalizeIndexName | src/Demo/Service/ListStore.php:140-150 | `lists.ini` normalises to itself. |
| Store.IndexNameResolvesToIndex | src/Demo/Service/ListStore.php:120-133 | A list file path `lists.ini` resolves to the index file itself. |
| Store.ExistingNameResolvesToItself | src/Demo/Service/ListStore.php:120-133 | A normalised existing name that does not name the directory resolves to `dir/` plus that name. |
| Store.SaveCanOverwriteIndex | src/Demo/Service/ListStore.php:60-68 | A list file saved under the path `lists.ini` replaces the index written just before. |
| Store.ListStore.Save | src/Demo/Service/ListStore.php:55-70 | The new disk and the thrown error are those of the specified `save`. |
| Store.ListStore.ReferencedRelPaths | src/Demo/Service/ListStore.php:77-81 | Returns the values of the reference map of the stored index, in section order. |
| Store.ReferencedPathsMatchLoad | src/Demo/Service/ListStore.php:77-81 | When `load` succeeds, the referenced paths are the paths of its files, in the same order. |
| Archive.ExportEntries | src/Demo/Service/ArchiveService.php:41-50 | The archive's first entry is `lists.ini`. The entries have distinct names: `lists.ini` plus exactly the referenced paths. |
| Archive.ExportErrorSticks | src/Demo/Service/ArchiveService.php:46-50 | Once a reference fails to resolve, the export fails with that error. |
| Archive.ExportOk | src/Demo/Service/ArchiveService.php:46-50 | The archive is built exactly when every reference resolves. |
| Archive.ExportContents | src/Demo/Service/ArchiveService.php:46-50 | Every entry after the first holds its referenced file's content, or '' when the file is missing. |
| Archive.ExportIndexContent | src/Demo/Service/ArchiveService.php:41-50 | The `lists.ini` entry holds the index ('' when missing), unless a reference is itself named `lists.ini` and overwrites it. |
| Archive.ExportMatchesLoad | src/Demo/Service/ArchiveService.php:41-50 | The archive fails exactly when `load` fails. Every file `load` returns is in the archive under its path with its content. |
| Archive.ExportFollowsLoad | src/Demo/Service/ArchiveService.php:23-61 | Without ZIP support the export is `email-lists.json`, `application/json`, holding `load`'s `ini` and `files`. Otherwise it fails when the archive cannot be created. Else it is `email-lists.zip`, `application/zip`, starting with `lists.ini` and holding every loaded file. |
| Archive.ArchiveService.ExportZip | src/Demo/Service/ArchiveService.php:23-61 | The method's result is the specified export. |
| Archive.CleanName | src/Demo/Service/ArchiveService.php:104-105 | A normalised entry name has no `\` and does not start with `/`. |
| Archive.EntryAction | src/Demo/Service/ArchiveService.php:98-125 | An entry is written as a list file only when its name is not empty, has no `../` and matches the `.txt` pattern. |
| Archive.EntryActionRoutes | src/Demo/Service/ArchiveService.php:98-126 | A readable entry whose cleaned name is kept goes to the index when that name is `lists.ini` in any case, to a list file under its cleaned name when it matches the pattern, and is skipped otherwise. What is written is the entry's content. |
| Archive.ActionsAccepted | src/Demo/Service/ArchiveService.php:97-132 | The list files the loop is asked to write are the archive's list entries, with cleaned names and contents, in archive order. |
| Archive.ActionsIndex | src/Demo/Service/ArchiveService.php:112-120 | The loop is asked to write the index exactly when some entry is routed to it. |
| Archive.LastIndexContent | src/Demo/Service/ArchiveService.php:112-120 | There is a last index entry exactly when there is an index entry. |
| Archive.ImportActions | src/Demo/Service/ArchiveService.php:97-132 | The loop writes at most one file per entry. `ini` once set stays set. |
| Archive.ImportUnderDir | src/Demo/Service/ArchiveService.php:126-130 | Every list file the import writes lies under `dir/`. |
| Archive.ImportFrame | src/Demo/Service/ArchiveService.php:97-132 | The loop adds no file besides the index and the files it wrote. Every old file stays, and each one it did not write keeps its content (the index only if no index entry came along). |
| Archive.ImportFileContent | src/Demo/Service/ArchiveService.php:126-131 | The `i`-th written list file holds the `i`-th list entry's content, unless a later entry went to the same file. |
| Archive.ImportIndexContent | src/Demo/Service/ArchiveService.php:112-120 | After a run without exception, the index holds the last index entry's content, unless a list file was written over it. |
| Archive.AcceptedCount | src/Demo/Service/ArchiveService.php:123-131 | The number of accepted list files is at most the number of entries. |
| Archive.ImportCounts | src/Demo/Service/ArchiveService.php:94-135 | Without an exception the loop writes exactly one file per accepted entry. `ini` is true exactly when an index entry is present. |
| Archive.ImportStopsAtDotDot | src/Demo/Service/ArchiveService.php:123-126 | An accepted name containing `..` makes the import throw. Exactly the accepted entries before it have been written, when their names are of the pattern's form. |
| Archive.ImportStopAt | src/Demo/Service/ArchiveService.php:97-132 | A list-file entry refused on every disk makes the loop throw there, after exactly the accepted entries before it, when each of those is accepted on every disk. |
| Archive.TxtNameNamesFile | src/Demo/Service/ArchiveService.php:123 | A name the `.txt` pattern accepts never names the directory itself. |
| Archive.TxtNameResolves | src/Demo/Service/ArchiveService.php:123-126 | When no real path lies outside the directory, a name of the pattern's form without `..` resolves. |
| Archive.DotDotNameAccepted | src/Demo/Service/ArchiveService.php:104-126 | `a..txt` passes the name guard and the pattern, and still contains `..`. |
| Archive.TrailingNewlineAccepted | src/Demo/Service/ArchiveService.php:123 | `a.txt` followed by a newline matches the pattern although the name itself is not of the pattern's form. |
| Archive.ImportJson | src/Demo/Service/ArchiveService.php:72-83 | A non-array JSON document throws `Invalid JSON` and writes nothing. Otherwise the result is `save`'s: on success, `ini = true`, `files` = the number of supplied entries, and the index exists. Whether or not `save` threw, the disk afterwards is the one `save` leaves. |
| Archive.ImportZip | src/Demo/Service/ArchiveService.php:85-135 | Without ZIP support, or when the archive cannot be opened, the import throws and writes nothing. On success, `files` is the number of accepted entries (at most the number of entries), which is the number of entries routed to list files, and `ini` is true exactly when some entry is routed to the index. |
| Archive.ArchiveService.ImportFromUpload | src/Demo/Service/ArchiveService.php:70-136 | The result and the new disk are those of the specified import. |
| Archive.ArchiveService.ImportEntries | src/Demo/Service/ArchiveService.php:94-135 | The entry loop's result and the new disk are those of the specified loop. |
| Limiter.Current | src/Demo/Service/RateLimiter.php:62-67 | A missing or unusable state is a full bucket stamped `now`. A usable one is taken as stored. |
| Limiter.Refill | src/Demo/Service/RateLimiter.php:70-74 | The refilled tokens are at most the capacity and, with a non-negative rate, never fewer than before. A clock that went back earns nothing. |
| Limiter.Decide | src/Demo/Service/RateLimiter.php:77-87 | Admits exactly when tokens ≥ cost, subtracting exactly the cost with retry 0. A denial keeps the tokens, and retry × rate = the missing tokens (> 0 when rate > 0). A zero rate on a denial throws and fails open. The stamp is `now`. |
| Limiter.HitOf | src/Demo/Service/RateLimiter.php:43-110 | A hit touches only its own state file. |
| Limiter.HitAdmits | src/Demo/Service/RateLimiter.php:70-102 | With a positive rate a hit is admitted exactly when the refilled tokens cover the cost. The state written is stamped `now`, holding the tokens minus the cost (admitted) or unchanged (denied, with positive retry). |
| Limiter.HitFailsOpen | src/Demo/Service/RateLimiter.php:48-51 | A hit that cannot open its file, or that divides by a zero rate, answers `(true, 0.0)`. No state is rewritten; a missing file may be left created and empty. |
| Limiter.ZeroRefillAllowsEveryHit | src/Demo/Service/RateLimiter.php:80-86 | With a refill rate of zero every hit is allowed. |
| Limiter.HitKeepsBounds | src/Demo/Service/RateLimiter.php:70-87 | A stored state with 0 ≤ tokens ≤ capacity keeps that bound after a hit. |
| Limiter.RunAdmitsAtMostTheTokens | src/Demo/Service/RateLimiter.php:70-87 | With the clock fixed, the total cost admitted over a run of hits on one key is at most the tokens at the start. |
| Limiter.RateLimiter.constructor | src/Demo/Service/RateLimiter.php:28-37 | The storage directory is kept with trailing separators removed. |
| Limiter.RateLimiter.FileForKey | src/Demo/Service/RateLimiter.php:112-116 | The state file is a `.json` file directly in the storage directory: `dir/`, a 64-character hex digest, `.json`, and no `/` after `dir`. |
| Limiter.RateLimiter.Hit | src/Demo/Service/RateLimiter.php:43-110 | The answer and the new state files are those of the specified hit. |
| Limiter.NamespacesShareBuckets | src/Demo/Service/RateLimiter.php:114 | The file depends only on the directory, the hash and `namespace:key`, so any two limiters agreeing on these share a bucket (namespace `api` with key `v:x` and namespace `api:v` with key `x`, for instance). |
| Suggestions.SuggestionStore.constructor | src/Demo/Service/SuggestionStore.php:9-12 | The directory is kept with trailing separators removed. |
| Suggestions.SuggestionStore.Path | src/Demo/Service/SuggestionStore.php:14-17 | The file is `suggestions.txt` directly in the directory. |
| Suggestions.Normalize | src/Demo/Service/SuggestionStore.php:29 | Normalising never lengthens a domain. |
| Suggestions.NormalizeIsNormal | src/Demo/Service/SuggestionStore.php:29 | A normalised domain is trimmed and in lower case, and normalising it again changes nothing. |
| Suggestions.NormalizeNoLineBreak | src/Demo/Service/SuggestionStore.php:44 | Normalising introduces no line break. |
| Suggestions.Domains | src/Demo/Service/SuggestionStore.php:28-34 | The line loop keeps at most one domain per line. |
| Suggestions.DomainsAreClean | src/Demo/Service/SuggestionStore.php:28-34 | Every domain kept is trimmed, lower case, not empty and does not start with `#`. |
| Suggestions.DomainsAppend | src/Demo/Service/SuggestionStore.php:28-34 | The loop over two runs of lines is the loop over each, concatenated. |
| Suggestions.DomainsOfNormalized | src/Demo/Service/SuggestionStore.php:28-44 | Normalising the lines first changes nothing about the domains kept. |
| Suggestions.Unique | src/Demo/Service/SuggestionStore.php:35 | The de-duplicated list has the same elements as the input, none twice. |
| Suggestions.FirstIndex | src/Demo/Service/SuggestionStore.php:35 | Gives the position of the first occurrence. |
| Suggestions.UniqueKeepsFirstOrder | src/Demo/Service/SuggestionStore.php:35 | The de-duplicated list keeps the order of first occurrence. |
| Suggestions.LoadedDomainsAreClean | src/Demo/Service/SuggestionStore.php:20-36 | A missing file loads as no domains. Every loaded domain is trimmed, lower case, not empty, not a comment, and none appears twice. |
| Suggestions.SuggestionStore.Load | src/Demo/Service/SuggestionStore.php:20-36 | The method's result is the specified `load` of the store's file. |
| Suggestions.NormalizeAllIsNormal | src/Demo/Service/SuggestionStore.php:44 | Every domain `save` writes is normal (trimmed and lower-case), so normalising the list again changes nothing. |
| Suggestions.SplitJoinedLines | src/Demo/Service/SuggestionStore.php:26-44 | Splitting a newline-terminated join of lines without line breaks gives the lines and one empty tail. |
| Suggestions.SavedLinesHoldTheDomains | src/Demo/Service/SuggestionStore.php:26-44 | The lines of the saved text yield the same domains as the saved list. |
| Suggestions.EmptySaveHasNoDomains | src/Demo/Service/SuggestionStore.php:44 | Saving no domains writes a lone newline, which yields no domains. |
| Suggestions.SaveThenLoad | src/Demo/Service/SuggestionStore.php:26-45 | When no domain holds a line break, loading what `save` wrote gives the de-duplicated normalised domains, minus empty and comment lines. |
| Suggestions.SuggestionStore.Save | src/Demo/Service/SuggestionStore.php:39-46 | The store's file afterwards holds the saved text and nothing else changes. |
| SuggestionsApi.ContentLines | src/Demo/Controller/SuggestionsController.php:40-41 | Every kept line of `content` is trimmed, not empty and not a comment, and there are at most as many as lines. |
| SuggestionsApi.ContentLinesOne | src/Demo/Controller/SuggestionsController.php:40-41 | One line contributes its trimmed form exactly when that is not empty and not a comment, and nothing otherwise. |
| SuggestionsApi.ContentLinesAppend | src/Demo/Controller/SuggestionsController.php:40-41 | Lines are processed one after the other: the kept lines of `a + b` are those of `a` followed by those of `b`, so all qualifying lines are kept, in order. |
| SuggestionsApi.ContentLinesKeepEvery | src/Demo/Controller/SuggestionsController.php:40-41 | Every line that is not empty and not a comment once trimmed is kept, trimmed. |
| SuggestionsApi.ContentKeepsCleanLines | src/Demo/Controller/SuggestionsController.php:40-41 | Lines that are already clean pass unchanged: no lowering and no de-duplication. |
| SuggestionsApi.AsDomains | src/Demo/Controller/SuggestionsController.php:43 | A `domains` array is taken whole, item by item, exactly when every item can be taken as a string. |
| SuggestionsApi.SaveDecisionOf | src/Demo/Controller/SuggestionsController.php:29-46 | 415 exactly when there is no JSON body. Any other rejection is 400. |
| SuggestionsApi.ContentTakesPrecedence | src/Demo/Controller/SuggestionsController.php:39-43 | A string `content` decides the list whatever `domains` holds. |
| SuggestionsApi.MissingListIsRejected | src/Demo/Controller/SuggestionsController.php:39-46 | A JSON request is rejected (400) exactly when it has neither a string `content` nor an array `domains`. |
| SuggestionsApi.ReportedCountBoundsStoredDomains | src/Demo/Controller/SuggestionsController.php:48-49 | The reported count is the length of the list handed to `save`. When no item holds a line break, loading it back gives no more domains than that. |
| SuggestionsApi.SuggestionsController.Get | src/Demo/Controller/SuggestionsController.php:18-26 | 200 with the path, the loaded domains and their number. |
| SuggestionsApi.SuggestionsController.Save | src/Demo/Controller/SuggestionsController.php:29-50 | Rejections leave the file alone. Otherwise the list is saved and its length reported. An item the store cannot take throws before writing. |
| Routing.Router.constructor | src/Demo/Http/Router.php:13-15 | Both tables start empty. |
| Routing.Router.Get | src/Demo/Http/Router.php:23-26 | Registers or replaces the GET handler of a path. The POST table is unchanged. |
| Routing.Router.Post | src/Demo/Http/Router.php:34-37 | Registers or replaces the POST handler of a path. The GET table is unchanged. |
| Routing.RouteIn | src/Demo/Http/Router.php:47-48 | Only the method `POST`, exactly, selects the POST table. Every other method selects the GET table. |
| Routing.TablesAreSeparate | src/Demo/Http/Router.php:23-47 | Registering in one table never changes dispatch for requests that use the other. |
| Routing.LastRegistrationWins | src/Demo/Http/Router.php:23-37 | A second registration for a path replaces the first. Other paths keep their handlers. |
| Routing.Router.Dispatch | src/Demo/Http/Router.php:45-52 | A registered path yields its handler's response. Otherwise the answer is 404 with body `Not found\n` and the single header `Content-Type: text/plain; charset=utf-8`. |
| Validation.Ceil | src/Demo/Controller/ValidationController.php:60 | Gives the least integer not below the delay. |
| Validation.RetryAfterSeconds | src/Demo/Controller/ValidationController.php:61 | `max(1, ceil(retry))`: at least one and at least the delay. |
| Validation.TooManyRequests | src/Demo/Controller/ValidationController.php:57-63 | Status 429, the JSON content type, `Retry-After = max(1, ceil(retry))`, and a body carrying the key and `retryAfter = ceil(retry)`. |
| Validation.EmailOf | src/Demo/Controller/ValidationController.php:66-67 | GET reads a non-empty query `email`. Any other method reads a non-empty string `email` from the JSON body. Anything else is absent. |
| Validation.EmailSourceFollowsMethod | src/Demo/Controller/ValidationController.php:66 | A GET request's address does not depend on its body. Any other request's address does not depend on its query. |
| Validation.Answer | src/Demo/Controller/ValidationController.php:57-73 | 429 exactly on denial. 400 exactly when admitted without an address. 200 with the validator's result exactly when admitted with one. |
| Validation.DeniedHitReportsOneDelay | src/Demo/Controller/ValidationController.php:57-63 | With a positive refill rate the body's `retryAfter` and the header agree and are at least one. |
| Validation.ValidationController.Handle | src/Demo/Controller/ValidationController.php:49-74 | One token is charged to the request's key before the address is read, even when the address is missing. The answer is Answer's for that hit. |
| ListsEditor.AfterComment | public/app.js:263 | What survives after a `#` is a suffix of the line that starts at the first line terminator: the part before it holds none, and the suffix is empty or starts with one. So nothing survives on a single line. |
| ListsEditor.StripComment | public/app.js:263 | Comment removal never lengthens a line. |
| ListsEditor.StripCommentWithoutHash | public/app.js:263 | A line without `#` is left unchanged. |
| ListsEditor.StripCommentCutsAtHash | public/app.js:263 | On a single line, exactly the text before the first `#` is kept. |
| ListsEditor.StripCommentKeepsChars | public/app.js:263 | Every character left comes from the line. |
| ListsEditor.Entries | public/app.js:262-265 | At most one entry per line, none empty. |
| ListsEditor.NonEmpty | public/app.js:325 | Keeps the non-empty strings. |
| ListsEditor.CountSeesTheEntries | public/app.js:321-325 | The count's map-and-filter sees exactly the entries `cleanList` sees, so the count is their number. |
| ListsEditor.DedupIsKeyedByLowering | public/app.js:266-268 | `seen` has distinct keys, each the lowered spelling it holds, and no more entries than lines. |
| ListsEditor.DedupCoversEvery | public/app.js:266-268 | Every entry's lowered form is a key of `seen`. |
| ListsEditor.DedupKeepsFirstSpelling | public/app.js:266-268 | Each kept spelling is an entry with no earlier entry of the same lowered form. |
| ListsEditor.DedupIsCaseDistinct | public/app.js:266-270 | No two kept spellings lower to the same key. |
| ListsEditor.DedupOfCaseDistinct | public/app.js:266-268 | Case-distinct entries pass `seen` whole and in order. |
| ListsEditor.Insert | public/app.js:270-271 | One insertion step adds exactly the inserted line. |
| ListsEditor.Sort | public/app.js:270-271 | The sorted lines are a permutation of the input. |
| ListsEditor.SortIsSorted | public/app.js:270-271 | For a comparator consistent on swapped arguments, the sorted lines are in comparator order. |
| ListsEditor.SortKeepsSorted | public/app.js:270-271 | Lines already in order stay where they are. |
| ListsEditor.SortKeepsCaseDistinct | public/app.js:270-271 | Sorting keeps a case-distinct list case-distinct. |
| ListsEditor.CleanLinesAreSortedAndDistinct | public/app.js:262-272 | The cleaned lines are in comparator order, no two are equal ignoring case, and there are at most as many as counted entries. |
| ListsEditor.CleanLineIsFirstSpelling | public/app.js:266-270 | Every cleaned line is an entry of the text in its first-seen spelling. |
| ListsEditor.CleanKeepsEveryEntry | public/app.js:266-270 | Every entry of the text is represented by a cleaned line with the same lowered form. |
| ListsEditor.EntryIsClean | public/app.js:263-265 | A non-empty entry of a single line is trimmed, has no `#` and is not empty. |
| ListsEditor.CleanIsOwnEntry | public/app.js:263-264 | A clean line is its own entry. |
| ListsEditor.EntriesAreClean | public/app.js:262-265 | All entries of single lines are clean. |
| ListsEditor.EntriesOfCleanLines | public/app.js:262-265 | Clean lines are their own entries, all of them kept. |
| ListsEditor.SplitLinesHaveNoTerminator | public/app.js:260 | Splitting on `\n` a text whose only line terminator is `\n` gives single lines. |
| ListsEditor.EntryAvoidsNewline | public/app.js:262-265 | An entry of lines without `\n` has no `\n`. |
| ListsEditor.CleanOutputSplitsIntoLines | public/app.js:270-272 | Output lines are joined with `\n`, so the output splits back into them. An empty result is ''. |
| ListsEditor.CleanIsIdempotent | public/app.js:259-273 | Cleaning a cleaned text changes nothing. |
| ListsEditor.CleanList | public/app.js:259-273 | The loop over the lines filling `seen`, followed by sort and join, computes the specified cleaned text. |

## Left out

- Locking and concurrency: `flock`, `ftruncate`/`rewind`/`fflush`, and two processes charging one bucket. A hit is one sequential step.
- `microtime`, IEEE-754 rounding and float formatting: time and tokens are exact reals, and `now` is a parameter.
- The `json_encode` failure fallback of `hit` (the `sprintf` branch): the state is written as a value.
- Throwables inside `hit` other than the division by a zero refill rate.
- `sha256`: an uninterpreted `hash` of `namespace:key`.
- The ZIP container format, `tempnam`, `unlink` and the export's temporary file: an archive is its list of entries.
- The JSON fallback's encoding: the export is the pair `ini`/`files` as values.
- `parse_ini_string` and `realpath`: oracles, as described above.
- Failures of `mkdir`, `file_put_contents` and `file_get_contents`: every write and read succeeds. Directory creation is implicit.
- Casts inside the JSON import: `(string)` of a non-string `ini` and `(array)` of `files` whose items are not path/content records. A JSON document is either not an array or an index text plus a list of entries.
- The validation controller's `listsFactory` and `suggestionsFactory` calls: they are external code, and their results only reach the validator, which is the `validate` function.
- Query parameters given as arrays (`email[]=`): the query is a list of string pairs.
- What route handlers do: they are run by `call`, and their effects are theirs.
- Invalid UTF-8 and PCRE's failure on it (`preg_split` returning false): strings are sequences of characters.
- `toLowerCase` and `localeCompare`: the oracles `lower` and `cmp`. Sort stability under a comparator that contradicts itself is not modelled.
- An export followed by an import is not proved to restore the store, because it does not in general. The import writes only `.txt` names matching the pattern, so other referenced files are dropped, and it throws on names with `..` that `load` would also refuse.
- Limiter.HitKeepsBounds: also assumes a non-negative refill rate, because a negative rate can drain a bucket below zero.
- Limiter.RunAdmitsAtMostTheTokens: assumes a positive refill rate and non-negative costs. With a zero rate every hit is admitted (ZeroRefillAllowsEveryHit).
- Staying inside the configuration directory when `realpath` fails: `resolve` returns the joined path unchecked when it has no real path. A new file under a subdirectory that is a symbolic link to elsewhere is therefore written outside the directory. The model proves only that such a path starts with `dir/` as a string; directories and links are not modelled.
- JSON floats: the JSON values of the model have no floats. A float in `domains`, which `array_map` hands to the store's closure as a string such as `1.5`, is not modelled. A float `email` fails `is_string` and is answered 400, as an integer is.
- SuggestionsApi.ReportedCountBoundsStoredDomains: the bound on the domains loaded back assumes that no item holds a line break. An item with one is saved as several lines and can load back as more domains than were reported.
- Store.SaveStopsAtUnsafePath: the exact count of files written and the exact error are proved only when no real path lies outside the directory. Otherwise an earlier entry can throw first, and only the upper bound holds.
- Store.WriteFilesStopsAtUnsafePath: states only the upper bound, since it allows earlier refused entries and escaping real paths. WriteFilesReachUnsafePath gives the exact count and error when there are neither.
- Store.Resolve: the configuration directory is taken to exist whenever a path naming it is resolved. That holds after `save` created it and whenever `lists.ini` exists. For a missing directory `realpath` fails and PHP would return the joined path.
- Store.ResolveNew: a path naming an existing subdirectory is treated as a path with no real path, because directories are implicit. PHP resolves it to the subdirectory's real path, and writing a file there fails.
- Store.WriteFilesContent: "the same file" means the same spelling. Two entries of one call that name one file by different spellings (`a.txt` and `./a.txt`, or a doubled `/`) are two keys here. PHP writes one file, which ends with the later content, while the model keeps both keys.
- Store.SaveWrites: the frame and the last-write content hold per spelling, for the reason given for WriteFilesContent.
- Archive.ImportFileContent: the last-write content holds per spelling, for the reason given for Store.WriteFilesContent.
- Archive.ImportFileContent: does not decide the content of a list file that resolves to the index path (through a symbolic link) when the archive also holds an index entry.
- Archive.ImportIndexContent: covers only runs without an exception. A run that throws before its last index entry leaves an earlier index.
- Archive.ImportStopsAtDotDot: assumes no real path escapes the directory. Otherwise an earlier entry can throw first.
- Store.SaveThenLoadIndex: assumes no list file is written to the index path (SaveCanOverwriteIndex shows what happens then).
- Suggestions.SaveThenLoad: assumes no domain holds a line break, as a break would split one domain into several.
- ListsEditor.CleanLinesAreSortedAndDistinct: the order part assumes the comparator gives opposite signs on swapped arguments.
- ListsEditor.CleanIsIdempotent: assumes such a comparator, and a text whose only line terminator is `\n`. A `\r`, U+2028 or U+2029 ends the `#` comment early, so a second pass can strip more.
- Validation.DeniedHitReportsOneDelay: assumes a positive refill rate; with a zero rate no hit is denied.
