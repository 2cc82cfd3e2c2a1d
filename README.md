# Board-game database: harvesters, slug migration and catalog checks in Dafny

This project models the data-handling core of the board-game database
repository and proves properties of that model. The repository keeps a master
catalog of board games (`master_list.csv` / `master_list.yaml`), one YAML file
per researched game, and an `images/` folder. The modelled core is:

- **ID-sweep harvester** (`scripts/scrape_bgg.py`, module `BggSweep`, class
  `Harvester`). It resumes after the saved cursor `last_id` and sweeps at most
  RUN_LIMIT IDs in batches of BATCH. Each batch is fetched through a five-attempt
  retry loop and parsed into rows. The rows are appended to the CSV, and only
  then is the cursor saved.
- **Paginated harvester** (`scripts/scrape_wikidata.py`, module
  `WikidataPager`, class `Pager`). Each run fetches one page and drops
  placeholder labels. It de-duplicates by `(name, bgg_id)` with the first
  occurrence kept. It advances `offset` by PAGE_SIZE and sets `done` when fewer
  than PAGE_SIZE rows survive.
- **Shared CSV sink** (module `CatalogCsv`). The header is written only when
  the file is created.
- **Slug migration** (`scripts/generate_master_ids.py`):
  - module `Slug` holds `slugify`;
  - module `MasterIds` holds the `extract_name_year` scanner, the slug choice
    and the line-rewriting `process_master_list` with its collision check.
- **Progress report** (`scripts/progress.py`, module `Progress`).
  - The master catalog is de-duplicated by lower-cased name, first row wins.
  - It is enriched with source-list nominations.
  - Its keys are split into done and remaining against the names of the game
    files.
  - The report counts orphans and ranks the "next" list.
- **Image coverage** (`scripts/image_manager.py`, module `ImageCoverage`).
  - The image listing is filtered by extension.
  - A game's expected file name is built, and its image is found by extension
    priority.
  - Have/missing are counted overall and per publisher, with the top-20
    ranking.
  - The missing list is built.
  - Unmatched and duplicate images are detected.
- **Research pipeline** (`scripts/game_pipeline.py`, module `Pipeline`, class
  `Cache`).
  - URLs are classified by priority-ordered substring patterns.
  - At most three URLs are fetched into the cache.
  - Empty or blank sources are filtered out, and text is truncated to 3000
    characters.
  - Each source gets four lines in the research log.
- **Web server rules** (`web/server.js`, module `Upload`).
  - the upload filter (MIME type and lower-cased extension);
  - the stored file name `<name> (<year>)<ext>` and its one-for-one sanitiser;
  - the order of the upload checks;
  - the error handler;
  - the image-serving path guard.

Two shared modules support these:

- `Text` holds the string operations the scripts use (ASCII `lower`, `strip`,
  substring search, `str[:n]`).
- `Ordering` holds Python's stable `sorted` with a key and string comparison.

State that the scripts change in place is modelled in the source's imperative
form:

- a class with fields for the checkpoint, the output file and a ghost event
  log;
- methods with loops and invariants, each proved against a specification
  function;
- lemmas about those functions.

Networks, the file system and foreign libraries are parameters (oracles).

Behaviour of the code that the model keeps as it is:

- **Unreadable checkpoint.** A state file that is not JSON makes `json.loads`
  raise in `load_state` (scripts/scrape_bgg.py:50-52,
  scripts/scrape_wikidata.py:59-61), so the run ends with nothing changed
  (`StateError`). A JSON object without one of its keys raises `KeyError` only
  where `main` first reads that key: for the ID sweep after the token check
  (scripts/scrape_bgg.py:117, 120); for the paginated harvester at `s["done"]`
  and then `s["offset"]` (scripts/scrape_wikidata.py:127, 132), or in
  `print_status`, which reads both. Nothing falls back to the initial cursor.
- **Checkpoint save.** Both checkpoints are rewritten in place with
  `write_text` (scripts/scrape_bgg.py:56-57); see Left out.
- **Retry.** Only the ID sweep retries (scripts/scrape_bgg.py:64-77). The
  paginated harvester makes one request: an HTTP error ends its run before
  anything is written (scripts/scrape_wikidata.py:78).
- **Delay.** The ID sweep sleeps DELAY after every batch, including a batch
  that degraded to no rows (scripts/scrape_bgg.py:154).
- **Type column.** The ID sweep writes each item's `type` attribute
  (scripts/scrape_bgg.py:93); the paginated harvester always writes
  "boardgame" (scripts/scrape_wikidata.py:104).
- **Slugs and upload errors.** The migration and the upload route are modelled
  with `slugify` and the error handler as the code has them; the corrections
  under Findings are separate members.

## Model

| member | source | states |
|---|---|---|
| CatalogCsv.DataLines | scripts/scrape_bgg.py:145 | `writerows` adds exactly one data line per row, in row order |
| CatalogCsv.DataLinesAppend | scripts/scrape_bgg.py:139-146 | writing two row batches one after the other gives the same file as writing their concatenation |
| CatalogCsv.Opened | scripts/scrape_bgg.py:132-137 | a missing file is created with the header first; an existing file is kept as it is and only appended to; well-formedness is preserved |
| CatalogCsv.AppendKeepsWellFormed | scripts/scrape_wikidata.py:138-143 | after opening and appending rows, the file starts with the single header and holds only data lines after it |
| BggSweep.ParseBatch | scripts/scrape_bgg.py:80-95 | malformed XML yields no rows; otherwise one row per item in document order, with id and type copied, name and year the `value` of their element when present, and empty when the element is absent |
| BggSweep.RetryFrom | scripts/scrape_bgg.py:64-77 | the retry loop makes at least one and at most MAX_RETRY attempts, and does nothing but request and sleep |
| BggSweep.RetryReturnsFirstOk | scripts/scrape_bgg.py:64-71 | from any attempt on, the first successful reply's body is returned, after exactly the attempts up to it |
| BggSweep.FetchReturnsFirstOk | scripts/scrape_bgg.py:64-71 | `fetch_batch` returns the body of the first successful attempt k, after k+1 attempts |
| BggSweep.RetryExhausted | scripts/scrape_bgg.py:64-77 | when every remaining attempt fails, the result is `<items/>`, all attempts are spent, and each one logs a request and a sleep |
| BggSweep.RetryExhaustedAt | scripts/scrape_bgg.py:64-75 | in an exhausted loop, attempt j logs its request and then its backoff sleep at a fixed position |
| BggSweep.FetchExhausted | scripts/scrape_bgg.py:64-77 | if all five attempts fail, the batch degrades to `<items/>`, which parses to no rows; attempt j sleeps 3 s after a 202 and 2^j s after an exception |
| BggSweep.RetryStep | scripts/scrape_bgg.py:64-75 | one iteration: a success returns at once; a 202 or an exception logs the request and its pause and moves to the next attempt |
| BggSweep.FetchBatch | scripts/scrape_bgg.py:61-77 | the imperative retry loop computes exactly the fetch specification, with 1 to MAX_RETRY attempts |
| BggSweep.Plan | scripts/scrape_bgg.py:120-126 | a run has work iff `last_id < MAX_ID`; it covers `[last_id+1, min(last_id+RUN_LIMIT, MAX_ID)]`, never more than RUN_LIMIT IDs, and is full unless it reaches MAX_ID |
| BggSweep.RunsLeftIsCeiling | scripts/scrape_bgg.py:99-103 | consecutive runs tile the ID space: ceil((MAX_ID - last_id) / RUN_LIMIT) runs finish the sweep |
| BggSweep.BatchesShape | scripts/scrape_bgg.py:127-140 | there are `(end-start)//BATCH + 1` batches; the first starts at start and the last ends at end; they are contiguous and increasing, at most BATCH wide, and all but the last are full |
| BggSweep.BatchesLast | scripts/scrape_bgg.py:139-140 | the last batch ends at `end_id` |
| BggSweep.BatchesCover | scripts/scrape_bgg.py:139-140 | every ID of the run lies in exactly one batch |
| BggSweep.SaveFollowsAppend | scripts/scrape_bgg.py:145-149 | in the event log every checkpoint save comes right after the append of that batch's rows |
| BggSweep.SweepSaves | scripts/scrape_bgg.py:148-149 | the saved cursors are the batches' last IDs, in order |
| BggSweep.RunSavesIncrease | scripts/scrape_bgg.py:148-149 | saved cursors strictly increase, there is one per batch, and the last equals `end_id` |
| BggSweep.SweepBatches | scripts/scrape_bgg.py:139-154 | the batch loop appends the data lines of every batch's rows in order, logs every batch's events, and counts the rows found |
| BggSweep.LoadState | scripts/scrape_bgg.py:50-53 | a missing state file means `{last_id: 0}`; a file that is not JSON is an error; a saved object is returned as it is, `last_id` possibly missing |
| BggSweep.Harvester.constructor | scripts/scrape_bgg.py:107-108 | the harvester starts from the given checkpoint and output file, with an empty event log |
| BggSweep.Harvester.Run | scripts/scrape_bgg.py:107-157 | a state file that is not JSON, then a missing token, then a missing `last_id`, then `--status`, then a completed sweep each leave everything unchanged; otherwise output = opened file + the rows of every batch, checkpoint = end of range, log = every batch's events |
| WikidataPager.PlaceholderLabels | scripts/scrape_wikidata.py:88-90 | "Q" + text is a placeholder iff the text is all digits; a bare "Q" and any label not starting with "Q" are kept |
| WikidataPager.RowOfBinding | scripts/scrape_wikidata.py:84-105 | a kept binding's row carries its label and BGG id, the year as the date's first four characters, and type "boardgame" |
| WikidataPager.KeptIsFirstOccurrences | scripts/scrape_wikidata.py:80-107 | the page's rows are exactly the first occurrences of each non-placeholder `(name, bgg_id)` key, in binding order |
| WikidataPager.PageRowsKeysDistinct | scripts/scrape_wikidata.py:95-98 | no two rows of a page share a `(name, bgg_id)` key |
| WikidataPager.PageRowsKeys | scripts/scrape_wikidata.py:88-98 | every row has a real label, and every labelled binding's key appears among the rows |
| WikidataPager.FirstIndexExists | scripts/scrape_wikidata.py:95-98 | every labelled binding's key has a first occurrence at or before it |
| WikidataPager.FilterPage | scripts/scrape_wikidata.py:80-107 | the loop with its `seen` set computes exactly the filtered, de-duplicated rows |
| WikidataPager.LoadState | scripts/scrape_wikidata.py:59-62 | a missing state file means `{offset: 0, done: false}`; a file that is not JSON is an error; a saved object is returned as it is, either key possibly missing |
| WikidataPager.Pager.constructor | scripts/scrape_wikidata.py:120-121 | the pager starts from the given checkpoint and output file, with no requests made |
| WikidataPager.Pager.Run | scripts/scrape_wikidata.py:120-149 | a state file that is not JSON is an error; `--status` answers both fields, or is an error when one is missing; a missing `done`, then `done` true, then a missing `offset` end the run; none of these changes anything; an HTTP error changes nothing but the request log; a page appends its rows, advances offset by PAGE_SIZE, and sets done iff fewer than PAGE_SIZE rows were kept |
| Slug.SubRuns | scripts/generate_master_ids.py:33 | every run of characters outside [a-z0-9] becomes one hyphen, so the result is [a-z0-9-] with no doubled hyphen |
| Slug.AsciiFoldAppend | scripts/generate_master_ids.py:21-24 | lower-casing, NFKD and the ASCII filter act character by character |
| Slug.PreparedAppend | scripts/generate_master_ids.py:21-31 | the replacement steps distribute over concatenation |
| Slug.SlugifyIsSlug | scripts/generate_master_ids.py:19-38 | the slug (as written and corrected) contains only [a-z0-9-], has no hyphen at either end and no two hyphens in a row |
| Slug.SlugifyFixesSlugs | scripts/generate_master_ids.py:19-38 | a string that is already a slug is its own slug |
| Slug.SlugifyIdempotent | scripts/generate_master_ids.py:19-38 | (corrected) slugifying a slug changes nothing |
| Slug.SlugifyAsWrittenIdempotent | scripts/generate_master_ids.py:19-38 | (as written) slugifying a slug changes nothing |
| Slug.SlugifyAsWrittenFixesSlugs | scripts/generate_master_ids.py:19-38 | the function as written also leaves a slug unchanged |
| Slug.SlugifyAmpersandApostrophe | scripts/generate_master_ids.py:26-29 | (corrected) `&` slugifies like "and", and `'` and U+2019 are dropped without leaving a hyphen |
| Slug.SlugifyAsWrittenAmpersandApostrophe | scripts/generate_master_ids.py:21-29 | (as written) `&` slugifies like "and" and `'` is dropped without leaving a hyphen; U+2019 is dropped too, by the ASCII filter |
| Slug.SlugifyDash | scripts/generate_master_ids.py:30-31 | (corrected) an en or em dash slugifies like a hyphen |
| Slug.SlugifyAsWrittenDropsDash | scripts/generate_master_ids.py:23-31 | (as written) an en or em dash is removed by the ASCII filter before its replacement, so it vanishes |
| Slug.DashJoinsWords | scripts/generate_master_ids.py:23-31 | for words a, b: "a–b" slugifies to "ab" as written, and to "a-b" when corrected |
| MasterIds.QuotedName | scripts/generate_master_ids.py:87-89 | a quoted `name: "…"` match captures at least one character |
| MasterIds.YearMatch | scripts/generate_master_ids.py:95-97 | a year match is an optional minus followed by digits |
| MasterIds.ExtractNameYear | scripts/generate_master_ids.py:81-98 | the loop computes the line-by-line scan specification |
| MasterIds.LastQuotedNameWins | scripts/generate_master_ids.py:87-90 | the name is the last quoted match |
| MasterIds.FirstUnquotedNameKept | scripts/generate_master_ids.py:91-94 | with no quoted match, the first non-empty unquoted match is kept |
| MasterIds.NoNameBefore | scripts/generate_master_ids.py:85-94 | with no quoted and no non-empty unquoted match, no usable name is found |
| MasterIds.NameFoundIffPattern | scripts/generate_master_ids.py:85-94 | a name is found iff some line matches either name pattern |
| MasterIds.YearFromSomeLine | scripts/generate_master_ids.py:95-97 | a year found is a year match of a line that had no quoted name |
| MasterIds.LastYearWins | scripts/generate_master_ids.py:85-97 | the year is the match of the last line that reaches the year test (no quoted name, no unquoted name taken) and matches; later lines leave it |
| MasterIds.YearFoundIffTaken | scripts/generate_master_ids.py:85-97 | a year is found iff some line reaches the year test and matches |
| MasterIds.ChooseSlug | scripts/generate_master_ids.py:133-140 | the `(name, year)` file id first, then the name-only file id, then `slugify(name)` as written (dashes dropped), which is a slug |
| MasterIds.NamePart | scripts/generate_master_ids.py:149 | the name remainder is everything after `  - name:` |
| MasterIds.EntryEnd | scripts/generate_master_ids.py:122-125 | an entry extends over exactly the following run of `    \w` continuation lines |
| MasterIds.CollectEntry | scripts/generate_master_ids.py:120-125 | the entry is its start line followed by exactly the maximal run of continuation lines (each matches four spaces and a word character; the line after the run, if any, does not) |
| MasterIds.ProcessMasterList | scripts/generate_master_ids.py:101-191 | the file is rewritten iff all assigned slugs (from `slugify` as written) are distinct, and then exactly to the migration's output |
| MasterIds.MigrateLength | scripts/generate_master_ids.py:146-154 | the output has exactly one extra line per entry given a slug |
| MasterIds.RewrittenStartsNothing | scripts/generate_master_ids.py:146-154 | a rewritten entry has no `  - name:` line left |
| MasterIds.OutputStartsCleanly | scripts/generate_master_ids.py:113-161 | output that does not start inside an entry does not start with a continuation line |
| MasterIds.MigrateIdempotent | scripts/generate_master_ids.py:155-161 | re-running on migrated output copies it verbatim and assigns nothing |
| MasterIds.SlugCountsCount | scripts/generate_master_ids.py:143 | `slug_counts[s]` holds one name per entry assigned s |
| MasterIds.DistinctIffCountsAtMostOne | scripts/generate_master_ids.py:164 | the slugs are distinct iff every slug is assigned at most once |
| MasterIds.CollisionIffRepeat | scripts/generate_master_ids.py:164-169 | a collision is reported iff some slug was assigned to two entries |
| Ordering.LexLessIrreflexive | scripts/progress.py:152 | no string sorts before itself |
| Ordering.LexLessTransitive | scripts/progress.py:152 | Python's string order is transitive |
| Ordering.LexLessTotal | scripts/progress.py:152 | of two different strings, one sorts first |
| Ordering.KeyLessTotal | scripts/progress.py:152 | of two different sort keys, one sorts first |
| Ordering.SortBySorted | scripts/progress.py:150-153 | `sorted(…, key=…)` returns a list ordered by the key |
| Ordering.SortByPermutes | scripts/progress.py:150-153 | `sorted` returns a permutation of its input |
| Ordering.SortedUnique | scripts/progress.py:150-153 | with distinct keys there is only one sorted arrangement of a multiset |
| Ordering.SortByUnique | scripts/progress.py:150-153 | with distinct keys the sorted result does not depend on the input order |
| Ordering.SortedPrefix | scripts/progress.py:154-157 | the first n sorted items are sorted, come from the input, and none left out sorts before one kept |
| Progress.LoadMasterList | scripts/progress.py:27-46 | a missing CSV gives an empty catalog; otherwise the rows keyed by lower-cased stripped name, first row wins |
| Progress.MasterValid | scripts/progress.py:37-45 | each key is the lower-cased name of its entry, and the key list is duplicate-free and matches the map |
| Progress.FirstRowWins | scripts/progress.py:37-45 | the entry of a key is built from the first row with that key |
| Progress.NoRowNoKey | scripts/progress.py:36-45 | a key no row produces is absent |
| Progress.MasterEntry | scripts/progress.py:37-45 | every entry comes from the first row with its key, and an empty year is stored as "?" |
| Progress.BlankNominatesNothing | scripts/progress.py:63-65 | blank names nominate nothing |
| Progress.LoadSourceEnrichment | scripts/progress.py:49-68 | a key is present iff some list nominates it, and maps to one source label per nomination, in file order |
| Progress.AddListing | scripts/progress.py:62-67 | one list file's games each append its label to their key |
| Progress.AlternateNamesIff | scripts/progress.py:94-97 | the alternate names are the lower-cased non-empty alternates |
| Progress.AddAlternates | scripts/progress.py:94-97 | the alternates loop adds exactly the lower-cased non-empty alternates |
| Progress.LoadExisting | scripts/progress.py:71-101 | a missing directory gives nothing; otherwise the names, the count of `.yaml` files and the primary names |
| Progress.GatheredNames | scripts/progress.py:83-99 | a name is known iff it is the primary or an alternate name of some game file |
| Progress.GatheredPrimaryNames | scripts/progress.py:91-93 | a primary name belongs to some game file |
| Progress.GatheredPrimaries | scripts/progress.py:84-93 | primary names are known names, and there are no more of them than `.yaml` files |
| Progress.EnrichSources | scripts/progress.py:120-122 | every catalog entry gets its nominations, or none, and nothing else changes |
| Progress.EnrichedIs | scripts/progress.py:120-122 | enriching with the loaded nominations gives the enrichment specification |
| Progress.Split | scripts/progress.py:124-131 | done and remaining together have as many keys as the catalog |
| Progress.SplitPartitions | scripts/progress.py:125-131 | a key is done iff it is a known name, and remaining iff it is not |
| Progress.Partition | scripts/progress.py:124-131 | the partition loop computes the split |
| Progress.NextGames | scripts/progress.py:148-157 | the next list has `min(show_count, remaining)` games, or none when show_count is not positive |
| Progress.NextGamesRanked | scripts/progress.py:149-157 | the next list is in rank order (most nominations, then name), is drawn from the remaining games, and no game left off outranks one shown |
| Progress.NextGamesDetermined | scripts/progress.py:150-153 | the next list does not depend on the dictionary's iteration order |
| Progress.RemainingDistinct | scripts/progress.py:150-153 | the remaining games have distinct lower-cased names, so their sort keys are distinct |
| Progress.ProgressReport | scripts/progress.py:104-160 | the report is the specification: totals, file count, orphans, done, remaining and the next list |
| Progress.ReportCounts | scripts/progress.py:125-157 | done + remaining = total, orphans ≤ game files, and the next list has `min(show_count, remaining)` games |
| ImageCoverage.ExistingImages | scripts/image_manager.py:45-51 | a listed file is kept iff its lower-cased name ends in one of the four image extensions |
| ImageCoverage.UpperCaseKept | scripts/image_manager.py:48-50 | an upper-case `.JPG` file is kept in the image set |
| ImageCoverage.ExpectedFilenameParts | scripts/image_manager.py:54-58 | the expected name splits into the game's name, " (", its year and ")", a missing field reading as "" |
| ImageCoverage.Variants | scripts/image_manager.py:219-223 | the variants are exactly the present files named base + one of the extensions |
| ImageCoverage.FindImage | scripts/image_manager.py:61-67 | the loop returns the first present variant in extension order |
| ImageCoverage.FoundIsFirstVariant | scripts/image_manager.py:61-67 | the image found is the first variant, or none when there is no variant |
| ImageCoverage.FoundHasExtension | scripts/image_manager.py:61-67 | an image found is present and is exactly base + one extension (case-sensitive) |
| ImageCoverage.HaveMissingPartition | scripts/image_manager.py:72-80 | have + missing = number of games, and a game is missing iff no image is found |
| ImageCoverage.OverallCounts | scripts/image_manager.py:70-84 | the counting loop yields the have and missing counts, which add up to the game count |
| ImageCoverage.TallyCounts | scripts/image_manager.py:87-95 | a publisher's have/missing count its occurrences with and without an image, and add up to all its occurrences |
| ImageCoverage.TallyOrderDistinct | scripts/image_manager.py:87-91 | each publisher is tallied once, in first-seen order |
| ImageCoverage.PublisherStats | scripts/image_manager.py:86-95 | the nested loop computes the per-publisher tally |
| ImageCoverage.CountGame | scripts/image_manager.py:88-95 | one game adds one occurrence per publisher entry |
| ImageCoverage.TopPublishers | scripts/image_manager.py:103 | at most 20 rows are shown |
| ImageCoverage.TopPublishersRanked | scripts/image_manager.py:97-103 | rows shown are in descending missing order, drawn from all publishers, and none left off has more missing than one shown |
| ImageCoverage.MissingGames | scripts/image_manager.py:189-199 | the missing list is the games without an image, sorted by name |
| ImageCoverage.MissingListExact | scripts/image_manager.py:191-199 | the missing list is sorted, is exactly the imageless games, and has `games - have` entries |
| ImageCoverage.Root | scripts/image_manager.py:212 | the extension-stripped base is a prefix of the file name |
| ImageCoverage.RootOfVariant | scripts/image_manager.py:212 | stripping a variant's extension gives back the expected name |
| ImageCoverage.ExpectedBases | scripts/image_manager.py:207-209 | the set holds exactly the games' expected names |
| ImageCoverage.SortedNames | scripts/image_manager.py:211 | the image names in strictly increasing order |
| ImageCoverage.Unmatched | scripts/image_manager.py:211-214 | an image is unmatched iff its base is no expected name |
| ImageCoverage.UnmatchedIncreasing | scripts/image_manager.py:211-214 | unmatched images are reported in sorted order |
| ImageCoverage.UnmatchedImages | scripts/image_manager.py:211-214 | the first check loop computes the unmatched list |
| ImageCoverage.VariantsOf | scripts/image_manager.py:219-223 | the inner loop collects the present variants in extension order |
| ImageCoverage.DuplicateImages | scripts/image_manager.py:217-225 | the second check loop computes the duplicate list |
| ImageCoverage.DuplicatesExact | scripts/image_manager.py:217-225 | a duplicate is reported for a game iff more than one of its variants exists |
| ImageCoverage.Check | scripts/image_manager.py:202-232 | the report lists, sorted, the images matching no game and the games with several variants |
| ImageCoverage.ValidIff | scripts/image_manager.py:227-232 | "All images valid." iff every image matches a game and no game has two variants |
| ImageCoverage.FoundIsMatched | scripts/image_manager.py:207-214 | an image `find_image` finds is never reported unmatched |
| Pipeline.MatchesAny | scripts/game_pipeline.py:94-102 | a group matches iff one of its patterns occurs in the text |
| Pipeline.ClassifyUrl | scripts/game_pipeline.py:91-103 | one of the four labels; publisher patterns win, then store, then review, and "other" iff no pattern occurs in the lower-cased URL |
| Pipeline.ClassifyIgnoresCase | scripts/game_pipeline.py:93 | classification does not depend on letter case |
| Pipeline.Capped | scripts/game_pipeline.py:180 | the first `MAX_URLS_PER_GAME` URLs, or all of them when fewer |
| Pipeline.StoresKeys | scripts/game_pipeline.py:180-187 | after the fetch loop a cache key is present iff it was there before or one of the game's URLs was fetched non-empty |
| Pipeline.StoresChanged | scripts/game_pipeline.py:180-187 | every new or replaced cache row belongs to the game, carries its URL's class and has non-empty HTML |
| Pipeline.StoresGrowth | scripts/game_pipeline.py:180-187 | existing keys stay, and at most one row is added per URL |
| Pipeline.StoresUntouched | scripts/game_pipeline.py:140-147 | rows of other games or other URLs are left unchanged (INSERT OR REPLACE replaces only its key) |
| Pipeline.Cache.constructor | scripts/game_pipeline.py:108-127 | a fresh cache has no games and no pages |
| Pipeline.Cache.Phase1Fetch | scripts/game_pipeline.py:175-190 | the game is recorded, and the cache becomes the result of storing the usable responses of the capped URLs |
| Pipeline.FetchBounded | scripts/game_pipeline.py:175-190 | one fetch adds at most three rows, all for the game's first three URLs, classified and non-empty, and leaves every other row alone |
| Pipeline.Truncate | scripts/html_preprocessor.py:55-57 | a prefix of at most 3000 characters; shorter text is unchanged |
| Pipeline.RowSource | scripts/game_pipeline.py:214-231 | a row yields a source iff its HTML is non-empty and its truncated text is not blank; the source keeps url and type |
| Pipeline.ExtractCleanText | scripts/game_pipeline.py:195-233 | an unknown game gives no sources; otherwise the loop keeps exactly the rows that yield a source, in order |
| Pipeline.CleanSourcesLength | scripts/game_pipeline.py:213-231 | no more sources than cached rows |
| Pipeline.CleanSourcesEmittable | scripts/game_pipeline.py:213-231 | every emitted text is non-blank, at most 3000 characters, and comes from a cached row |
| Pipeline.CleanSourcesKeeps | scripts/game_pipeline.py:213-231 | every row that yields a source is emitted |
| Pipeline.ProcessGameBounded | scripts/game_pipeline.py:269-280 | for a game not cached before, at most three sources come out, each from a fetched URL, correctly classified, non-empty and at most 3000 characters |
| Pipeline.DescriptionFallback | scripts/game_pipeline.py:240-254 | an unknown source type gets "Game information page"; the known ones get their own text |
| Pipeline.Entry | scripts/game_pipeline.py:256-259 | four lines per source |
| Pipeline.LogLinesAppend | scripts/game_pipeline.py:252-259 | the log lines of two source lists are the concatenation of their lines |
| Pipeline.LogLinesLength | scripts/game_pipeline.py:252-259 | exactly four lines per source |
| Pipeline.LogLinesLayout | scripts/game_pipeline.py:252-259 | source i's four lines start at line 4i |
| Pipeline.AppendResearchLog | scripts/game_pipeline.py:248-264 | the appended text is the log lines joined by newlines, plus a final newline |
| Upload.TrimSlashes | web/server.js:27 | Node's `extname` ignores trailing slashes |
| Upload.LastComponent | web/server.js:27 | the part after the last `/` |
| Upload.ExtName | web/server.js:27 | the extension is empty or a dot followed by no dot or slash, and ends the path |
| Upload.ExtNameOf | web/server.js:27 | `extname(stem + ".ext")` is `.ext` |
| Upload.AcceptedIsListed | web/server.js:23-35 | an accepted upload is stored under a name the image tool's listing keeps |
| Upload.EndsInAllowedIsListed | web/server.js:25-30 | a name ending in an allowed extension passes the image tool's extension filter |
| Upload.StoredName | web/server.js:131-132 | the stored name ends with the original's lower-cased extension |
| Upload.Sanitize | web/server.js:135 | one for one: same length, allowed characters kept, every other character replaced by `_` |
| Upload.SanitizeIdempotent | web/server.js:135 | a second sanitisation changes nothing |
| Upload.SanitizeKeeps | web/server.js:135 | a name of allowed characters is unchanged |
| Upload.SanitizeAppend | web/server.js:135 | sanitising distributes over concatenation |
| Upload.SanitizeNoSeparator | web/server.js:135-136 | a sanitised name contains no `/` or `\` |
| Upload.StoredNameSingleComponent | web/server.js:131-136 | the write target is one path component, neither `.` nor `..`, inside the images directory |
| Upload.SanitizeKeepsStoredName | web/server.js:132-135 | a stored name built from allowed characters is unchanged by sanitising |
| Upload.UploadMatchesExpected | web/server.js:131-136 | for a plain name and year, the upload is stored as the image tool's expected file name plus the lower-cased extension |
| Upload.Messages | web/server.js:33 | the filter's rejection message contains "Invalid file type"; multer's size message does not |
| Upload.HandlerAnswers | web/server.js:226-248 | (as written) the filter's rejection gets 400 INVALID_FILE_TYPE; multer's size error gets 500 INTERNAL_ERROR |
| Upload.UploadWrittenIff | web/server.js:92-159 | with the error handler as written: an image is written iff every check passes, under the sanitised stored name; no file gets 400 NO_FILE, a bad type 400 INVALID_FILE_TYPE, an oversized file 500 INTERNAL_ERROR, an unknown game 404 NOT_FOUND |
| Upload.UploadLaterChecks | web/server.js:112-158 | with the error handler as written, an undecodable image gets 400 INVALID_IMAGE and a failed write 500 UPLOAD_ERROR |
| Upload.OversizeIsInternalError | web/server.js:226-248 | (as written) an oversized upload gets 500 INTERNAL_ERROR, and no multer code reaches the FILE_TOO_LARGE branch |
| Upload.HandleErrorSize | web/server.js:223-249 | (corrected) an oversized upload gets 400 FILE_TOO_LARGE; every other error is answered as written |
| Upload.Serve | web/server.js:165-199 | the image route answers with the file, 500 SERVE_ERROR, 403 ACCESS_DENIED or 404 NOT_FOUND |
| Upload.ServeIff | web/server.js:165-199 | the file is sent iff the name decodes, the normalised path starts with the images directory and the file exists; 403 when the guard fails, 404 when the file is absent |
| Upload.GuardAdmitsSibling | web/server.js:171-172 | a path that normalises into a sibling directory whose name extends the images directory passes the guard |

## Left out

- Network access is not modelled.
  - The BGG API, the SPARQL endpoint and page fetches are oracle parameters: `Network`, `Endpoint`, and a response list.
  - Timeouts, headers and the bearer token's value are not modelled; only the token's presence is.
  - Sleeps are ghost log entries in milliseconds.
- XML, JSON, CSV and YAML parsing is not modelled; the model receives already-parsed items, bindings, rows and game files.
  - For the checkpoints, a file that is not JSON and an object without a key are modelled. The types of the entries are not: a `last_id` or `offset` that is not a number, or a `done` that is not a boolean, is outside the model. Keys other than those read are not kept through a save.
  - A YAML game file that fails to parse is still counted, as in the source.
- File system effects are values: a file is an existence flag plus its lines, and a directory listing is a sequence in the order `os.listdir` gives it.
- Both checkpoints are rewritten in place (scripts/scrape_bgg.py:56-57). A crash part-way through a write is not modelled.
- BggSweep.Harvester.Run: the loop runs in a separate method over values, and Run assigns the output, log and checkpoint once at the end. The per-batch order of append, flush, save and sleep is stated on the ghost event log, not on intermediate field values.
- All printing is left out, along with the CLI argument parsing and the floating-point percentages and estimates. This covers `print_status`, `pct` and the minutes estimate.
  - BggSweep.RunsLeftIsCeiling gives the exact number of runs left. The script prints a rounded float quotient instead.
- Text handling is ASCII only:
  - Python's `lower`, `strip`, `isdigit` and `\w`;
  - JavaScript's `toLowerCase`;
  - Dafny strings are sequences of code points.
- Slug: Unicode lower-casing, NFKD and the ASCII filter are a per-character parameter `fold`.
- `load_existing_game_ids` and `build_name_to_id_map` are left out (scripts/generate_master_ids.py:41-78). Their last-wins result depends on set iteration order. The two maps they build are the `Known` parameter of MasterIds.
- MasterIds.ProcessMasterList:
  - it returns the output lines, and the final `"\n".join` and write are left out;
  - it does not report unmatched game files, which is printing only.
- Progress: source-list files arrive in sorted glob order.
- Progress: a list file without `games` contributes nothing. The `source` key is taken as the file's label, and the basename is used when the key is absent.
- Progress: the "Source lists: N files" line is printing only.
- ImageCoverage: `load_games`, `load_publishers`, `cmd_publishers`, `cmd_publisher` and the CLI dispatch are left out; they are loading and printing.
  - A game's `name` and `year` are optional fields. A missing year renders as "" here, but as "undefined" in the server's template string.
- ImageCoverage.Check: the issue strings and their printing are not modelled; the unmatched and duplicate lists are.
- Pipeline: the SQLite cache is a map keyed by (game name, URL). Game row ids and `get_or_create_game` are folded into that key.
- Pipeline: the order of `get_sources` rows is a parameter, and so are `html_to_main_text` and the `urlparse(...).netloc` extraction.
- Pipeline: the date, `main` and the JSON output are left out.
- Upload:
  - `path.join` and `path.normalize` are uninterpreted parameters;
  - so are `fs.existsSync` and `decodeURIComponent` (a failing decode is `None`);
  - the `sharp` decode is a boolean, and the write's success is a boolean;
  - multer's internals, CORS, static files, `res.sendFile` and `app.listen` are left out.
- Upload: `GET /api/games`, `GET /api/games/:id` and `GET /api/health` are left out. They only read through `web/lib/yaml-handler.js`, which is not part of this model.
- Upload.Sanitize: replaces each character outside the class with one `_`. The regular expression has no `u` flag, so JavaScript replaces each UTF-16 code unit, and a character outside the Basic Multilingual Plane becomes `__` ("Dice 🎲" gives "Dice __"). The model's one-for-one length and its stored names are exact only for text inside that plane.
- Upload.GuardAdmitsSibling: the image route's guard compares text prefixes. A normalised path into a sibling directory whose name starts with the images directory's name passes it. The model states this, but with `path.normalize` a parameter it cannot say which requests produce such a path.

## Findings

| source | as written | input that shows it | evidently intended | confidence | as-written member | corrected member |
|---|---|---|---|---|---|---|
| scripts/generate_master_ids.py:23-31 | the en/em dash replacement runs after `encode("ascii", "ignore")` has already deleted those characters, so it never fires and a dash silently joins two words | "catan–seafarers" (U+2013) slugifies to "catanseafarers" | a dash separates words like a hyphen: "catan-seafarers" | not executed | Slug.DashJoinsWords | Slug.SlugifyDash |
| web/server.js:226-233 | the error handler tests `err.code === 'FILE_TOO_LARGE'`, a code multer never raises; its size-limit error carries `LIMIT_FILE_SIZE` | an accepted image over 20 MB: the handler answers 500 INTERNAL_ERROR | 400 FILE_TOO_LARGE with the "Maximum 20MB" message | not executed | Upload.OversizeIsInternalError | Upload.HandleErrorSize |
