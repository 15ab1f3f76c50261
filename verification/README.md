# khi backend core in Dafny

A model of the sequential core of the khi desktop app's Rust backend, the
tool that reads highlights off a Kobo e-reader and exports them as
markdown. Every operation is a pure function over immutable datatypes; the
database, the zip reader, the file system, the JSON codec, SHA-256, the
date parser and the Tauri event bus are replaced by inputs.

| file | module | what it models |
|---|---|---|
| `wrappers.dfy` | `Wrappers` | `Option` and `Result` |
| `strings.dfy` | `Strings` | the Rust string operations the core relies on: `find`, `rfind`, `replace`, `trim`, `join`, `split`, byte-order comparison, SQLite `LIKE`, decimal and zero-padded number formatting |
| `models.dfy` | `Models` | `Book`, `Highlight`, `KoboDevice`, `ExportConfig`, `MetadataConfig`, `DateFormat` and their helpers |
| `kobo.dfy` | `Kobo` | `extract_books_with_highlights`: the two `COALESCE` columns of the bookmark query, the text filter, grouping by volume id and the sort by title |
| `paths.dfy` | `Paths` | `Path::parent` and `Path::join` on '/'-separated paths |
| `covers.dfy` | `Covers` | `CoverExtractor`: the cache key, the container/OPF substring search (EPUB 3 and EPUB 2), the fallback search, the cache decision, the placeholder and `clear_cache` |
| `settings.dfy` | `Settings` | `SettingsManager`: defaults, enum tags, loading with fallback, the retrying `save` protocol with backup and restore, the setters |
| `export.dfy` | `Export` | `sanitize_filename`, `generate_filename`, `format_date`, `generate_markdown`, `generate_highlight_markdown` |
| `monitor.dfy` | `Monitor` | the `(last, current)` transition inside the device monitor's polling loop |

How the inputs are represented:

- **Bookmark query.** The query result is a sequence of `JoinedRow`s, one per row of
  `Bookmark LEFT JOIN content ×3`. A join side that matched nothing is `None`.
  The model computes the `BookTitle` and `ChapterTitle` columns itself. Each row
  also says whether rusqlite can decode it into the tuple the loop reads.
- **EPUB archive.** An archive is its member names in directory order plus a map from name
  to bytes and, when the bytes are UTF-8, text. The caller also says whether the
  archive could be opened at all.
- **Cover cache.** The cache directory is a map from file name to regular file or
  subdirectory, or absent. The hash is a function parameter returning a
  32-byte digest. A write-fault input says whether `File::create` fails, or
  `write_all` fails after writing part of the data.
- **Settings files.** The settings files are a map from path to readable text or unreadable
  bytes. JSON printing and parsing are parameters. A failure oracle decides which
  copy, write, rename or read-back step fails, and the delays the loop would
  sleep are recorded.
- **Export helpers.** chrono's `%Y-%m-%d` parser and the `(progress * 100.0) as i32` conversion
  are parameters of the export functions.

Where the source behaves in a way a reader might not expect, the model
follows the source and a lemma says so:

- `Export.ControlOnlyNameIsEmpty`: a name made only of non-whitespace control characters
  sanitizes to the empty string, not "Untitled". The blank test runs before the control
  characters are dropped.
- `Covers.PlaceholderNeverHits`: an archive without a cover gets a placeholder SVG. The cache
  lookup only tests for `{key}.jpg`, so that archive is opened again on every call.
- `Kobo.HtmlTestSubsumed`: the query's `'%.html%'` test never changes the result, because
  `'%.htm%'` already matches.
- `Kobo.RecurringPrefixDropped`: `file_path` drops every occurrence of the `file:///mnt/onboard/`
  prefix, not only the leading one.
- `Covers.TruncatedCoverHits`: when `write_all` fails partway, the extraction is an error, but the
  truncated `{key}.jpg` stays in the cache. The next extraction treats it as a hit and returns it.
- **`Book.file_path`**: the `Book` struct in `src-tauri/src/models/mod.rs` has no `file_path`
  field, yet `src-tauri/src/db/kobo.rs:139` assigns one. The model's `Book` carries
  `file_path: Option<string>`.
- **Highlight defaults**: the highlight literal at `src-tauri/src/db/kobo.rs:160-169` omits
  `personal_note`, `is_excluded` and `edited_text`. The model gives them the
  `Highlight::new` defaults.

## Model

| member | source | states |
|---|---|---|
| Models.NewBook | src-tauri/src/models/mod.rs:19-32 | `Book::new` keeps id, title and author; every optional field is None and there are no highlights |
| Models.AddHighlight | src-tauri/src/models/mod.rs:38-40 | the highlight is appended at the end; the earlier highlights and every other field are unchanged |
| Models.HighlightCountTracksAdds | src-tauri/src/models/mod.rs:34-40 | a new book counts 0 highlights, and each `add_highlight` raises the count by exactly one |
| Models.NewHighlight | src-tauri/src/models/mod.rs:60-74 | `Highlight::new` keeps id, text and date; `is_excluded` is false and every optional field is None |
| Models.DisplayText | src-tauri/src/models/mod.rs:76-78 | the edited text when there is one, otherwise the original text |
| Kobo.BookTitleOf | src-tauri/src/db/kobo.rs:48 | the book title is the first present of the book's Title, the book's BookTitle, the page's BookTitle, the page's Title, else "Unknown Title" |
| Kobo.ChapterTitleOf | src-tauri/src/db/kobo.rs:49-59 | the TOC title when the TOC join gives one; else the page title unless it contains ".xhtml", ".html", ".htm" or "/" ignoring ASCII case; else None |
| Kobo.ChapterTitleNeverFileName | src-tauri/src/db/kobo.rs:49-59 | without a TOC title, a chapter title is never file-name-like and is always the page title |
| Kobo.HtmlTestSubsumed | src-tauri/src/db/kobo.rs:53-54 | any title the `.html` test matches is also matched by the `.htm` test |
| Kobo.QueryRows | src-tauri/src/db/kobo.rs:70 | the query returns no more rows than were joined, and every row it returns has non-empty text |
| Kobo.WhereClauseRedundant | src-tauri/src/db/kobo.rs:119-123 | grouping the rows the query's WHERE clause keeps gives the same books as grouping every joined row, because the loop's skip test repeats that clause |
| Kobo.FilePathOf | src-tauri/src/db/kobo.rs:137-140 | a file path exists exactly when the volume id starts with `file:///mnt/onboard/`; it is the rest of the id with every occurrence of that prefix removed, and the plain rest when the prefix does not recur |
| Strings.ReplaceAllFirst | src-tauri/src/db/kobo.rs:139 | `str::replace` keeps everything before the first match, puts the replacement there, and carries on after the match |
| Kobo.RecurringPrefixDropped | src-tauri/src/db/kobo.rs:137-140 | `file:///mnt/onboard/a/file:///mnt/onboard/b` gives the file path `a/b`: the inner prefix is dropped too |
| Kobo.MakeHighlight | src-tauri/src/db/kobo.rs:160-171 | a kept row's highlight has the row's id, non-empty text, annotation, chapter, progress and container path; a missing creation date becomes "Unknown"; color is None and the other fields take the `Highlight::new` defaults |
| Kobo.GroupCorrect | src-tauri/src/db/kobo.rs:119-172 | grouping yields one book per distinct volume id of the kept rows and no other. Each book equals the reference book for its volume: title and author from its first kept row; each of isbn, publisher, language and read date the first value any of its rows offers; one highlight per kept row, in row order |
| Kobo.GroupHighlightCount | src-tauri/src/db/kobo.rs:119-171 | the books hold exactly as many highlights in total as there are rows with text |
| Kobo.SortByTitle | src-tauri/src/db/kobo.rs:188 | the result is sorted by title in byte order, is a permutation of the input, and keeps ids distinct |
| Kobo.ExtractBooks | src-tauri/src/db/kobo.rs:78-188 | the extraction fails exactly when some row with text cannot be decoded; otherwise the returned books are sorted by title and are a permutation of the grouped books |
| Kobo.ExtractBooksCorrect | src-tauri/src/db/kobo.rs:15-191 | end to end: success exactly when every row with text decodes; then sorted by title, one book per volume id that has a highlight, and every book equals its reference book |
| Covers.FullPathValue | src-tauri/src/covers/mod.rs:106-112 | the value is the text after the first `full-path="` up to the next quote; it contains no quote; there is one exactly when the marker is present and a quote follows it |
| Covers.GetOpfPath | src-tauri/src/covers/mod.rs:97-115 | a missing container file gives Ok(None), an unreadable one an I/O error, otherwise the `full-path` value if any |
| Covers.Epub3SearchComplete | src-tauri/src/covers/mod.rs:124-135 | the EPUB 3 search finds exactly the declarative hit: the last `href="` wholly before the first `properties="cover-image"`, whose closing quote also lies before that marker |
| Covers.Epub2SearchComplete | src-tauri/src/covers/mod.rs:137-159 | the EPUB 2 search finds exactly the declarative hit: the id after the first `content="` following the first `name="cover"`, then the first `href="` after the first `id="<id>"` |
| Covers.OpfCoverHref | src-tauri/src/covers/mod.rs:124-161 | the OPF yields no href exactly when neither the EPUB 3 nor the EPUB 2 search finds one |
| Covers.Epub3HrefWins | src-tauri/src/covers/mod.rs:124-135 | an EPUB 3 hit decides the href whatever the EPUB 2 metadata says |
| Covers.Epub2HrefFallback | src-tauri/src/covers/mod.rs:137-159 | with no EPUB 3 hit, an EPUB 2 hit decides the href |
| Paths.JoinPath | src-tauri/src/covers/mod.rs:132 | `Path::join`: an empty base or an absolute href gives the href; a base ending in '/' is followed directly by the href; any other base gets exactly one '/' before it |
| Paths.Parent | src-tauri/src/covers/mod.rs:122 | `Path::parent` with `unwrap_or("")`: the empty parent without a '/'; the text before the last '/' when that is not the first character; "/" for a file in the root; always a proper prefix |
| Paths.ParentOfJoin | src-tauri/src/covers/mod.rs:122-132 | joining a '/'-free name to a directory without a trailing '/' (or to the root) and taking the parent gives the directory back |
| Paths.OpfRelativeHref | src-tauri/src/covers/mod.rs:122-132 | the href `images/c.jpg` of the OPF `OEBPS/content.opf` resolves to `OEBPS/images/c.jpg` |
| Covers.ParseOpfForCover | src-tauri/src/covers/mod.rs:117-161 | a missing OPF is a zip error, a non-UTF-8 one an I/O error, an OPF matching neither convention `NoCoverFound`, otherwise the href joined to the OPF's directory |
| Covers.Epub3CoverChosen | src-tauri/src/covers/mod.rs:84-135 | when the container names an OPF with an EPUB 3 hit, the cover path is that href relative to the OPF's directory and the fallback never runs |
| Covers.Epub2CoverChosen | src-tauri/src/covers/mod.rs:84-159 | the same for an EPUB 2 hit when the OPF has no EPUB 3 hit |
| Covers.NoOpfCoverFallsBack | src-tauri/src/covers/mod.rs:86-94 | no OPF path, or an OPF matching neither convention, sends the search to the fallback |
| Covers.FindCoverPath | src-tauri/src/covers/mod.rs:79-95 | an unreadable container file is an I/O error; a successful OPF parse beats the fallback; every OPF failure falls back |
| Covers.FirstCommonFrom | src-tauri/src/covers/mod.rs:169-187 | the first of the eleven fixed paths present in the archive, in list order, and none when none is present |
| Covers.BestCover | src-tauri/src/covers/mod.rs:190-209 | among names whose lowercased form ends in .jpg/.jpeg/.png and contains "cover", one with the fewest '/'-separated segments, the earliest on a tie; none exactly when no name qualifies |
| Covers.FallbackNamesEntry | src-tauri/src/covers/mod.rs:183-209 | in a well-formed archive every path the fallback offers can be opened by name |
| Covers.CacheKey | src-tauri/src/covers/mod.rs:59-75 | the key is 16 lowercase hex digits: the first 8 digest bytes of the hash of "path:secs" |
| Covers.UnhexHex | src-tauri/src/covers/mod.rs:74 | hex encoding loses nothing: decoding it gives the bytes back |
| Covers.CacheKeySameSecond | src-tauri/src/covers/mod.rs:59-75 | two modification times in the same whole second give the same key, and the key decodes to the digest prefix |
| Covers.CacheNamesDiffer | src-tauri/src/covers/mod.rs:213-216 | the placeholder name `{key}_placeholder.svg` never equals the cached cover name `{key}.jpg` |
| Covers.WriteFile | src-tauri/src/covers/mod.rs:45-46 | a write succeeds exactly when the directory exists, the name is not a subdirectory and no fault occurs; success stores the bytes; a failed create changes nothing; a failed `write_all` leaves a truncated prefix of the bytes under the name |
| Covers.ExtractCover | src-tauri/src/covers/mod.rs:21-56 | a failed metadata read is an I/O error; a hit returns `{key}.jpg` with the cache unchanged; on a miss, an unopenable archive is an I/O error, a non-zip a zip error, a search error is passed on, and a cover path missing from the archive is a zip error; a found cover is written to `{key}.jpg` and a missing one as the placeholder SVG to `{key}_placeholder.svg`, each returning that name on success, an I/O error with the cache unchanged when creation fails, and an I/O error with the truncated file when writing fails; every other cache file is kept |
| Covers.HitIgnoresArchive | src-tauri/src/covers/mod.rs:23-28 | on a cache hit the result does not depend on the archive or on I/O faults |
| Covers.SecondExtractionHits | src-tauri/src/covers/mod.rs:23-48 | after a cover was stored, extracting the same archive again returns the same file and leaves the cache alone |
| Covers.PlaceholderNeverHits | src-tauri/src/covers/mod.rs:24-54 | after a placeholder was written the next lookup still misses, and the next extraction writes the same placeholder again |
| Covers.TruncatedCoverHits | src-tauri/src/covers/mod.rs:23-46 | a cover write that fails partway is an error but leaves the truncated `{key}.jpg`, and the next extraction returns that file as a hit |
| Covers.PlaceholderIsSvg | src-tauri/src/covers/mod.rs:218-224 | the placeholder is an SVG document showing "Sem Capa" |
| Covers.ClearCache | src-tauri/src/covers/mod.rs:233-244 | clearing always succeeds; a missing directory stays missing; exactly the subdirectories remain, unchanged |
| Covers.ClearCacheIdempotent | src-tauri/src/covers/mod.rs:233-244 | clearing twice is clearing once |
| Covers.ClearedCacheMisses | src-tauri/src/covers/mod.rs:233-244 | after clearing, the next lookup misses unless `{key}.jpg` was a directory |
| Settings.ParseTheme | src-tauri/src/settings/mod.rs:57-66 | the snake_case theme tags and their parser are inverse: a parsed tag prints back, and every printed tag parses to its theme |
| Settings.ParseViewMode | src-tauri/src/settings/mod.rs:69-77 | the same round trip for the view-mode tags |
| Settings.ParseSort | src-tauri/src/settings/mod.rs:80-92 | the same round trip for the sort tags, `highlight_count` included |
| Settings.ParseDateFormat | src-tauri/src/models/mod.rs:122-128 | the same round trip for the date-format tags |
| Settings.DefaultUi | src-tauri/src/settings/mod.rs:122-134 | theme System, 1200 by 800, not maximized, onboarding shown, grid view, sorted by title |
| Settings.DefaultMetadata | src-tauri/src/settings/mod.rs:147-158 | every metadata toggle is on except the description |
| Settings.DefaultExportConfig | src-tauri/src/settings/mod.rs:136-145 | exports go to "$HOME/Documents/Kobo Highlights", or "./Documents/Kobo Highlights" without HOME, with the default toggles and the "dd Month yyyy" format |
| Settings.DefaultSettings | src-tauri/src/settings/mod.rs:111-120 | default export config and UI, no last import, the build's version |
| Settings.SiblingPathsDiffer | src-tauri/src/settings/mod.rs:254-262 | the backup and temporary paths differ from the settings path and from each other |
| Settings.LoadWithFallback | src-tauri/src/settings/mod.rs:216-233 | an unreadable file is an I/O error; parsable text gives its settings; unparsable text gives the defaults and a copy at `.json.corrupted` |
| Settings.WithPath | src-tauri/src/settings/mod.rs:175-187 | a missing file gives the defaults; an unreadable one an I/O error; only the `.json.corrupted` copy can change the files |
| Settings.DefaultConfigPath | src-tauri/src/settings/mod.rs:168-201 | without HOME the error is HomeNotFound; a failed directory creation is an I/O error; otherwise the path is `settings.json` joined to HOME joined with `Library/Application Support/KoboHighlightsExporter`: relative when HOME is empty, with no doubled '/' when HOME ends in '/' |
| Settings.Backoff | src-tauri/src/settings/mod.rs:265-316 | attempt k is followed by a 100·k ms delay |
| Settings.Attempts | src-tauri/src/settings/mod.rs:265-316 | at most three attempts, with a delay after each failed one except the third; the loop saves exactly when some remaining attempt has its write, rename and read-back succeed and re-parses to the in-memory version, and it stops at the first such attempt; no file other than the settings and temporary files changes |
| Settings.Persist | src-tauri/src/settings/mod.rs:253-335 | success exactly when one of the three attempts works, and then after the first that does, with the settings file holding the new content; failure is always an I/O error after three attempts and delays of 100 and 200 ms |
| Settings.Save | src-tauri/src/settings/mod.rs:243-251 | settings that do not serialize, or whose text does not parse again, give SerializeError with no file touched; otherwise success exactly when one of the three attempts works, and then the settings file holds the serialized settings and verifies |
| Settings.SaveBackupRestore | src-tauri/src/settings/mod.rs:253-330 | when a settings file existed and the backup copy works, the backup holds the old file afterwards; after a failed save with a working restore, the settings file is the old one |
| Settings.SaveTouchesOnlyItsFiles | src-tauri/src/settings/mod.rs:243-336 | no file other than the settings file, its backup and its temporary file is changed by a save |
| Settings.SaveThenLoad | src-tauri/src/settings/mod.rs:243-336 | after a successful save, loading the same path gives settings of the saved version, and exactly the saved settings when the codec round-trips |
| Settings.FirstAttemptSaves | src-tauri/src/settings/mod.rs:265-316 | when the codec round-trips and the first write, rename and read-back work, the save succeeds on attempt 1 with no delay, and the next load gives exactly the saved settings |
| Settings.SetExportConfig | src-tauri/src/settings/mod.rs:349-352 | only the export config changes in memory, whatever the save returns |
| Settings.SetUiPreferences | src-tauri/src/settings/mod.rs:355-358 | only the UI preferences change in memory, whatever the save returns |
| Settings.SetLastImport | src-tauri/src/settings/mod.rs:361-364 | only the last import record changes in memory, whatever the save returns |
| Settings.ResetToDefaults | src-tauri/src/settings/mod.rs:367-370 | the in-memory settings become the defaults, the path is kept, and they are saved |
| Export.ThreePasses | src-tauri/src/export/mod.rs:284-288 | the three `replace` passes equal one left-to-right map of each character |
| Export.SanitizedSafe | src-tauri/src/export/mod.rs:286-288 | no ':', none of / \ ? * \| " < > and no ASCII control character survives |
| Export.SanitizeKeepsSafe | src-tauri/src/export/mod.rs:284-288 | a name without such characters passes through unchanged |
| Export.SanitizeFilename | src-tauri/src/export/mod.rs:279-289 | "Untitled" exactly when the trimmed name is empty, otherwise the character map of the trimmed name; never an unsafe character |
| Export.ControlOnlyNameIsEmpty | src-tauri/src/export/mod.rs:280-288 | a trimmed name made only of control characters sanitizes to the empty string |
| Export.GenerateFilename | src-tauri/src/export/mod.rs:272-276 | sanitized title, " - ", sanitized author, ".md"; the name ends in ".md" and has no unsafe character |
| Export.YearText | src-tauri/src/export/mod.rs:296-316 | years 0 to 9999 print as four digits that read back as the year; other years as a sign and digits that read back as its magnitude |
| Export.FormatDate | src-tauri/src/export/mod.rs:292-321 | text that does not parse is returned unchanged; otherwise "dd/mm/YYYY", "YYYY-mm-dd" or "dd Month year" |
| Export.DayMonthYearReadsBack | src-tauri/src/export/mod.rs:296 | for a four-digit year, "dd/mm/YYYY" is ten characters whose digit fields read back as day, month and year |
| Export.IsoReadsBack | src-tauri/src/export/mod.rs:316 | the same for "YYYY-mm-dd" |
| Export.DayMonthNameReadsBack | src-tauri/src/export/mod.rs:297-314 | "dd Month year" splits at spaces into the two-digit day, the Portuguese month name and the year |
| Export.IntToStringReadsBack | src-tauri/src/export/mod.rs:314 | the year printed with `{}` reads back as the year, behind a minus sign when negative |
| Export.MetadataEntries | src-tauri/src/export/mod.rs:196-218 | exactly the fields whose toggle is on and whose value is present (author: non-empty), each with its value, in the order author, ISBN, publisher, read date, language, description |
| Export.MetadataLines | src-tauri/src/export/mod.rs:196-223 | one `**Label**: value` line per shown field, in the fixed order, and for a shown description a blank line then its text, last; the block is empty exactly when no field is shown |
| Export.AuthorLineShown | src-tauri/src/export/mod.rs:196-198 | a shown, non-empty author is the first metadata line, `**Autor**: ` followed by the name |
| Export.LocationParts | src-tauri/src/export/mod.rs:248-254 | the chapter title first, then the percentage, each only when present |
| Export.HighlightLines | src-tauri/src/export/mod.rs:241-263 | "> text", then, only when a location part exists, a blank line, the parts joined by " · ", a blank line |
| Export.Blocks | src-tauri/src/export/mod.rs:233-235 | one rendered block per highlight, in order |
| Export.HeadLines | src-tauri/src/export/mod.rs:189-223 | "# title" and a blank line, then the metadata followed by a blank line only when there is metadata |
| Export.MarkdownLines | src-tauri/src/export/mod.rs:186-237 | no "---" for a book without highlights; otherwise "---", a blank line and one block per highlight in order |
| Export.GenerateMarkdown | src-tauri/src/export/mod.rs:190 | the document starts with "# title" |
| Export.MarkdownLinesRoundTrip | src-tauri/src/export/mod.rs:186-237 | the document is its lines joined by "\n"; when no line holds a line break, splitting it on "\n" gives those lines back |
| Monitor.Step | src-tauri/src/device/monitor.rs:48-107 | first detection and a changed path or serial emit device-detected and remember the new device; a vanished device emits device-disconnected and forgets it; the same path and serial, no device, or a scan error emit nothing and keep the state; an event counts as delivered exactly when the emit does not fail |
| Monitor.StepTracksScan | src-tauri/src/device/monitor.rs:52-103 | after a successful scan the remembered device is present exactly when one was seen, and it has the seen path and serial |
| Monitor.StepIgnoresEmitFailure | src-tauri/src/device/monitor.rs:63-97 | a failing emit changes neither the event nor the remembered device |
| Monitor.RunRemembersLastEvent | src-tauri/src/device/monitor.rs:41-108 | over any run from no device, a remembered device is the one in the last event, and no device means no event yet or a disconnect last |
| Monitor.NoRepeatedDisconnect | src-tauri/src/device/monitor.rs:41-108 | over any run from no device the first event is a detection, and a disconnect is always followed by a detection |

## Left out

- The SQLite connection, the diagnostic count query and how the LEFT JOINs produce rows (`src-tauri/src/db/kobo.rs:10-31`): the joined rows are the input. Several matching TOC rows simply mean several input rows.
- The query's `ORDER BY BookTitle, DateCreated`: the input sequence is taken to be in the order the query returns.
- `ChapterProgress` is an f64. It is carried as an opaque 64-bit value, and the percentage `(progress * 100.0) as i32` is a function parameter.
- Kobo.ExtractBooks: Rust collects the books from a HashMap, so books with equal titles come out in an unspecified order. The model fixes one order (the grouping's first-appearance order, kept by a stable insertion sort), and its contract promises only sortedness and a permutation.
- Kobo.ExtractBooks: every rusqlite decode failure of a row is one flag and one error; which column failed and the error's text are not kept.
- Zip decoding, `File::open`, `ZipArchive::new` and `read_to_end`: the archive, its openability and its members' bytes are inputs.
- Covers.FallbackCoverPath: a `by_index` failure during the name scan (`src-tauri/src/covers/mod.rs:193`) is not modelled; the scan always succeeds.
- SHA-256 itself: the hash is a parameter. `SystemTime` before the epoch is clamped to 0 seconds, as `unwrap_or_default` does.
- Paths.Parent: Rust's `Path::parent` works on normalised components. The model cuts at the last '/', which differs for paths with trailing or repeated separators and for paths with `.` components: for `a/./b` Rust gives `a` and the model `a/.` (`Paths.ParentKeepsDot`). An OPF member named `OEBPS/./content.opf` therefore resolves its cover under `OEBPS/./`, misses in the archive, and gives a zip error where the source finds the cover.
- Paths.JoinPath: hrefs are not normalised ("../" or "%20" stay as written). Such a path then misses in the archive, and `extract_cover` returns a zip error, as in the source.
- `CoverExtractor::new` (it panics when the cache directory cannot be created) and the `cache_dir` accessor.
- Settings.WithExtension: a path ending in '/' is returned unchanged. Rust's `with_extension` ignores the trailing separator and extends the last component (`a/b/` gives `a/b.json.backup`). The settings path always names a file, so no caller reaches this.
- `clear_cache` failing partway through (`read_dir` or `remove_file` errors): the model's clearing always succeeds.
- Settings.Persist: the settings copies, the temporary-file write and the rename are whole-file and atomic; a partial copy or write there is not represented.
- Covers.ExtractCover: a `read_to_end` failure on a damaged archive member is not modelled; a member that opens by name always reads in full.
- serde_json printing and parsing, and the camelCase/snake_case key aliases: the codec is a pair of function parameters. The enum tags are modelled as the strings serde would produce.
- `thread::sleep`: only the delay values are recorded.
- The `HOME` lookup and `env!("CARGO_PKG_VERSION")`: both are fields of an environment parameter. `create_dir_all` failing is an input flag.
- `SettingsManager::get`, `get_mut` and `config_path`: plain accessors.
- chrono's `%Y-%m-%d` parser: a parameter returning a year, month and day. A `date_last_read` value carrying a time part does not parse and is printed as stored.
- `export_book`, `export_books`, `MarkdownExporter::new` and the other file writes in `src-tauri/src/export/mod.rs`.
- Device scanning, `.kobo` probing and database validation in `src-tauri/src/device/mod.rs`: the scan outcome is an input.
- The monitor thread, its two-second sleep, the Mutex and Tauri's `emit`: whether an emit fails is an input.
- `src-tauri/src/commands/mod.rs`, `src-tauri/src/utils/logger.rs`, `src-tauri/src/lib.rs` and `src-tauri/src/window.rs`: command glue, logging, bootstrap and window timers.
- `ImportProgress.percentage`: a float with no logic behind it.
- String positions: Rust slices strings at byte offsets, the model at characters. Every marker searched for is ASCII, so the same substrings are cut.
