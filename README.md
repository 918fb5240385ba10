# PDF crawler engine, modelled in Dafny

This project models the deterministic core of `pdf_crawler.py`, a breadth-first crawler.
The crawler walks a website directory, downloads every PDF it finds, and keeps three things
on disk: a CSV manifest of its downloads, a JSON checkpoint to resume from, and the mirrored
files themselves. The model covers:

- **The scope guard and local-path derivation** (`scope_guard.dfy`, over `pytext.dfy` and
  `urls.dfy`): `sanitize_filename`, `get_filename_from_cd` (the regex
  `filename="?([^"]+)"?`, leftmost match), `get_local_path`, and `is_subpath`. The URL reaches
  `get_local_path` through a concrete model of the `urlparse(url).netloc`/`.path` and
  `unquote` functions it calls.
- **The BFS frontier** (`frontier.dfy`, and the `CrawlerState` class in `crawler.dfy`):
  - seeding, the FIFO `popleft`, and the link loop;
  - the invariant that the queue is exactly the enqueued URLs not yet popped, in order;
  - that no URL is enqueued twice, and that every enqueued URL is visited.
- **The AIMD concurrency controller** (`aimd.dfy`): the additive increase on a monitor tick,
  the halving on a failed download, and admission only while a slot is free.
- **The checkpoint record** (`checkpoint.dfy`): save turns the set and the queue into
  lists; load turns them back.
- **The manifest** (`manifest.dfy`): an in-memory buffer, a CSV report kept as its sequence
  of lines (header, then rows), and the append-on-flush.
- **The controller `crawl`** (`crawler.dfy`): the class `CrawlerState` with its fields
  updated in place by methods with `modifies` clauses.
  - The main `while state.queue or state.active_downloads > 0` loop is a `while` loop.
  - It is driven by a finite script of steps. Each step is one pass of the main loop,
    preceded by what the monitor thread and the finished workers did meanwhile, or it is a
    stop signal.
  - The loop invariant (`Running`) bundles three facts:
    - the concurrency bounds hold, and a valid frontier stays valid;
    - every entry logged is either in the report or still buffered, in order;
    - the download and error counters count the logged successes and failures.

Where the repository's own comments and the code disagree, the model follows the code, with
two exceptions: the defects listed under "## Findings". For those the class `CrawlerState`
runs the corrected behaviour, and the code as written is modelled beside it on values. The
other disagreements:

- `is_subpath` is a plain string-prefix test, despite the docstring's promise at lines
  245-247. `root/../secret` is inside the scope `root/` (`ScopeGuard.DotDotPassesScope`), and
  `sanitize_filename` keeps `..` (`ScopeGuard.SanitizeKeepsDotDot`).
- Only NUL is removed from names, not other control characters.
- The pre-check return in `download_pdf` (lines 357-360) logs no manifest row. Every other
  outcome logs exactly one.
- `scanned` is documented as the number of pages scanned (line 43), but it counts the links
  enqueued (line 552).
- `concurrency_limit` starts at 2 whatever the cap, so `limit <= cap` holds only for a cap of
  at least 2. The proved bound is `1 <= limit <= max(2, cap)`.
- `active_downloads <= limit` is not an invariant, because halving can leave more downloads
  in flight than the new limit allows. The proved bounds are `active <= max(2, cap)` and
  admission only while `active < limit`.

## Model

| member | source | states |
|---|---|---|
| Util.ListElems | pdf_crawler.py:95 | `list(set)`: every element of the set listed exactly once |
| PyText.Lower | pdf_crawler.py:522 | lower-casing keeps the length and maps each character independently, index by index |
| PyText.RunEndIsEnd | pdf_crawler.py:212 | the run of copies of `c` found from `i` is all `c`, and the character after it is not `c` |
| PyText.LStripRemovesOnly | pdf_crawler.py:212 | `LStrip`, that is `lstrip(c)`, removes only leading copies of `c`, and what remains does not start with `c` |
| PyText.RStrip | pdf_crawler.py:217 | `rstrip(c)` gives a prefix that does not end in `c`, and everything removed was `c` |
| PyText.AfterLastUpToIsLast | pdf_crawler.py:215 | within the first `n` characters, the index found is just after a `c`, and no later index holds `c` |
| PyText.AfterLastIsLast | pdf_crawler.py:215 | `rfind(c) + 1` points just after the last `c`, and no later character is `c` |
| PyText.Split | pdf_crawler.py:223 | `split(sep)` gives at least one piece, no piece contains `sep`, and the first piece is a prefix of the input |
| PyText.SplitJoin | pdf_crawler.py:223 | joining the pieces of `split(sep)` with `sep` gives back the input |
| PyText.SplitWithoutSep | pdf_crawler.py:541 | a string without `sep` splits into itself alone |
| PyText.SplitAppend | pdf_crawler.py:223 | splitting `a + sep + b` splits `a` and `b` separately |
| PyText.NonEmpty | pdf_crawler.py:224 | the filter `if p` keeps no empty part |
| PyText.NonEmptyKeepsOthers | pdf_crawler.py:224 | the filter drops exactly the empty parts, and every other part is kept as often as it occurs |
| PyText.NonEmptyAppend | pdf_crawler.py:224 | the filter distributes over concatenation |
| PyText.TrailingSlashSegments | pdf_crawler.py:217 | a trailing `/` adds no path component |
| PyText.RStripSegments | pdf_crawler.py:217 | stripping trailing slashes keeps the path's components |
| PyText.Basename | pdf_crawler.py:215 | `basename(p)` is a suffix of `p` |
| PyText.OccursFromIsIn | pdf_crawler.py:215 | the index-by-index scan is the `in` test on the suffix |
| PyText.InBasenameIsIn | pdf_crawler.py:215 | the scan from the last `/` is `c in basename(p)` |
| PyText.BasenameHasNoSlash | pdf_crawler.py:215 | a base name holds no `/` |
| PyText.DirnameSegments | pdf_crawler.py:217 | `Dirname`, that is `dirname(p)`, holds exactly the components of `p` except its base name |
| PyText.JoinAllExtends | pdf_crawler.py:242 | `JoinAll`, `os.path.join` as repeated `PathJoin`: with no component after the first holding a `/`, it only extends its first argument |
| Urls.FindFrom | pdf_crawler.py:208 | `find(c, start)` gives the first index at or after `start` holding `c`, or -1 exactly when there is none |
| Urls.FindFromIs | pdf_crawler.py:208 | the first occurrence is the index `find` returns |
| Urls.FirstOfFrom | pdf_crawler.py:208 | the delimiter scan stops at the first of the stop characters, or at the end |
| Urls.BeforeFirst | pdf_crawler.py:208 | the text before the first `c` is a prefix without `c`, and the next character is `c` |
| Urls.ListedIsMembership | pdf_crawler.py:208 | the name-by-name test is list membership |
| Urls.SplitScheme | pdf_crawler.py:208 | a scheme is split off only at the first `:`, and the rest is exactly what follows it; without one the URL is kept whole |
| Urls.SchemeCharsUpToAll | pdf_crawler.py:208 | the recursive scheme-character check holds exactly when every character before the `:` is allowed |
| Urls.SplitNetloc | pdf_crawler.py:208 | the network location contains no `/`, `?` or `#` |
| Urls.StripParams | pdf_crawler.py:208 | cutting `;params` leaves a prefix of the path |
| Urls.Parse | pdf_crawler.py:208 | the parsed network location holds no `/`, and the parsed path holds no `?` or `#` |
| Urls.HexValue | pdf_crawler.py:212 | a hexadecimal digit's value is below 16 and gives back that digit; exactly the non-digits give -1 |
| Urls.Unquote | pdf_crawler.py:212 | decoding never lengthens the text, and keeps non-empty text non-empty |
| Urls.UnquotePlain | pdf_crawler.py:212 | text without `%` decodes to itself |
| Urls.UnquoteEncodedSlash | pdf_crawler.py:212 | `%2F` decodes to a `/` between escape-free text |
| Urls.HttpScheme | pdf_crawler.py:208 | `http:` and `https:` are split off as the scheme |
| Urls.HostNetloc | pdf_crawler.py:208 | the network location of `//host/path` is exactly the host |
| Urls.PathBeforeTail | pdf_crawler.py:208 | a query or fragment after the path is cut away and the path is kept whole |
| Urls.ParseHttpUrl | pdf_crawler.py:208 | `http(s)://host/path?query#fragment` parses into exactly that host and that path |
| ScopeGuard.RemoveNul | pdf_crawler.py:167 | `replace('\0', '')` removes exactly the NULs, keeping every other character as often as it occurs |
| ScopeGuard.ReplaceReserved | pdf_crawler.py:169 | each reserved character becomes `_`, one for one, and every other character is kept in place |
| ScopeGuard.SanitizeFilename | pdf_crawler.py:164-169 | `""` becomes `unknown_file`; any other name loses exactly its NULs; the result holds no NUL or reserved character |
| ScopeGuard.SafeNameHasNoSlash | pdf_crawler.py:169 | a sanitized name holds no `/` |
| ScopeGuard.SanitizeKeepsSafeName | pdf_crawler.py:164-169 | a safe, non-empty name is left unchanged |
| ScopeGuard.SanitizeIdempotent | pdf_crawler.py:164-169 | sanitizing twice is sanitizing once, whenever the first result is non-empty |
| ScopeGuard.SanitizeNulOnly | pdf_crawler.py:164-167 | `"\0"` sanitizes to `""`, which sanitizes to `unknown_file`: the one case where idempotence fails |
| ScopeGuard.SanitizeKeepsDotDot | pdf_crawler.py:169 | `..` passes through unchanged |
| ScopeGuard.QuotelessRun | pdf_crawler.py:186 | `[^"]+` consumes the longest quote-free prefix, and stops at a quote |
| ScopeGuard.QuotelessRunUpToQuote | pdf_crawler.py:186 | the capture of `v"rest` is exactly `v` |
| ScopeGuard.CaptureAtShape | pdf_crawler.py:186 | `CaptureAt`, the regex tried at one position: a match at `i` reads `filename=` then an optional quote, then the capture, which is non-empty and quote-free |
| ScopeGuard.FirstCapture | pdf_crawler.py:186-189 | the scan finds no match exactly when no position matches; otherwise it returns the match at the leftmost matching position |
| ScopeGuard.FirstCaptureIsLeftmost | pdf_crawler.py:186-189 | the first matching position is the one the scan returns |
| ScopeGuard.FilenameFromContentDisposition | pdf_crawler.py:183-189 | None for an empty header or when no position matches; otherwise the leftmost match, non-empty and without `"` |
| ScopeGuard.ExampleHeaderMatchesAt12 | pdf_crawler.py:186 | in `attachment; filename="Report (Final).pdf"`, the first match is at index 12 and captures the name |
| ScopeGuard.ExampleHeaderFilename | pdf_crawler.py:175-189 | that header yields `Report (Final).pdf`, with spaces and parentheses kept |
| ScopeGuard.FilenamePrecedence | pdf_crawler.py:227-238 | `ChosenFilename`: the header's filename wins; otherwise the decoded URL base name when it holds a `.`; otherwise `index_doc.pdf`. A header match is never empty, so the `if not filename` test of line 232 decides only on whether there was a match |
| ScopeGuard.ChosenFilename | pdf_crawler.py:227-238 | the chosen filename is never empty, so `sanitize_filename` never has to replace it by `unknown_file` |
| ScopeGuard.ExampleHeaderWins | pdf_crawler.py:227-240 | with that header, an extension-less URL is stored under the declared name |
| ScopeGuard.ExampleNameIsSafe | pdf_crawler.py:240 | the declared example name survives sanitizing |
| ScopeGuard.DirectoryUrlGetsFallback | pdf_crawler.py:233-236 | without a header, a URL ending in `/` gets `index_doc.pdf` |
| ScopeGuard.SanitizeAll | pdf_crawler.py:224 | each directory part is sanitized in place, and every result is safe |
| ScopeGuard.DottedBasenameIsLastSegment | pdf_crawler.py:215-217 | a base name holding `.` is the last component, and `dirname` drops just that component |
| ScopeGuard.DirectoryPartSegments | pdf_crawler.py:212-220 | `DirectoryPart`: the mirrored directories are the path's components, minus a base name that holds `.` |
| ScopeGuard.LocalPathStructure | pdf_crawler.py:208-242 | `LocalPathComponents`: the joined components are the base dir, the sanitized host, the sanitized mirrored directories and the sanitized filename |
| ScopeGuard.LocalPathComponents | pdf_crawler.py:208-242 | at least three components are joined, the base directory first |
| ScopeGuard.JoinSafeExtends | pdf_crawler.py:242 | joining safe components extends the base directory |
| ScopeGuard.LocalPathUnderBase | pdf_crawler.py:208-242 | no component after the base dir holds `/`, NUL or a reserved character (`..` is not excluded) |
| ScopeGuard.LocalPath | pdf_crawler.py:191-242 | `get_local_path` gives a path that starts with the base directory |
| ScopeGuard.NormalizeRoot | pdf_crawler.py:256-257 | the normalized root ends in `/`: a root that already ends in `/` is kept unchanged, any other gets exactly one `/` appended |
| ScopeGuard.IsSubpath | pdf_crawler.py:244-258 | a target inside the scope starts with the root and has a `/` where the normalized root ends |
| ScopeGuard.SubpathOfBareRoot | pdf_crawler.py:256-258 | against a root without `/`, a target is inside exactly when it is `root + "/" + anything` |
| ScopeGuard.SubpathSpellingsAgree | pdf_crawler.py:256-258 | `root` and `root/` define the same scope |
| ScopeGuard.RootNotInOwnScope | pdf_crawler.py:256-258 | a root written without its `/` is not inside its own scope |
| ScopeGuard.SubpathTransitive | pdf_crawler.py:256-258 | scopes nest |
| ScopeGuard.DotDotPassesScope | pdf_crawler.py:256-258 | `root/a/b.pdf` is inside `root/` and `root2/x` is not; `root/../secret` is inside; both root spellings agree |
| Aimd.TickLimit | pdf_crawler.py:317-319 | a tick raises the limit by exactly 1 if and only if `active >= limit - 1` and `limit < cap`, and never above the cap; otherwise the limit is unchanged |
| Aimd.FailLimit | pdf_crawler.py:396 | `max(1, limit // 2)` is at least 1, never raises the limit, and halves it with floor |
| Aimd.AdjustmentsKeepRange | pdf_crawler.py:317-319 | both the tick and the halving of line 396 keep `1 <= limit <= max(2, cap)`; with `cap >= 2`, `limit <= cap` |
| Aimd.AfterTicks | pdf_crawler.py:298-319 | the limit after a run of monitor ticks is never below the limit before them |
| Aimd.TicksBounded | pdf_crawler.py:298-319 | repeated ticks never lower the limit, raise it at most once per tick, and do not pass `max(limit, cap)` |
| Aimd.SaturatedTicksReachCap | pdf_crawler.py:298-319 | when at every tick at least `limit - 1` downloads are active for the limit then in force, the limit grows by exactly one per tick until it reaches the cap |
| Aimd.AfterFailures | pdf_crawler.py:391-396 | after at least one failure the limit is at least 1, and failures never raise a positive limit |
| Aimd.FailuresHalve | pdf_crawler.py:391-396 | `k` failures in a row leave `max(1, limit / 2^k)` |
| Frontier.ValidFrontierExtends | pdf_crawler.py:544-550 | appending distinct, unvisited URLs to the queue and marking them visited keeps the frontier valid |
| Frontier.Defragment | pdf_crawler.py:541 | `split('#')[0]` is a prefix of the link without a `#` |
| Frontier.DefragmentKeepsPlainUrl | pdf_crawler.py:541 | a link without a fragment is kept unchanged |
| Frontier.Defragmented | pdf_crawler.py:540-541 | each link of the page is defragmented, in document order, so no queued URL holds a `#`, and each is a prefix of its link |
| Frontier.Accepted | pdf_crawler.py:540-552 | a page enqueues at most as many URLs as it has links |
| Frontier.AcceptedSound | pdf_crawler.py:544-550 | every URL enqueued was offered, is in scope and was not visited before; none is enqueued twice |
| Frontier.AcceptedStep | pdf_crawler.py:544-550 | one offer either skips the link or enqueues it and marks it visited, then the rest are offered |
| Frontier.AcceptedAdvance | pdf_crawler.py:540-552 | the link loop's bookkeeping: what was accepted so far, followed by what the rest accept, is the whole |
| Frontier.AcceptedComplete | pdf_crawler.py:544-550 | every in-scope link is visited before or enqueued now |
| Frontier.AcceptedIdempotent | pdf_crawler.py:544-550 | offering the same page again enqueues nothing |
| Frontier.AllKnownAcceptsNothing | pdf_crawler.py:544-550 | links that are all visited or out of scope enqueue nothing |
| Checkpoint.PartialLoadCounterexample | pdf_crawler.py:134-144 | `RestoreAsWritten`, the load as written: a document without `stats` returns False after overwriting the queue and the visited set |
| Checkpoint.PartialLoadDuplicatesSeed | pdf_crawler.py:134-144 | as written, the checkpoint `{"visited": ["u"], "queue": ["u"]}` and then the seeding of line 459 leave the queue `[u, u]`, which is not a consistent frontier |
| Checkpoint.Restore | pdf_crawler.py:127-144 | the load succeeds exactly when `visited`, `queue` and `stats` are present; otherwise the state is left exactly as it was |
| Checkpoint.RestoreAgreesWhenLoaded | pdf_crawler.py:127-144 | the corrected load and the code as written agree on success, and whenever they succeed |
| Checkpoint.RestoreRoundTrip | pdf_crawler.py:94-138 | loading what a save wrote (`SnapshotDoc`) gives back the same visited set, queue (in order), start URL and counters |
| Checkpoint.RestoreDefaults | pdf_crawler.py:136-138 | a missing start URL and missing counters take `""`, 0 and 0 |
| Checkpoint.RoundTripKeepsConsistency | pdf_crawler.py:94-138 | a consistent frontier stays consistent through a save and a load |
| Checkpoint.SeededRestoreConsistent | pdf_crawler.py:456-461 | with the corrected load, the start leaves a consistent frontier: after a failed load the queue is the start URL alone |
| Checkpoint.AfterSave | pdf_crawler.py:104-115 | a save leaves the old file, the new document or no file, and never a partial one |
| Manifest.StatusNamesDistinct | pdf_crawler.py:373-397 | `SUCCESS`, `FAILED` and `SKIPPED_EXISTS` are pairwise distinct |
| Manifest.ReportPath | pdf_crawler.py:408 | the report path lies in the output directory and ends in `crawl_report.csv` |
| Manifest.DataRowsOfRows | pdf_crawler.py:421 | the rows written are read back as the same entries |
| Manifest.FlushAppends | pdf_crawler.py:413-421 | `Flushed`, the report after an append: exactly the buffer after the existing rows, existing lines untouched, a header only in a new file, and a well-formed report kept well-formed |
| Manifest.FlushesCompose | pdf_crawler.py:403-424 | two flushes in a row leave the same report as one flush of both buffers |
| Manifest.FlushedReportEntries | pdf_crawler.py:413-424 | in the map of report files, a flush adds exactly the buffered entries to the report at its path |
| Manifest.ExitFlushTargetMismatch | pdf_crawler.py:437 | `ExitFlushTargetAsWritten`, the exit flush as written: for `--output out` it writes to a different report |
| Crawler.CrawlerState.constructor | pdf_crawler.py:56-80 | the newly created state: zero counters, limit 2, cap 30, empty collections |
| Crawler.Disk.constructor | pdf_crawler.py:82-144 | the persistent files: the checkpoint file and the CSV reports by path, as given |
| Crawler.CrawlerState.FrontierValidIsConsistent | pdf_crawler.py:94-96 | a valid frontier is what a checkpoint needs to resume from |
| Crawler.CrawlerState.Seed | pdf_crawler.py:457-461 | a fresh start queues and visits the start URL, which becomes the scope |
| Crawler.CrawlerState.PopFront | pdf_crawler.py:513 | `popleft` returns the front, which is the URL enqueued earliest among those still queued, and it is visited |
| Crawler.CrawlerState.Enqueue | pdf_crawler.py:549-552 | an accepted link is visited, queued and counted, and the frontier stays valid |
| Crawler.CrawlerState.OfferLink | pdf_crawler.py:541-552 | a link is enqueued exactly when its defragmented form is unvisited and in scope |
| Crawler.CrawlerState.OfferAt | pdf_crawler.py:540-552 | one pass of the link loop extends the accepted prefix by that link's verdict |
| Crawler.CrawlerState.OfferLinks | pdf_crawler.py:540-555 | the queue grows by exactly `Accepted` of the page's defragmented links, the visited set by the same URLs, and the frontier stays valid |
| Crawler.CrawlerState.MonitorTick | pdf_crawler.py:317-319 | one monitor round sets the limit to `TickLimit` |
| Crawler.CrawlerState.Admit | pdf_crawler.py:528-529 | a submission adds one download in flight |
| Crawler.CrawlerState.TaskDone | pdf_crawler.py:341-344 | the done callback releases one |
| Crawler.CrawlerState.LogManifest | pdf_crawler.py:260-277 | one entry is appended to the buffer |
| Crawler.CrawlerState.StreamChunks | pdf_crawler.py:381-385 | the counted bytes grow by the sum of the chunk lengths |
| Crawler.CrawlerState.DownloadPdf | pdf_crawler.py:346-397 | the pre-check logs nothing; every other outcome logs exactly one entry, `DownloadEntry`, with its path, status and error; a failure counts an error and halves the limit; a completed transfer counts a download |
| Crawler.CrawlerState.LogDownload | pdf_crawler.py:389-397 | the entry logged is the download's own `DownloadEntry` |
| Crawler.CrawlerState.CountOutcome | pdf_crawler.py:381-396 | the counters change by the outcome: bytes written, one error and the halving on failure, one download on success |
| Crawler.CrawlerState.Snapshot | pdf_crawler.py:94-102 | the document lists every visited URL exactly once, and carries the queue, start URL and counters |
| Crawler.CrawlerState.SaveCheckpoint | pdf_crawler.py:82-115 | after a save, any later load gets exactly the current progress back; a failed temp write keeps the old file; a failed rename leaves none |
| Crawler.CrawlerState.LoadCheckpoint | pdf_crawler.py:117-144 | the state becomes the restored record, or stays exactly as it was; a loaded consistent record gives a valid frontier |
| Crawler.CrawlerState.SaveManifestCsv | pdf_crawler.py:403-428 | a non-empty buffer is appended to the report and emptied when the write succeeds; otherwise nothing changes |
| Crawler.CrawlerState.GracefulExit | pdf_crawler.py:430-437 | the checkpoint is saved, and the buffer is flushed to the crawl's own report |
| Crawler.CrawlerState.Flush | pdf_crawler.py:494-495 | the periodic flush keeps the loop invariant, and a successful one empties the buffer |
| Crawler.CrawlerState.FinishWorker | pdf_crawler.py:341-344 | a finished worker's download is recorded, its slot is released, and the invariant is kept |
| Crawler.CrawlerState.RecordedDownload | pdf_crawler.py:346-397 | a download keeps the manifest ledger and keeps the limit in range |
| Crawler.CrawlerState.ApplyEvents | pdf_crawler.py:298-336 | monitor ticks, timed saves and finished workers keep the loop invariant and never add downloads in flight |
| Crawler.CrawlerState.Iterate | pdf_crawler.py:492-555 | one pass keeps the invariant. When the queue is not empty and a slot is free, the front URL is visited as `Visit` states; otherwise the queue, the visited set, `scanned` and the downloads in flight are unchanged |
| Crawler.CrawlerState.Visit | pdf_crawler.py:512-555 | the front URL is popped; the queue, the visited set and `scanned` then grow by exactly `Discovered`, which is `Accepted` of the defragmented links of a fetched HTML page and nothing otherwise; a URL classified as a PDF, and only such a URL, becomes a new download in flight; the scheduling invariant is kept |
| Crawler.CrawlerState.Interrupt | pdf_crawler.py:430-438 | a stop signal saves the checkpoint and flushes to the crawl's report, keeping the invariant |
| Crawler.CrawlerState.Resume | pdf_crawler.py:455-461 | the persisted fields are exactly `SeedAfterLoad` of the corrected load: the loaded record, or the start URL queued and visited after a failed load |
| Crawler.CrawlerState.Start | pdf_crawler.py:455-465 | the start URL and counters of the corrected load or of a fresh seed, a valid frontier when the loaded one is consistent, the scope with a trailing `/`, and the recorded cap |
| Crawler.CrawlerState.MainLoop | pdf_crawler.py:492-570 | the loop keeps its invariant; when the work is finished, the queue is empty, nothing is in flight, and the checkpoint is removed |
| Crawler.CrawlerState.RunFrom | pdf_crawler.py:489-570 | from a started state: the frontier, the ledger, the counters and the limit bounds hold at the end |
| Crawler.CrawlerState.Crawl | pdf_crawler.py:440-571 | across the whole crawl, whatever the ending: the frontier is valid, no entry is lost or written twice, the counters count the logged outcomes, the limit stays in range, and a cap below 1 is refused |
| Crawler.Classify | pdf_crawler.py:521-535 | a PDF exactly when the probe succeeded and the content type contains `application/pdf` or the URL ends in `.pdf`; an HTML page exactly when it succeeded, is not a PDF and the content type contains `text/html`; a failed probe is skipped |
| Crawler.Discovered | pdf_crawler.py:535-552 | a visit enqueues nothing unless an HTML page was fetched; what it enqueues is unvisited, in scope and free of repeats |
| Crawler.LedgerLogs | pdf_crawler.py:270-277 | logging one entry keeps the ledger |
| Crawler.LedgerFlush | pdf_crawler.py:421-424 | a successful flush keeps the ledger with an empty buffer |
| Crawler.DownloadPath | pdf_crawler.py:355-369 | a path derived after a response lies under the output directory |
| Crawler.DownloadStatus | pdf_crawler.py:373-397 | the `status` of `DownloadEntry`: `SUCCESS` exactly for a completed transfer, `FAILED` exactly for a raised failure |
| Crawler.DownloadError | pdf_crawler.py:397 | the error text is empty unless the download failed |

## Left out

- HTTP (`requests`): the HEAD and GET requests, streaming, `raise_for_status` and the
  connection pool. Their outcomes are inputs: a `Probe`, a `PageFetch` and a
  `DownloadOutcome`.
- BeautifulSoup and `urljoin`: a page's links arrive as absolute URLs, in document order.
  The model does apply `split('#')[0]` to them.
- Threads, locks, `ThreadPoolExecutor`, `time.sleep` and the monitor's stop event.
  Concurrency is modelled as an interleaving in which monitor ticks, timed saves and
  finished workers happen between two passes of the main loop.
- Signals are modelled at pass boundaries only. The process exit after `graceful_exit` ends
  the crawl without its cleanup.
- The `delay` argument, the throughput computation in floating point, the console output and
  argument parsing.
- The filesystem: existence and size checks are part of `DownloadOutcome`; `makedirs` is not
  modelled. JSON and CSV are modelled as decoded documents and lines, not as text.
- The `queued` field is never updated by the code and is not modelled.
- The process ending when `ThreadPoolExecutor` rejects a cap below 1 is modelled as the
  `PoolRejected` ending.
- A finite script drives the crawl. A crawl that never ends has no model beyond its
  finite prefixes.
- gemini_analyzer.py, mock_server.py and integration_test.py are not part of this model.
- Urls.Unquote: decodes each `%XX` to the character with that code, like Latin-1; Python
  decodes percent-encoded UTF-8 sequences into a single character.
- Urls.Parse: does not strip whitespace or control characters, and does not treat `[...]`
  IPv6 hosts specially.
- PyText.Lower: lower-cases ASCII letters only.
- Crawler.CrawlerState.Crawl: a report write that fails halfway is modelled as writing
  nothing. The whole crawl runs the corrected load and the corrected exit flush (see
  "## Findings"). So its guarantees do not cover the program as written, which queues the
  start URL twice after the checkpoint `{"visited": ["u"], "queue": ["u"]}` and sends the rows
  left at an interrupt to `downloads/crawl_report.csv`.
- Crawler.CrawlerState.Start: loads with the corrected `Restore`, so a partial load followed
  by the seeding on top is not modelled in the class. That behaviour is modelled on values by
  `Checkpoint.RestoreAsWritten` and `Checkpoint.SeedAfterLoad`, and shown by
  `Checkpoint.PartialLoadDuplicatesSeed`.

## Findings

| source | as written | input that shows it | evidently intended | confidence | as-written member | corrected member |
|---|---|---|---|---|---|---|
| pdf_crawler.py:134-144 | `load_checkpoint` assigns `visited`, `queue` and `start_url` before reading `data["stats"]`. A document without `stats` raises `KeyError` after those have been overwritten, and False is returned. `crawl` then seeds the start URL on top of the foreign queue. | the checkpoint `{"visited": ["u"], "queue": ["u"]}` with the start URL `u`: the queue becomes `[u, u]` | a failed load leaves the state exactly as it was | not executed | Checkpoint.PartialLoadDuplicatesSeed | Checkpoint.Restore |
| pdf_crawler.py:437 | `graceful_exit` flushes the manifest to the literal directory `downloads`, whatever output directory the crawl was given | a crawl started with `--output out` and then interrupted | the remaining rows go to the crawl's own `crawl_report.csv` | not executed | Manifest.ExitFlushTargetMismatch | Crawler.CrawlerState.GracefulExit |
