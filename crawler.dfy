/**
 * The crawler's mutable state (`CrawlerState`), its worker (`download_pdf`), the manifest
 * flush, the checkpoint save and load, and the BFS controller `crawl`.
 *
 * Threads are not modelled. What the network, the filesystem and the other threads do is
 * handed to `Crawl` as a finite script: each step is either one pass of the main loop,
 * preceded by whatever the monitor and the workers did meanwhile, or a stop signal.
 */
module Crawler {
  import opened Util
  import opened PyText
  import opened Urls
  import opened ScopeGuard
  import opened Frontier
  import opened Aimd
  import opened Checkpoint
  import opened Manifest

  /** The manifest is flushed whenever the download count is a positive multiple of this. */
  const FlushEvery: int := 50

  /** `local_path` of a failure raised before the response headers were seen. */
  const UnknownPath: string := "unknown"

  /** Something the monitor thread or a worker did between two passes of the main loop. */
  datatype Event =
    | Tick
      // one round of `monitor_performance`'s concurrency adjustment
    | WorkerDone(task: nat, outcome: DownloadOutcome, timestamp: string)
      // the in-flight download at index `task` ran to its end, then its done callback
    | TimedSave(save: SaveOutcome)
      // the monitor's periodic checkpoint

  /** What the HEAD request of a popped URL gives. */
  datatype Probe = HeadFailed | HeadOk(contentType: string)

  /** What the GET of an HTML page gives: its links made absolute, in document order. */
  datatype PageFetch = GetFailed | Links(links: seq<string>)

  /** One step of the script that drives `Crawl`. */
  datatype Step =
    | Pass(events: seq<Event>, flushOk: bool, probe: Probe, page: PageFetch)
      // the events since the last pass, then one pass of the main loop
    | Signal(save: SaveOutcome, flushOk: bool)
      // SIGINT or SIGTERM: `graceful_exit`, then the process ends

  /** How `Crawl` ends. */
  datatype CrawlEnd =
    | Finished        // queue empty and no download in flight: final flush, checkpoint removed
    | Interrupted     // a stop signal
    | ScriptExhausted // the script ran out while work remained
    | PoolRejected    // the thread pool refused a cap below 1

  /**
   * Ghost facts fixed when the main loop starts: the thread cap, the report path and the
   * entries it held, whether the frontier was valid and the report well-formed, and the
   * loaded counters.
   */
  datatype Baseline = Baseline(
    cap: int,
    path: string,
    prior: seq<ManifestEntry>,
    sound: bool,
    reportWF: bool,
    scannedBase: int,
    downloaded0: int)

  /** What one `download_pdf` call meets on the network and on disk. */
  datatype DownloadOutcome =
    | AlreadyOnDisk
      // the path derived from the URL alone exists and is non-empty
    | RequestFailed(error: string)
      // the GET raised, or its status was an error
    | Responded(contentDisposition: Option<string>, transfer: Transfer)
      // a successful response, with its `Content-Disposition` header, and what followed it

  /** What follows a successful response, once the path with the header's filename is known. */
  datatype Transfer =
    | ExistsUnderHeaderName
      // that path exists and is non-empty
    | WriteFailed(written: seq<nat>, error: string)
      // creating the directory or the file, or the stream, raised after `written` chunks
    | Completed(chunks: seq<nat>)
      // every chunk (its length in bytes) was written

  /** The persistent files the crawler reads and writes. */
  class Disk {
    /** `crawler_checkpoint.json` */
    var checkpoint: CheckpointFile
    /** The CSV reports, by path. */
    var reports: map<string, seq<ReportLine>>

    constructor (checkpoint: CheckpointFile, reports: map<string, seq<ReportLine>>)
      ensures this.checkpoint == checkpoint && this.reports == reports
    {
      this.checkpoint := checkpoint;
      this.reports := reports;
    }
  }

  class CrawlerState {
    var scanned: int
    var downloaded: int
    var errors: int
    var bytesDownloaded: int
    var activeDownloads: int
    var concurrencyLimit: int
    var maxConcurrencyCap: int
    var visited: set<string>
    var queue: seq<string>
    var manifestLog: seq<ManifestEntry>
    var startUrl: string

    /** Every URL appended to the queue since the state was created or loaded, in order. */
    ghost var enqueued: seq<string>
    /** How many of them have been taken off the front of the queue. */
    ghost var popped: nat
    /** Every manifest entry logged, in order. */
    ghost var logged: seq<ManifestEntry>

    /** The state of a newly constructed `CrawlerState`. */
    ghost predicate Fresh()
      reads this
    {
      && scanned == 0 && downloaded == 0 && errors == 0 && bytesDownloaded == 0
      && activeDownloads == 0 && concurrencyLimit == InitialLimit && maxConcurrencyCap == DefaultCap
      && visited == {} && queue == [] && manifestLog == [] && startUrl == ""
      && enqueued == [] && popped == 0 && logged == []
    }

    constructor ()
      ensures Fresh()
    {
      scanned, downloaded, errors, bytesDownloaded := 0, 0, 0, 0;
      activeDownloads, concurrencyLimit, maxConcurrencyCap := 0, InitialLimit, DefaultCap;
      visited, queue, manifestLog, startUrl := {}, [], [], "";
      enqueued, popped, logged := [], 0, [];
    }

    /** The fields a checkpoint carries. */
    function CurrentProgress(): Progress
      reads this
    {
      Progress(visited, queue, startUrl, scanned, downloaded)
    }

    /** The frontier of this state is a valid BFS frontier. */
    ghost predicate FrontierValid()
      reads this`popped, this`enqueued, this`queue, this`visited
    {
      ValidFrontier(popped, enqueued, queue, visited)
    }

    /** A valid frontier is what a checkpoint needs to resume from. */
    lemma FrontierValidIsConsistent()
      requires FrontierValid()
      ensures Consistent(CurrentProgress())
    {
      forall i, j | 0 <= i < j < |queue| ensures queue[i] != queue[j] {
        assert queue[i] == enqueued[popped + i] && queue[j] == enqueued[popped + j];
      }
      forall i | 0 <= i < |queue| ensures queue[i] in visited {
        assert queue[i] == enqueued[popped + i];
      }
    }

    /** The fresh start of `crawl`: the start URL is queued, visited and becomes the scope. */
    method Seed(url: string)
      modifies this`queue, this`visited, this`startUrl, this`enqueued
      ensures queue == old(queue) + [url] && enqueued == old(enqueued) + [url]
      ensures visited == old(visited) + {url} && startUrl == url
      ensures old(FrontierValid()) && url !in old(visited) ==> FrontierValid()
    {
      queue := queue + [url];
      visited := visited + {url};
      startUrl := url;
      enqueued := enqueued + [url];
      if old(FrontierValid()) && url !in old(visited) {
        assert enqueued[popped..] == old(enqueued)[popped..] + [url];
      }
    }

    /** `state.queue.popleft()`: the URL enqueued earliest among those still queued. */
    method PopFront() returns (url: string)
      requires queue != []
      modifies this`queue, this`popped
      ensures url == old(queue)[0] && queue == old(queue)[1..]
      ensures popped == old(popped) + 1
      ensures old(FrontierValid()) ==> FrontierValid() && url == enqueued[popped - 1] && url in visited
    {
      url := queue[0];
      queue := queue[1..];
      popped := popped + 1;
    }

    /** One accepted link: visited, appended to the queue and counted in `scanned`. */
    method Enqueue(url: string)
      requires url !in visited
      modifies this`visited, this`queue, this`scanned, this`enqueued
      ensures visited == old(visited) + {url} && queue == old(queue) + [url]
      ensures enqueued == old(enqueued) + [url] && scanned == old(scanned) + 1
      ensures old(FrontierValid()) ==> FrontierValid()
    {
      visited := visited + {url};
      queue := queue + [url];
      enqueued := enqueued + [url];
      scanned := scanned + 1;
      if old(FrontierValid()) {
        assert enqueued[popped..] == old(enqueued)[popped..] + [url];
      }
    }

    /**
     * One discovered link: it loses its fragment, is skipped when visited, and is visited,
     * queued and counted in `scanned` when it lies inside `scope`; otherwise it is dropped.
     */
    method OfferLink(link: string, scope: string) returns (accepted: bool)
      modifies this`visited, this`queue, this`scanned, this`enqueued
      ensures var u := Defragment(link);
        && accepted == (u !in old(visited) && IsSubpath(u, scope))
        && queue == old(queue) + (if accepted then [u] else [])
        && enqueued == old(enqueued) + (if accepted then [u] else [])
        && visited == old(visited) + (if accepted then {u} else {})
        && scanned == old(scanned) + (if accepted then 1 else 0)
      ensures old(FrontierValid()) ==> FrontierValid()
    {
      var absUrl := Defragment(link);
      accepted := false;
      if absUrl in visited {
        return;
      }
      if IsSubpath(absUrl, scope) {
        Enqueue(absUrl);
        accepted := true;
      }
    }

    /**
     * The link loop's progress after the first `i` of the defragmented links `abs`: what was
     * appended so far, followed by what the remaining links accept, is the whole; the queue, the
     * enqueued URLs, the visited set and `scanned` have grown by exactly what was appended.
     */
    ghost predicate OfferedSoFar(q0: seq<string>, e0: seq<string>, v0: set<string>, s0: int, scope: string,
                                 abs: seq<string>, i: nat, added: seq<string>)
      reads this`queue, this`enqueued, this`visited, this`scanned
    {
      && i <= |abs|
      && added + Accepted(visited, abs[i..], scope) == Accepted(v0, abs, scope)
      && queue == q0 + added && enqueued == e0 + added
      && visited == v0 + Elems(added) && scanned == s0 + |added|
    }

    /** One pass of the link loop: the link at position `i` is offered. */
    method OfferAt(links: seq<string>, i: nat, scope: string, ghost abs: seq<string>,
                   ghost q0: seq<string>, ghost e0: seq<string>, ghost v0: set<string>, ghost s0: int,
                   ghost added: seq<string>) returns (ghost added': seq<string>)
      requires i < |links| && abs == Defragmented(links)
      requires OfferedSoFar(q0, e0, v0, s0, scope, abs, i, added)
      modifies this`visited, this`queue, this`scanned, this`enqueued
      ensures OfferedSoFar(q0, e0, v0, s0, scope, abs, i + 1, added')
      ensures old(FrontierValid()) ==> FrontierValid()
    {
      ghost var u, v := abs[i], visited;
      var accepted := OfferLink(links[i], scope);
      added' := added;
      if accepted {
        assert Elems(added + [u]) == Elems(added) + {u};
        ConcatAssoc(q0, added, [u]);
        ConcatAssoc(e0, added, [u]);
        added' := added + [u];
      }
      AcceptedAdvance(v0, abs, i, scope, added, v, added', visited);
    }

    /**
     * The link loop of one scanned page, over the page's links made absolute. What is
     * appended to the queue is exactly `Accepted` of the defragmented links.
     */
    method OfferLinks(links: seq<string>, scope: string)
      modifies this`visited, this`queue, this`scanned, this`enqueued
      ensures var acc := Accepted(old(visited), Defragmented(links), scope);
        && queue == old(queue) + acc
        && enqueued == old(enqueued) + acc
        && visited == old(visited) + Elems(acc)
        && scanned == old(scanned) + |acc|
      ensures old(FrontierValid()) ==> FrontierValid()
    {
      ghost var abs := Defragmented(links);
      ghost var added: seq<string> := [];
      var i := 0;
      while i < |links|
        invariant i <= |links|
        invariant OfferedSoFar(old(queue), old(enqueued), old(visited), old(scanned), scope, abs, i, added)
        invariant old(FrontierValid()) ==> FrontierValid()
      {
        added := OfferAt(links, i, scope, abs, old(queue), old(enqueued), old(visited), old(scanned), added);
        i := i + 1;
      }
      assert added == Accepted(old(visited), abs, scope);
    }

    /** The additive-increase step of `monitor_performance`. */
    method MonitorTick()
      modifies this`concurrencyLimit
      ensures concurrencyLimit == TickLimit(activeDownloads, old(concurrencyLimit), maxConcurrencyCap)
    {
      if activeDownloads >= concurrencyLimit - 1 {
        if concurrencyLimit < maxConcurrencyCap {
          concurrencyLimit := concurrencyLimit + 1;
        }
      }
    }

    /** A download is submitted. */
    method Admit()
      modifies this`activeDownloads
      ensures activeDownloads == old(activeDownloads) + 1
    {
      activeDownloads := activeDownloads + 1;
    }

    /** `download_task_done` */
    method TaskDone()
      modifies this`activeDownloads
      ensures activeDownloads == old(activeDownloads) - 1
    {
      activeDownloads := activeDownloads - 1;
    }

    /** `log_manifest`: one entry is appended to the buffer. */
    method LogManifest(timestamp: string, url: string, localPath: string, status: Status, error: string)
      modifies this`manifestLog, this`logged
      ensures manifestLog == old(manifestLog) + [ManifestEntry(timestamp, url, localPath, status, error)]
      ensures logged == old(logged) + [ManifestEntry(timestamp, url, localPath, status, error)]
    {
      manifestLog := manifestLog + [ManifestEntry(timestamp, url, localPath, status, error)];
      logged := logged + [ManifestEntry(timestamp, url, localPath, status, error)];
    }

    /** The streaming loop: each non-empty chunk adds its length to `bytes_downloaded`. */
    method StreamChunks(chunks: seq<nat>)
      modifies this`bytesDownloaded
      ensures bytesDownloaded == old(bytesDownloaded) + Sum(chunks)
    {
      var i := 0;
      while i < |chunks|
        invariant 0 <= i <= |chunks|
        invariant bytesDownloaded == old(bytesDownloaded) + Sum(chunks[..i])
      {
        SumPrefix(chunks, i);
        if chunks[i] > 0 {
          bytesDownloaded := bytesDownloaded + chunks[i];
        }
        i := i + 1;
      }
      assert chunks[..i] == chunks;
    }

    /**
     * `download_pdf(url, output_dir)` with the given outcome. Every outcome except the
     * pre-check logs exactly one entry; a failure counts an error and halves the limit.
     */
    method DownloadPdf(url: string, outputDir: string, outcome: DownloadOutcome, timestamp: string)
      modifies this`errors, this`downloaded, this`bytesDownloaded, this`concurrencyLimit,
               this`manifestLog, this`logged
      ensures errors == old(errors) + (if Fails(outcome) then 1 else 0)
      ensures concurrencyLimit == (if Fails(outcome) then FailLimit(old(concurrencyLimit)) else old(concurrencyLimit))
      ensures downloaded == old(downloaded) + (if Succeeds(outcome) then 1 else 0)
      ensures bytesDownloaded == old(bytesDownloaded) + WrittenBytes(outcome)
      ensures outcome.AlreadyOnDisk? ==> logged == old(logged) && manifestLog == old(manifestLog)
      ensures !outcome.AlreadyOnDisk? ==>
        var e := DownloadEntry(timestamp, url, outputDir, outcome);
        logged == old(logged) + [e] && manifestLog == old(manifestLog) + [e]
    {
      if !outcome.AlreadyOnDisk? {
        CountOutcome(outcome);
        LogDownload(timestamp, url, outputDir, outcome);
      }
    }

    /** The `log_manifest` call at the end of `download_pdf`: the download's own entry is logged. */
    method LogDownload(timestamp: string, url: string, outputDir: string, outcome: DownloadOutcome)
      modifies this`manifestLog, this`logged
      ensures manifestLog == old(manifestLog) + [DownloadEntry(timestamp, url, outputDir, outcome)]
      ensures logged == old(logged) + [DownloadEntry(timestamp, url, outputDir, outcome)]
    {
      LogManifest(timestamp, url, DownloadPath(url, outputDir, outcome), DownloadStatus(outcome), DownloadError(outcome));
    }

    /** The counters a download that got past the pre-check updates: bytes streamed, the error count and the limit. */
    method CountOutcome(outcome: DownloadOutcome)
      modifies this`errors, this`downloaded, this`bytesDownloaded, this`concurrencyLimit
      ensures errors == old(errors) + (if Fails(outcome) then 1 else 0)
      ensures concurrencyLimit == (if Fails(outcome) then FailLimit(old(concurrencyLimit)) else old(concurrencyLimit))
      ensures downloaded == old(downloaded) + (if Succeeds(outcome) then 1 else 0)
      ensures bytesDownloaded == old(bytesDownloaded) + WrittenBytes(outcome)
    {
      match outcome {
        case Responded(_, WriteFailed(written, _)) => StreamChunks(written);
        case Responded(_, Completed(chunks)) => StreamChunks(chunks);
        case _ =>
      }
      if Fails(outcome) {
        errors := errors + 1;
        concurrencyLimit := Max(1, concurrencyLimit / 2);
      }
      if Succeeds(outcome) {
        downloaded := downloaded + 1;
      }
    }

    /** `list(self.visited)`: the visited set listed once each, in some order. */
    method Snapshot() returns (visitedList: seq<string>, doc: CheckpointDoc)
      ensures Elems(visitedList) == visited && Distinct(visitedList)
      ensures doc == SnapshotDoc(visitedList, CurrentProgress())
    {
      visitedList := ListElems(visited);
      doc := SnapshotDoc(visitedList, CurrentProgress());
    }

    /**
     * `save_checkpoint`: after a save, whatever state later loads the file gets exactly the
     * current progress back; a failure leaves either the old file or none.
     */
    method SaveCheckpoint(disk: Disk, outcome: SaveOutcome)
      modifies disk`checkpoint
      ensures outcome.Saved? ==>
        disk.checkpoint.Present? && forall p :: Restore(disk.checkpoint, p) == LoadResult(true, CurrentProgress())
      ensures outcome.TempWriteFailed? ==> disk.checkpoint == old(disk.checkpoint)
      ensures outcome.RenameFailed? ==> disk.checkpoint == Missing
    {
      var visitedList, doc := Snapshot();
      disk.checkpoint := AfterSave(disk.checkpoint, doc, outcome);
      if outcome.Saved? {
        forall p ensures Restore(disk.checkpoint, p) == LoadResult(true, CurrentProgress()) {
          RestoreRoundTrip(visitedList, CurrentProgress(), p);
        }
      }
    }

    /** `load_checkpoint` with the all-or-nothing restore. */
    method LoadCheckpoint(disk: Disk) returns (loaded: bool)
      modifies this`visited, this`queue, this`startUrl, this`scanned, this`downloaded,
               this`enqueued, this`popped
      ensures var r := Restore(disk.checkpoint, old(CurrentProgress()));
        loaded == r.loaded && CurrentProgress() == r.progress
      ensures loaded ==> enqueued == queue && popped == 0
      ensures !loaded ==> enqueued == old(enqueued) && popped == old(popped)
      ensures loaded && Consistent(CurrentProgress()) ==> FrontierValid()
      ensures !loaded && old(FrontierValid()) ==> FrontierValid()
    {
      var r := Restore(disk.checkpoint, CurrentProgress());
      loaded := r.loaded;
      if loaded {
        visited, queue, startUrl := r.progress.visited, r.progress.queue, r.progress.startUrl;
        scanned, downloaded := r.progress.scanned, r.progress.downloaded;
        enqueued, popped := queue, 0;
      }
    }

    /**
     * `save_manifest_csv(output_dir)`: a non-empty buffer is appended to the report and
     * emptied when the write succeeds; otherwise nothing changes.
     */
    method SaveManifestCsv(disk: Disk, outputDir: string, writeOk: bool)
      modifies this`manifestLog, disk`reports
      ensures var path := ReportPath(outputDir);
        if old(manifestLog) != [] && writeOk then
          && disk.reports == old(disk.reports)[path := Flushed(ReportAt(old(disk.reports), path), old(manifestLog))]
          && manifestLog == []
        else
          disk.reports == old(disk.reports) && manifestLog == old(manifestLog)
    {
      var path := ReportPath(outputDir);
      if manifestLog != [] && writeOk {
        disk.reports := disk.reports[path := Flushed(ReportAt(disk.reports, path), manifestLog)];
        manifestLog := [];
      }
    }

    /** `graceful_exit`, writing the buffer to the crawl's own output directory. */
    method GracefulExit(disk: Disk, outputDir: string, save: SaveOutcome, flushOk: bool)
      modifies disk`checkpoint, disk`reports, this`manifestLog
      ensures save.Saved? ==>
        disk.checkpoint.Present? && forall p :: Restore(disk.checkpoint, p) == LoadResult(true, CurrentProgress())
      ensures save.TempWriteFailed? ==> disk.checkpoint == old(disk.checkpoint)
      ensures save.RenameFailed? ==> disk.checkpoint == Missing
      ensures var path := ReportPath(outputDir);
        if old(manifestLog) != [] && flushOk then
          && disk.reports == old(disk.reports)[path := Flushed(ReportAt(old(disk.reports), path), old(manifestLog))]
          && manifestLog == []
        else
          disk.reports == old(disk.reports) && manifestLog == old(manifestLog)
    {
      SaveCheckpoint(disk, save);
      SaveManifestCsv(disk, outputDir, flushOk);
    }

    /**
     * The concurrency bounds: the cap is the one configured and at least 1, and the limit
     * and the number of downloads in flight stay within `max(2, cap)`.
     */
    ghost predicate WithinLimits(inFlight: seq<string>, cap: int)
      reads this`maxConcurrencyCap, this`concurrencyLimit, this`activeDownloads
    {
      && maxConcurrencyCap == cap >= 1
      && LimitInRange(concurrencyLimit, cap)
      && activeDownloads == |inFlight| <= Max(InitialLimit, cap)
    }

    /**
     * The manifest ledger: every entry logged is either in the report or still buffered, in
     * order; a well-formed report stays well-formed; and the counters are the numbers of
     * successful and failed entries logged.
     */
    ghost predicate Accounted(disk: Disk, b: Baseline)
      reads disk`reports, this`manifestLog, this`logged, this`downloaded, this`errors
    {
      && Ledger(ReportEntries(disk.reports, b.path), manifestLog, logged, downloaded, errors, b)
      && (b.reportWF ==> ReportWellFormed(disk.reports, b.path))
    }

    /**
     * The scheduling half of the loop invariant: the concurrency bounds, a frontier that
     * started valid stays valid, and `scanned` grows with every URL enqueued.
     */
    ghost predicate Scheduled(inFlight: seq<string>, b: Baseline)
      reads this`maxConcurrencyCap, this`concurrencyLimit, this`activeDownloads,
            this`popped, this`enqueued, this`queue, this`visited, this`scanned
    {
      && WithinLimits(inFlight, b.cap)
      && (b.sound ==> FrontierValid())
      && scanned - |enqueued| == b.scannedBase
    }

    /**
     * What holds at every pass of the main loop, given the baseline fixed when it started:
     * the scheduling invariant and the manifest ledger.
     */
    ghost predicate Running(disk: Disk, inFlight: seq<string>, b: Baseline)
      reads this, disk`reports
    {
      Scheduled(inFlight, b) && Accounted(disk, b)
    }

    /** `save_manifest_csv(output_dir)` inside the main loop: no entry is lost or written twice. */
    method Flush(disk: Disk, outputDir: string, writeOk: bool, ghost inFlight: seq<string>, ghost b: Baseline)
      requires Running(disk, inFlight, b) && b.path == ReportPath(outputDir)
      modifies this`manifestLog, disk`reports
      ensures Running(disk, inFlight, b)
      ensures old(manifestLog) != [] && writeOk ==> manifestLog == []
      ensures !(old(manifestLog) != [] && writeOk) ==> manifestLog == old(manifestLog) && disk.reports == old(disk.reports)
    {
      SaveManifestCsv(disk, outputDir, writeOk);
      if old(manifestLog) != [] && writeOk {
        FlushedReportEntries(old(disk.reports), b.path, old(manifestLog));
        LedgerFlush(old(disk.reports), b.path, old(manifestLog), logged, downloaded, errors, b);
      }
    }

    /** The download at index `task` runs to its end and its done callback releases its slot. */
    method FinishWorker(disk: Disk, outputDir: string, inFlight: seq<string>, task: nat,
                        outcome: DownloadOutcome, timestamp: string, ghost b: Baseline)
      returns (rest: seq<string>)
      requires Running(disk, inFlight, b) && b.path == ReportPath(outputDir)
      modifies this`errors, this`downloaded, this`bytesDownloaded, this`concurrencyLimit,
               this`manifestLog, this`logged, this`activeDownloads
      ensures Running(disk, rest, b)
      ensures task < |inFlight| ==> rest == inFlight[..task] + inFlight[task + 1..]
      ensures task >= |inFlight| ==> rest == inFlight && logged == old(logged)
    {
      if task >= |inFlight| {
        return inFlight;
      }
      RecordedDownload(disk, inFlight[task], outputDir, outcome, timestamp, b);
      TaskDone();
      rest := inFlight[..task] + inFlight[task + 1..];
    }

    /** `download_pdf` keeps the manifest ledger and the limit's range. */
    method RecordedDownload(disk: Disk, url: string, outputDir: string, outcome: DownloadOutcome, timestamp: string,
                            ghost b: Baseline)
      requires Accounted(disk, b) && b.path == ReportPath(outputDir) && LimitInRange(concurrencyLimit, b.cap)
      modifies this`errors, this`downloaded, this`bytesDownloaded, this`concurrencyLimit,
               this`manifestLog, this`logged
      ensures Accounted(disk, b) && LimitInRange(concurrencyLimit, b.cap)
    {
      AdjustmentsKeepRange(activeDownloads, concurrencyLimit, b.cap);
      ghost var report := ReportEntries(disk.reports, b.path);
      DownloadPdf(url, outputDir, outcome, timestamp);
      assert ReportEntries(disk.reports, b.path) == report;
      if !outcome.AlreadyOnDisk? {
        ghost var e := DownloadEntry(timestamp, url, outputDir, outcome);
        assert downloaded == old(downloaded) + (if e.status == Success then 1 else 0);
        assert errors == old(errors) + (if e.status == Failed then 1 else 0);
        assert manifestLog == old(manifestLog) + [e] && logged == old(logged) + [e];
        LedgerLogs(report, old(manifestLog), old(logged), old(downloaded), old(errors), b, e);
      }
    }

    /** What the monitor and the workers did since the last pass, in order. */
    method ApplyEvents(disk: Disk, outputDir: string, inFlight: seq<string>, events: seq<Event>,
                       ghost b: Baseline) returns (rest: seq<string>)
      requires Running(disk, inFlight, b) && b.path == ReportPath(outputDir)
      modifies this`errors, this`downloaded, this`bytesDownloaded, this`concurrencyLimit,
               this`manifestLog, this`logged, this`activeDownloads, disk`checkpoint
      ensures Running(disk, rest, b)
      ensures |rest| <= |inFlight|
    {
      rest := inFlight;
      var i := 0;
      while i < |events|
        invariant 0 <= i <= |events|
        invariant Running(disk, rest, b) && |rest| <= |inFlight|
      {
        match events[i] {
          case Tick =>
            AdjustmentsKeepRange(activeDownloads, concurrencyLimit, maxConcurrencyCap);
            MonitorTick();
          case WorkerDone(task, outcome, timestamp) =>
            rest := FinishWorker(disk, outputDir, rest, task, outcome, timestamp, b);
          case TimedSave(save) =>
            SaveCheckpoint(disk, save);
        }
        i := i + 1;
      }
    }

    /**
     * One pass of the main loop: the periodic flush; then, when the queue is not empty and a
     * download slot is free, the URL at the front is visited.
     */
    method Iterate(disk: Disk, outputDir: string, scope: string, inFlight: seq<string>,
                   flushOk: bool, probe: Probe, page: PageFetch, ghost b: Baseline)
      returns (next: seq<string>)
      requires Running(disk, inFlight, b) && b.path == ReportPath(outputDir)
      modifies this`manifestLog, disk`reports, this`queue, this`popped, this`activeDownloads,
               this`visited, this`scanned, this`enqueued
      ensures Running(disk, next, b)
      ensures old(queue) == [] ==> queue == [] && next == inFlight
      ensures next == inFlight || (old(queue) != [] && old(activeDownloads) < concurrencyLimit
                                   && next == inFlight + [old(queue)[0]])
      ensures old(queue) != [] && old(activeDownloads) < concurrencyLimit ==>
        var kind := Classify(probe, old(queue)[0]);
        var acc := Discovered(kind, page, old(visited), scope);
        && popped == old(popped) + 1
        && queue == old(queue)[1..] + acc && visited == old(visited) + Elems(acc) && scanned == old(scanned) + |acc|
        && next == (if kind == PdfDocument then inFlight + [old(queue)[0]] else inFlight)
      ensures !(old(queue) != [] && old(activeDownloads) < concurrencyLimit) ==>
        && popped == old(popped) && queue == old(queue) && visited == old(visited) && scanned == old(scanned)
        && next == inFlight
      ensures activeDownloads == old(activeDownloads) + |next| - |inFlight|
    {
      if downloaded > 0 && downloaded % FlushEvery == 0 {
        Flush(disk, outputDir, flushOk, inFlight, b);
      }
      if queue != [] && activeDownloads < concurrencyLimit {
        next := Visit(scope, inFlight, probe, page, b);
      } else {
        next := inFlight;
      }
    }

    /**
     * The URL at the front of the queue is popped and probed: a PDF, by content type or by
     * extension, is handed to a new download; an HTML page is scanned for links; anything
     * else, and a failed probe or fetch, is dropped.
     */
    method Visit(scope: string, inFlight: seq<string>, probe: Probe, page: PageFetch, ghost b: Baseline)
      returns (next: seq<string>)
      requires Scheduled(inFlight, b) && queue != [] && activeDownloads < concurrencyLimit
      modifies this`queue, this`popped, this`activeDownloads, this`visited, this`scanned, this`enqueued
      ensures Scheduled(next, b)
      ensures next == inFlight || next == inFlight + [old(queue)[0]]
      ensures var kind := Classify(probe, old(queue)[0]);
        var acc := Discovered(kind, page, old(visited), scope);
        && popped == old(popped) + 1
        && queue == old(queue)[1..] + acc && visited == old(visited) + Elems(acc) && scanned == old(scanned) + |acc|
        && next == (if kind == PdfDocument then inFlight + [old(queue)[0]] else inFlight)
        && activeDownloads == old(activeDownloads) + |next| - |inFlight|
    {
      var url := PopFront();
      var kind := Classify(probe, url);
      if kind == PdfDocument {
        Admit();
        next := inFlight + [url];
      } else {
        next := inFlight;
        if kind == HtmlPage && page.Links? {
          OfferLinks(page.links, scope);
        }
      }
    }
    /**
     * `graceful_exit` inside the main loop: the checkpoint is saved and the buffer appended to
     * the crawl's report, keeping the loop invariant.
     */
    method Interrupt(disk: Disk, outputDir: string, save: SaveOutcome, flushOk: bool,
                     ghost inFlight: seq<string>, ghost b: Baseline)
      requires Running(disk, inFlight, b) && b.path == ReportPath(outputDir)
      modifies disk`checkpoint, disk`reports, this`manifestLog
      ensures Running(disk, inFlight, b)
      ensures save.Saved? ==>
        disk.checkpoint.Present? && forall p :: Restore(disk.checkpoint, p) == LoadResult(true, CurrentProgress())
      ensures save.TempWriteFailed? ==> disk.checkpoint == old(disk.checkpoint)
      ensures save.RenameFailed? ==> disk.checkpoint == Missing
    {
      GracefulExit(disk, outputDir, save, flushOk);
      if old(manifestLog) != [] && flushOk {
        FlushedReportEntries(old(disk.reports), b.path, old(manifestLog));
        LedgerFlush(old(disk.reports), b.path, old(manifestLog), logged, downloaded, errors, b);
      }
    }

    /**
     * State initialization in `crawl`: the checkpoint is loaded, or else the start URL is
     * queued, visited and recorded.
     */
    method Resume(disk: Disk, seedUrl: string)
      requires Fresh()
      modifies this`visited, this`queue, this`startUrl, this`scanned, this`downloaded,
               this`enqueued, this`popped
      ensures CurrentProgress() == SeedAfterLoad(Restore(disk.checkpoint, FreshProgress), seedUrl)
      ensures var r := Restore(disk.checkpoint, FreshProgress);
        && ((r.loaded ==> Consistent(r.progress)) ==> FrontierValid())
        && scanned + (if r.loaded then |r.progress.queue| else 1)
           == (if r.loaded then r.progress.scanned else 0) + |enqueued|
    {
      var loaded := LoadCheckpoint(disk);
      if !loaded {
        Seed(seedUrl);
      }
    }

    /**
     * The start of `crawl`: the checkpoint is loaded, or else the start URL is seeded; the
     * scope is the start URL with a trailing `/`; the cap is recorded.
     */
    method Start(disk: Disk, seedUrl: string, maxThreadsCap: int) returns (scope: string)
      requires Fresh()
      modifies this`visited, this`queue, this`startUrl, this`scanned, this`downloaded,
               this`enqueued, this`popped, this`maxConcurrencyCap
      ensures var r := Restore(disk.checkpoint, FreshProgress);
        && startUrl == (if r.loaded then r.progress.startUrl else seedUrl)
        && ((r.loaded ==> Consistent(r.progress)) ==> FrontierValid())
        && downloaded == (if r.loaded then r.progress.downloaded else 0)
        && scanned + (if r.loaded then |r.progress.queue| else 1)
           == (if r.loaded then r.progress.scanned else 0) + |enqueued|
      ensures scope == NormalizeRoot(startUrl) && maxConcurrencyCap == maxThreadsCap
    {
      Resume(disk, seedUrl);
      scope := NormalizeRoot(startUrl);
      maxConcurrencyCap := maxThreadsCap;
    }

    /**
     * The main loop, `while state.queue or state.active_downloads > 0`, driven by `script`:
     * a stop signal ends it through `graceful_exit`; when the work is done the buffer is
     * flushed and the checkpoint removed. `inFlight` lists the downloads still running.
     */
    method MainLoop(disk: Disk, outputDir: string, scope: string, script: seq<Step>, finalFlushOk: bool,
                    ghost b: Baseline) returns (end: CrawlEnd, inFlight: seq<string>)
      requires Running(disk, [], b) && b.path == ReportPath(outputDir)
      modifies this`errors, this`downloaded, this`bytesDownloaded, this`concurrencyLimit,
               this`manifestLog, this`logged, this`activeDownloads, this`queue, this`popped,
               this`visited, this`scanned, this`enqueued, disk`checkpoint, disk`reports
      ensures Running(disk, inFlight, b)
      ensures end == Interrupted || end == ScriptExhausted || end == Finished
      ensures end == Finished ==> queue == [] && activeDownloads == 0 && disk.checkpoint == Missing
      ensures end == Finished && finalFlushOk ==> manifestLog == []
    {
      inFlight := [];
      var interrupted := false;
      var k := 0;
      while !interrupted && (queue != [] || activeDownloads > 0) && k < |script|
        invariant k <= |script|
        invariant Running(disk, inFlight, b)
        decreases |script| - k
      {
        match script[k] {
          case Signal(save, flushOk) =>
            Interrupt(disk, outputDir, save, flushOk, inFlight, b);
            interrupted := true;
          case Pass(events, flushOk, probe, page) =>
            inFlight := ApplyEvents(disk, outputDir, inFlight, events, b);
            inFlight := Iterate(disk, outputDir, scope, inFlight, flushOk, probe, page, b);
        }
        k := k + 1;
      }
      if interrupted {
        end := Interrupted;
      } else if queue != [] || activeDownloads > 0 {
        end := ScriptExhausted;
      } else {
        Flush(disk, outputDir, finalFlushOk, inFlight, b);
        disk.checkpoint := Missing;
        end := Finished;
      }
    }

    /**
     * The crawl once started with a usable cap: the main loop run against the baseline of the
     * state it starts from, its invariant restated without the baseline.
     */
    method RunFrom(disk: Disk, outputDir: string, scope: string, script: seq<Step>, finalFlushOk: bool,
                   ghost sound: bool) returns (end: CrawlEnd)
      requires maxConcurrencyCap >= 1 && activeDownloads == 0 && concurrencyLimit == InitialLimit
      requires manifestLog == [] && logged == [] && errors == 0
      requires sound ==> FrontierValid()
      modifies this`errors, this`downloaded, this`bytesDownloaded, this`concurrencyLimit,
               this`manifestLog, this`logged, this`activeDownloads, this`queue, this`popped,
               this`visited, this`scanned, this`enqueued, disk`checkpoint, disk`reports
      ensures sound ==> FrontierValid()
      ensures downloaded == old(downloaded) + CountStatus(logged, Success) && errors == CountStatus(logged, Failed)
      ensures scanned - |enqueued| == old(scanned - |enqueued|)
      ensures var path := ReportPath(outputDir);
        && ReportEntries(disk.reports, path) + manifestLog == ReportEntries(old(disk.reports), path) + logged
        && (ReportWellFormed(old(disk.reports), path) ==> ReportWellFormed(disk.reports, path))
      ensures LimitInRange(concurrencyLimit, maxConcurrencyCap) && activeDownloads <= Max(InitialLimit, maxConcurrencyCap)
      ensures end == Interrupted || end == ScriptExhausted || end == Finished
      ensures end == Finished ==> queue == [] && activeDownloads == 0 && disk.checkpoint == Missing
      ensures end == Finished && finalFlushOk ==> manifestLog == []
    {
      assert LimitInRange(InitialLimit, maxConcurrencyCap);
      ghost var path := ReportPath(outputDir);
      ghost var b := Baseline(maxConcurrencyCap, path, ReportEntries(disk.reports, path), sound,
                              ReportWellFormed(disk.reports, path), scanned - |enqueued|, downloaded);
      assert ReportEntries(disk.reports, path) + [] == b.prior + [];
      var inFlight;
      end, inFlight := MainLoop(disk, outputDir, scope, script, finalFlushOk, b);
    }

    /**
     * `crawl(start_url, output_dir, max_threads_cap)` on a newly created state, driven by
     * `script`. A cap below 1 makes the pool refuse to start.
     *
     * Whatever the ending: every URL enqueued is visited and none twice (when a loaded queue
     * was already so), every entry logged is in the report or still buffered, in order, the
     * counters count the logged successes and failures, the report stays well-formed, and the
     * limit and the number of downloads in flight stay within `max(2, cap)`.
     */
    method Crawl(disk: Disk, seedUrl: string, outputDir: string, maxThreadsCap: int,
                 script: seq<Step>, finalFlushOk: bool) returns (end: CrawlEnd)
      requires Fresh()
      modifies this, disk
      ensures var r := Restore(old(disk.checkpoint), FreshProgress);
        && startUrl == (if r.loaded then r.progress.startUrl else seedUrl)
        && ((r.loaded ==> Consistent(r.progress)) ==> FrontierValid())
        && downloaded == (if r.loaded then r.progress.downloaded else 0) + CountStatus(logged, Success)
        && scanned + (if r.loaded then |r.progress.queue| else 1)
           == (if r.loaded then r.progress.scanned else 0) + |enqueued|
      ensures errors == CountStatus(logged, Failed)
      ensures var path := ReportPath(outputDir);
        && ReportEntries(disk.reports, path) + manifestLog == ReportEntries(old(disk.reports), path) + logged
        && (ReportWellFormed(old(disk.reports), path) ==> ReportWellFormed(disk.reports, path))
      ensures maxConcurrencyCap == maxThreadsCap
      ensures end == PoolRejected <==> maxThreadsCap < 1
      ensures end != PoolRejected ==>
        LimitInRange(concurrencyLimit, maxThreadsCap) && activeDownloads <= Max(InitialLimit, maxThreadsCap)
      ensures end == Finished ==> queue == [] && activeDownloads == 0 && disk.checkpoint == Missing
      ensures end == Finished && finalFlushOk ==> manifestLog == []
    {
      ghost var r := Restore(disk.checkpoint, FreshProgress);
      var scope := Start(disk, seedUrl, maxThreadsCap);
      if maxThreadsCap < 1 {
        assert ReportEntries(disk.reports, ReportPath(outputDir)) + [] == ReportEntries(disk.reports, ReportPath(outputDir));
        return PoolRejected;
      }
      end := RunFrom(disk, outputDir, scope, script, finalFlushOk, r.loaded ==> Consistent(r.progress));
    }
  }


  /** What the probe of a popped URL makes of it. */
  datatype PageKind = PdfDocument | HtmlPage | Skipped

  /**
   * A PDF when the lower-cased content type contains `application/pdf` or the URL ends in
   * `.pdf`; otherwise an HTML page when it contains `text/html`; a failed probe is skipped.
   */
  function Classify(probe: Probe, url: string): (r: PageKind)
    ensures probe.HeadFailed? ==> r == Skipped
    ensures probe.HeadOk? && EndsWith(Lower(url), ".pdf") ==> r == PdfDocument
    ensures r == HtmlPage ==> !EndsWith(Lower(url), ".pdf") && Contains(Lower(probe.contentType), "text/html")
    ensures r == PdfDocument <==>
              probe.HeadOk? && (Contains(Lower(probe.contentType), "application/pdf") || EndsWith(Lower(url), ".pdf"))
    ensures r == HtmlPage <==>
              probe.HeadOk? && r != PdfDocument && Contains(Lower(probe.contentType), "text/html")
  {
    match probe
    case HeadFailed => Skipped
    case HeadOk(contentType) =>
      var ct := Lower(contentType);
      if Contains(ct, "application/pdf") || EndsWith(Lower(url), ".pdf") then PdfDocument
      else if Contains(ct, "text/html") then HtmlPage
      else Skipped
  }

  /**
   * What visiting a URL of the given kind appends to the queue: a scanned page's defragmented
   * links that `Accepted` lets through; nothing for a PDF, a skipped URL or a failed fetch.
   */
  function Discovered(kind: PageKind, page: PageFetch, visited: set<string>, scope: string): (r: seq<string>)
    ensures kind != HtmlPage || page.GetFailed? ==> r == []
    ensures forall i :: 0 <= i < |r| ==> r[i] !in visited && IsSubpath(r[i], scope)
    ensures Distinct(r)
  {
    if kind == HtmlPage && page.Links? then
      AcceptedSound(visited, Defragmented(page.links), scope);
      Accepted(visited, Defragmented(page.links), scope)
    else []
  }

  /**
   * The manifest ledger over values: the report's entries followed by the buffer are the
   * entries the report held before the crawl followed by every entry logged, and the
   * download and error counters count the successful and failed entries logged.
   */
  ghost predicate Ledger(report: seq<ManifestEntry>, buffer: seq<ManifestEntry>, logged: seq<ManifestEntry>,
                         downloaded: int, errors: int, b: Baseline)
  {
    && report + buffer == b.prior + logged
    && downloaded == b.downloaded0 + CountStatus(logged, Success)
    && errors == CountStatus(logged, Failed)
  }

  /** `log_manifest` keeps the ledger: the entry is buffered, logged and counted by its status. */
  lemma LedgerLogs(report: seq<ManifestEntry>, buffer: seq<ManifestEntry>, logged: seq<ManifestEntry>,
                   downloaded: int, errors: int, b: Baseline, e: ManifestEntry)
    requires Ledger(report, buffer, logged, downloaded, errors, b)
    ensures Ledger(report, buffer + [e], logged + [e],
                   downloaded + (if e.status == Success then 1 else 0),
                   errors + (if e.status == Failed then 1 else 0), b)
  {
    ConcatAssoc(report, buffer, [e]);
    ConcatAssoc(b.prior, logged, [e]);
    CountStatusSnoc(logged, e, Success);
    CountStatusSnoc(logged, e, Failed);
  }

  /** A successful append moves the whole buffer into the report, so the ledger is kept with an empty buffer. */
  lemma LedgerFlush(reports: map<string, seq<ReportLine>>, path: string, buffer: seq<ManifestEntry>,
                    logged: seq<ManifestEntry>, downloaded: int, errors: int, b: Baseline)
    requires Ledger(ReportEntries(reports, path), buffer, logged, downloaded, errors, b)
    ensures Ledger(ReportEntries(reports[path := Flushed(ReportAt(reports, path), buffer)], path), [],
                   logged, downloaded, errors, b)
  {
    FlushedReportEntries(reports, path, buffer);
    assert ReportEntries(reports[path := Flushed(ReportAt(reports, path), buffer)], path) + []
        == ReportEntries(reports, path) + buffer;
  }

  /** The manifest entry a download logs. */
  function DownloadEntry(timestamp: string, url: string, outputDir: string, outcome: DownloadOutcome): ManifestEntry
  {
    ManifestEntry(timestamp, url, DownloadPath(url, outputDir, outcome),
                  DownloadStatus(outcome), DownloadError(outcome))
  }

  /** `local_path` of the manifest entry a download logs. */
  function DownloadPath(url: string, outputDir: string, outcome: DownloadOutcome): (r: string)
    ensures outcome.Responded? ==> outputDir <= r
  {
    if !outcome.Responded? then UnknownPath
    else
      LocalPath(outputDir, Parse(url), outcome.contentDisposition)
  }

  /** The outcomes that raise inside `download_pdf` and reach its `except` branch. */
  predicate Fails(outcome: DownloadOutcome) {
    outcome.RequestFailed? || (outcome.Responded? && outcome.transfer.WriteFailed?)
  }

  /** The outcomes that reach the end of the streaming loop. */
  predicate Succeeds(outcome: DownloadOutcome) {
    outcome.Responded? && outcome.transfer.Completed?
  }

  /** Bytes streamed to disk: every chunk of a completed download, those before the error of a failed write. */
  function WrittenBytes(outcome: DownloadOutcome): nat {
    match outcome
    case Responded(_, WriteFailed(written, _)) => Sum(written)
    case Responded(_, Completed(chunks)) => Sum(chunks)
    case _ => 0
  }

  /** `status` of the manifest entry a download logs. */
  function DownloadStatus(outcome: DownloadOutcome): (r: Status)
    ensures r == Success <==> Succeeds(outcome)
    ensures r == Failed <==> Fails(outcome)
  {
    match outcome
    case Responded(_, Completed(_)) => Success
    case RequestFailed(_) => Failed
    case Responded(_, WriteFailed(_, _)) => Failed
    case _ => SkippedExists
  }

  /** `error` of the manifest entry a download logs: empty unless the download failed. */
  function DownloadError(outcome: DownloadOutcome): (r: string)
    ensures !Fails(outcome) ==> r == ""
  {
    match outcome
    case RequestFailed(err) => err
    case Responded(_, WriteFailed(_, err)) => err
    case _ => ""
  }
}
