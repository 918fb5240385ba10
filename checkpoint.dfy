/**
 * The checkpoint record of `CrawlerState.save_checkpoint` / `load_checkpoint`, at the level
 * of the decoded JSON document (JSON text itself is not modelled).
 *
 * A save turns the visited set and the queue into lists and records the start URL and two
 * counters; a load turns the lists back into a set and a queue. A key missing from the
 * document raises `KeyError` in the source, except `start_url`, `stats.scanned` and
 * `stats.downloaded`, which default to `""`, 0 and 0.
 */
module Checkpoint {
  import opened Util

  /** The `"stats"` object; an absent key is `None`. */
  datatype StatsDoc = StatsDoc(scanned: Option<int>, downloaded: Option<int>)

  /** The decoded checkpoint document; an absent key is `None`. */
  datatype CheckpointDoc = CheckpointDoc(
    visited: Option<seq<string>>,
    queue: Option<seq<string>>,
    startUrl: Option<string>,
    stats: Option<StatsDoc>)

  /** The checkpoint file: absent, not valid JSON, or a decoded document. */
  datatype CheckpointFile = Missing | Unparsable | Present(doc: CheckpointDoc)

  /** The part of the crawler state a checkpoint carries. */
  datatype Progress = Progress(
    visited: set<string>,
    queue: seq<string>,
    startUrl: string,
    scanned: int,
    downloaded: int)

  /** `load_checkpoint`'s boolean result and the state it leaves behind. */
  datatype LoadResult = LoadResult(loaded: bool, progress: Progress)

  /** The persisted fields of a newly constructed `CrawlerState`. */
  const FreshProgress: Progress := Progress({}, [], "", 0, 0)

  /** The document `save_checkpoint` writes, given the list it made of the visited set. */
  function SnapshotDoc(visitedList: seq<string>, p: Progress): CheckpointDoc {
    CheckpointDoc(Some(visitedList), Some(p.queue), Some(p.startUrl),
                  Some(StatsDoc(Some(p.scanned), Some(p.downloaded))))
  }

  /** A frontier worth resuming: the queue repeats no URL and holds only visited ones. */
  ghost predicate Consistent(p: Progress) {
    Distinct(p.queue) && forall i :: 0 <= i < |p.queue| ==> p.queue[i] in p.visited
  }

  /**
   * `load_checkpoint` exactly as written: the assignments of lines 134-138 run in order, so a
   * document without `"queue"` has already replaced the visited set, and one without `"stats"`
   * has already replaced visited, queue and start URL, before the `KeyError` makes it return
   * False.
   */
  function RestoreAsWritten(file: CheckpointFile, current: Progress): LoadResult {
    match file
    case Missing => LoadResult(false, current)
    case Unparsable => LoadResult(false, current)
    case Present(d) =>
      if d.visited.None? then LoadResult(false, current)
      else
        var p1 := current.(visited := Elems(d.visited.value));
        if d.queue.None? then LoadResult(false, p1)
        else
          var p2 := p1.(queue := d.queue.value, startUrl := d.startUrl.GetOr(""));
          if d.stats.None? then LoadResult(false, p2)
          else LoadResult(true, p2.(scanned := d.stats.value.scanned.GetOr(0),
                                    downloaded := d.stats.value.downloaded.GetOr(0)))
  }

  /**
   * A document missing only `"stats"` makes the as-written load report failure while the
   * visited set and the queue have been overwritten; the crawl then seeds its start URL on
   * top of the foreign queue instead of starting fresh.
   */
  lemma PartialLoadCounterexample()
    ensures var r := RestoreAsWritten(Present(CheckpointDoc(Some(["u"]), Some(["u"]), None, None)), FreshProgress);
      !r.loaded && r.progress != FreshProgress && r.progress.queue == ["u"]
  {
    var r := RestoreAsWritten(Present(CheckpointDoc(Some(["u"]), Some(["u"]), None, None)), FreshProgress);
    assert "u" in r.progress.visited;
  }

  /**
   * The start of `crawl` (lines 456-461) once the load has returned: a successful load is
   * kept as it is; after a failed one the start URL is queued, visited and recorded, on top
   * of whatever the load left behind.
   */
  function SeedAfterLoad(r: LoadResult, seedUrl: string): Progress {
    if r.loaded then r.progress
    else r.progress.(queue := r.progress.queue + [seedUrl], visited := r.progress.visited + {seedUrl},
                     startUrl := seedUrl)
  }

  /**
   * As written, the checkpoint `{"visited": ["u"], "queue": ["u"]}` with the start URL `u`
   * leaves `u` queued twice: the crawl would fetch it twice and the frontier repeats a URL.
   */
  lemma PartialLoadDuplicatesSeed()
    ensures var p := SeedAfterLoad(RestoreAsWritten(Present(CheckpointDoc(Some(["u"]), Some(["u"]), None, None)),
                                                    FreshProgress), "u");
      p.queue == ["u", "u"] && !Consistent(p)
  {
    var p := SeedAfterLoad(RestoreAsWritten(Present(CheckpointDoc(Some(["u"]), Some(["u"]), None, None)),
                                            FreshProgress), "u");
    assert p.queue == ["u"] + ["u"];
    assert p.queue[0] == p.queue[1];
  }

  /**
   * `load_checkpoint` as evidently intended: either the whole record is taken over, or the
   * state is left exactly as it was and False is returned.
   */
  function Restore(file: CheckpointFile, current: Progress): (r: LoadResult)
    ensures !r.loaded ==> r.progress == current
    ensures r.loaded <==> file.Present? && file.doc.visited.Some? && file.doc.queue.Some? && file.doc.stats.Some?
  {
    match file
    case Present(CheckpointDoc(Some(v), Some(q), su, Some(stats))) =>
      LoadResult(true, Progress(Elems(v), q, su.GetOr(""), stats.scanned.GetOr(0), stats.downloaded.GetOr(0)))
    case _ => LoadResult(false, current)
  }

  /** The correction changes only the failure paths: whenever the as-written load succeeds, both agree. */
  lemma RestoreAgreesWhenLoaded(file: CheckpointFile, current: Progress)
    ensures RestoreAsWritten(file, current).loaded == Restore(file, current).loaded
    ensures Restore(file, current).loaded ==> RestoreAsWritten(file, current) == Restore(file, current)
  {
  }

  /**
   * Round trip: loading what a save wrote restores the same visited set, the same queue in the
   * same order, the start URL and both counters, whatever the state before the load.
   */
  lemma RestoreRoundTrip(visitedList: seq<string>, p: Progress, current: Progress)
    requires Elems(visitedList) == p.visited
    ensures Restore(Present(SnapshotDoc(visitedList, p)), current) == LoadResult(true, p)
  {
  }

  /** Absent optional keys take the source's defaults: `""` for the start URL, 0 for each counter. */
  lemma RestoreDefaults(visitedList: seq<string>, queue: seq<string>, current: Progress)
    ensures Restore(Present(CheckpointDoc(Some(visitedList), Some(queue), None, Some(StatsDoc(None, None)))), current)
         == LoadResult(true, Progress(Elems(visitedList), queue, "", 0, 0))
  {
  }

  /** A consistent frontier stays consistent through a save and a load. */
  lemma RoundTripKeepsConsistency(visitedList: seq<string>, p: Progress, current: Progress)
    requires Elems(visitedList) == p.visited && Consistent(p)
    ensures Consistent(Restore(Present(SnapshotDoc(visitedList, p)), current).progress)
  {
    RestoreRoundTrip(visitedList, p, current);
  }

  /**
   * With the corrected load, the start never repeats a URL: after a failed load the queue
   * holds the start URL alone, and a loaded consistent frontier is kept as it is.
   */
  lemma SeededRestoreConsistent(file: CheckpointFile, seedUrl: string)
    requires Restore(file, FreshProgress).loaded ==> Consistent(Restore(file, FreshProgress).progress)
    ensures Consistent(SeedAfterLoad(Restore(file, FreshProgress), seedUrl))
    ensures !Restore(file, FreshProgress).loaded ==> SeedAfterLoad(Restore(file, FreshProgress), seedUrl).queue == [seedUrl]
  {
  }

  /** What a checkpoint save does to the file (the temp-file-then-rename of lines 104-115). */
  datatype SaveOutcome =
    | Saved           // temp file written and renamed over the old checkpoint
    | TempWriteFailed // IOError while writing the temp file: the old checkpoint is untouched
    | RenameFailed    // IOError after the old checkpoint was removed: no checkpoint remains

  /** The checkpoint file after a save of `doc` with the given outcome: never a partial document. */
  function AfterSave(file: CheckpointFile, doc: CheckpointDoc, outcome: SaveOutcome): (r: CheckpointFile)
    ensures r == file || r == Present(doc) || r == Missing
  {
    match outcome
    case Saved => Present(doc)
    case TempWriteFailed => file
    case RenameFailed => Missing
  }
}
