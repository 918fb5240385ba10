/**
 * The download manifest: the in-memory buffer filled by `log_manifest` and the CSV report
 * `save_manifest_csv` appends it to. The report is modelled as its sequence of lines
 * (the header line, then one row per entry); CSV quoting is not modelled.
 */
module Manifest {
  import opened Util
  import opened PyText

  /** The `status` column. */
  datatype Status = Success | Failed | SkippedExists

  /** The text the source writes for each status. */
  function StatusName(s: Status): string {
    match s
    case Success => "SUCCESS"
    case Failed => "FAILED"
    case SkippedExists => "SKIPPED_EXISTS"
  }

  /** Distinct statuses are written as distinct texts, so the column can be read back. */
  lemma StatusNamesDistinct(s: Status, t: Status)
    ensures StatusName(s) == StatusName(t) <==> s == t
  {
    if s != t {
      assert StatusName(s)[0] != StatusName(t)[0] || |StatusName(s)| != |StatusName(t)|;
    }
  }

  /** One buffered manifest record; the timestamp is supplied by the caller. */
  datatype ManifestEntry = ManifestEntry(
    timestamp: string,
    url: string,
    localPath: string,
    status: Status,
    error: string)

  /** The report's column names, in order. */
  const ReportFields: seq<string> := ["timestamp", "url", "local_path", "status", "error"]

  /** The report's file name inside the output directory. */
  const ReportName: string := "crawl_report.csv"

  /** `os.path.join(output_dir, "crawl_report.csv")` */
  function ReportPath(outputDir: string): (r: string)
    ensures outputDir <= r && EndsWith(r, ReportName)
  {
    PathJoin(outputDir, ReportName)
  }

  /** A line of the report file. */
  datatype ReportLine = Header | Row(entry: ManifestEntry)

  /** A report as the crawler writes it: one header line first, data rows after it. */
  ghost predicate WellFormedReport(lines: seq<ReportLine>) {
    |lines| >= 1 && lines[0] == Header && forall i :: 1 <= i < |lines| ==> lines[i].Row?
  }

  /** The entries held by the data rows of a report, in file order. */
  function DataRows(lines: seq<ReportLine>): (r: seq<ManifestEntry>)
    ensures |r| <= |lines|
    decreases |lines|
  {
    if lines == [] then []
    else (if lines[0].Row? then [lines[0].entry] else []) + DataRows(lines[1..])
  }

  lemma {:induction false} DataRowsAppend(a: seq<ReportLine>, b: seq<ReportLine>)
    ensures DataRows(a + b) == DataRows(a) + DataRows(b)
    decreases |a|
  {
    if a == [] {
      assert a + b == b;
    } else {
      assert (a + b)[0] == a[0];
      assert (a + b)[1..] == a[1..] + b;
      DataRowsAppend(a[1..], b);
    }
  }

  /** `writer.writerows(entries)`: one data row per entry. */
  function Rows(entries: seq<ManifestEntry>): (r: seq<ReportLine>)
    ensures |r| == |entries|
    ensures forall i :: 0 <= i < |r| ==> r[i] == Row(entries[i])
  {
    seq(|entries|, i requires 0 <= i < |entries| => Row(entries[i]))
  }

  lemma {:induction false} DataRowsOfRows(entries: seq<ManifestEntry>)
    ensures DataRows(Rows(entries)) == entries
    decreases |entries|
  {
    if entries != [] {
      assert Rows(entries)[1..] == Rows(entries[1..]);
      DataRowsOfRows(entries[1..]);
    }
  }

  /**
   * The report after one append of a non-empty buffer: a file that does not exist yet is
   * created with the header line first; an existing one is extended.
   */
  function Flushed(existing: Option<seq<ReportLine>>, entries: seq<ManifestEntry>): seq<ReportLine> {
    (if existing.None? then [Header] else existing.value) + Rows(entries)
  }

  /** The report at `path`, when the file exists. */
  function ReportAt(reports: map<string, seq<ReportLine>>, path: string): (r: Option<seq<ReportLine>>)
    ensures r.Some? <==> path in reports
    ensures r.Some? ==> r.value == reports[path]
  {
    if path in reports then Some(reports[path]) else None
  }

  /** The entries recorded in the report at `path`; none when there is no such file. */
  function ReportEntries(reports: map<string, seq<ReportLine>>, path: string): seq<ManifestEntry> {
    if path in reports then DataRows(reports[path]) else []
  }

  /** No report file, or a well-formed one. */
  ghost predicate ReportWellFormed(reports: map<string, seq<ReportLine>>, path: string) {
    path in reports ==> WellFormedReport(reports[path])
  }

  /**
   * An append writes exactly the buffered entries after the existing ones, in order, leaves
   * the existing lines untouched, writes the header only into a new file, and keeps a
   * well-formed report well-formed.
   */
  lemma FlushAppends(existing: Option<seq<ReportLine>>, entries: seq<ManifestEntry>)
    ensures DataRows(Flushed(existing, entries)) ==
      (if existing.None? then [] else DataRows(existing.value)) + entries
    ensures existing.Some? ==> existing.value <= Flushed(existing, entries)
    ensures existing.None? ==> WellFormedReport(Flushed(existing, entries))
    ensures existing.Some? && WellFormedReport(existing.value) ==> WellFormedReport(Flushed(existing, entries))
  {
    var head := if existing.None? then [Header] else existing.value;
    DataRowsAppend(head, Rows(entries));
    DataRowsOfRows(entries);
    if existing.None? {
      assert DataRows([Header]) == [] by {
        assert [Header][1..] == [];
      }
    }
  }

  /** Two appends in a row leave the same report as one append of both buffers together. */
  lemma FlushesCompose(existing: Option<seq<ReportLine>>, a: seq<ManifestEntry>, b: seq<ManifestEntry>)
    ensures Flushed(Some(Flushed(existing, a)), b) == Flushed(existing, a + b)
  {
    assert Rows(a) + Rows(b) == Rows(a + b);
  }

  /** The report at `path` after an append of `entries` to it, in a map of report files. */
  lemma FlushedReportEntries(reports: map<string, seq<ReportLine>>, path: string, entries: seq<ManifestEntry>)
    ensures ReportEntries(reports[path := Flushed(ReportAt(reports, path), entries)], path)
         == ReportEntries(reports, path) + entries
    ensures ReportWellFormed(reports, path) ==> ReportWellFormed(reports[path := Flushed(ReportAt(reports, path), entries)], path)
  {
    FlushAppends(ReportAt(reports, path), entries);
  }

  /** How many of `entries` carry status `s`. */
  function CountStatus(entries: seq<ManifestEntry>, s: Status): (r: nat)
    ensures r <= |entries|
  {
    if entries == [] then 0
    else CountStatus(entries[..|entries| - 1], s) + (if entries[|entries| - 1].status == s then 1 else 0)
  }

  lemma CountStatusSnoc(entries: seq<ManifestEntry>, e: ManifestEntry, s: Status)
    ensures CountStatus(entries + [e], s) == CountStatus(entries, s) + (if e.status == s then 1 else 0)
  {
    assert (entries + [e])[..|entries|] == entries;
  }

  /**
   * Where `graceful_exit` writes the remaining buffer, as written: the literal directory
   * "downloads", whatever output directory the crawl was started with.
   */
  function ExitFlushTargetAsWritten(outputDir: string): string {
    ReportPath("downloads")
  }

  /** Started with `--output out`, an interrupted crawl appends its last rows to a different report. */
  lemma ExitFlushTargetMismatch()
    ensures ExitFlushTargetAsWritten("out") != ReportPath("out")
  {
    assert ReportName[0] != '/';
    assert ReportPath("out") == "out" + "/" + ReportName;
    assert ExitFlushTargetAsWritten("out") == "downloads" + "/" + ReportName;
    assert ReportPath("out")[0] != ExitFlushTargetAsWritten("out")[0];
  }
}
