/**
 * archiver.py: which archiver a source/destination pair runs, and the job
 * summary printed after the run.
 */
module Report {
  import opened Wrappers
  import opened Text

  // ---------------------------------------------------------------- dispatch

  /** The four archivers of the archivers package. */
  datatype ArchiverKind = FS2S3 | FS2FS | S32S3 | S32FS

  /** main's choice of archiver; any other pair of types runs none. */
  function Dispatch(srcType: string, dstType: string): (r: Option<ArchiverKind>)
  {
    if srcType == "fs" && dstType == "s3" then Some(FS2S3)
    else if srcType == "fs" && dstType == "fs" then Some(FS2FS)
    else if srcType == "s3" && dstType == "s3" then Some(S32S3)
    else if srcType == "s3" && dstType == "fs" then Some(S32FS)
    else None
  }

  /** The source and destination types an archiver moves between, as its name says. */
  function Endpoints(k: ArchiverKind): (string, string)
  {
    match k
    case FS2S3 => ("fs", "s3")
    case FS2FS => ("fs", "fs")
    case S32S3 => ("s3", "s3")
    case S32FS => ("s3", "fs")
  }

  /** Dispatch picks exactly the archiver whose endpoints are the given pair. */
  lemma DispatchInverse(srcType: string, dstType: string, k: ArchiverKind)
    ensures Dispatch(srcType, dstType) == Some(k) <==> Endpoints(k) == (srcType, dstType)
  {
  }

  /** Every pair argparse lets through runs an archiver; any other pair runs none. */
  lemma DispatchCovers(srcType: string, dstType: string)
    ensures Dispatch(srcType, dstType).Some? <==>
              (srcType == "fs" || srcType == "s3") && (dstType == "fs" || dstType == "s3")
  {
  }

  // ---------------------------------------------------------------- generate_report

  /** The source or destination line of the report: fs://path, or s3://bucket/path. */
  function Location(kind: string, bucket: Option<string>, path: Option<string>): string
  {
    if kind == "fs" then "fs://" + OrElse(path, "N/A")
    else "s3://" + OrElse(bucket, "N/A") + "/" + OrElse(path, "")
  }

  /**
   * The scheme names the type, a missing path or bucket shows as N/A (a missing
   * S3 path as nothing), and an S3 location splits at '/' into the bucket and
   * the path's pieces.
   */
  lemma LocationParts(kind: string, bucket: Option<string>, path: Option<string>)
    ensures var l := Location(kind, bucket, path);
      |l| >= 5 && l[..5] == (if kind == "fs" then "fs://" else "s3://")
    ensures kind == "fs" ==> Location(kind, bucket, path)[5..] == (if Truthy(path) then path.value else "N/A")
    ensures kind != "fs" && '/' !in OrElse(bucket, "N/A") ==>
              Split(Location(kind, bucket, path)[5..], '/')
              == [if Truthy(bucket) then bucket.value else "N/A"] + Split(if Truthy(path) then path.value else "", '/')
  {
    var l := Location(kind, bucket, path);
    if kind != "fs" {
      var b := OrElse(bucket, "N/A");
      var p := OrElse(path, "");
      assert l[5..] == b + ['/'] + p;
      if '/' !in b {
        SplitAround(b, p, '/');
      }
    }
  }

  /** The arguments the report reads. */
  datatype Args = Args(srcType: string, dstType: string,
                       srcPath: Option<string>, srcBucket: Option<string>,
                       dstPath: Option<string>, dstBucket: Option<string>,
                       combine: string, maxProcess: int, maxFileNumber: int, maxTarfileSize: int)

  /** The archiver's counters the report reads. */
  datatype Counts = Counts(files: nat, failed: nat, tars: nat, manifests: nat)

  /** The last line: the count limit for the count combine, the size limit for any other. */
  function LimitLine(args: Args): string
  {
    if args.combine == "count" then "Max files per archive: " + IntToString(args.maxFileNumber)
    else "Max archive size: " + IntToString(args.maxTarfileSize) + " bytes"
  }

  /** The report, line by line; it opens and closes with a newline. */
  function ReportLines(args: Args, start: string, end: string, duration: string, c: Counts): seq<string>
  {
    ["", "Job Summary Report", "==================",
     "Start time: " + start,
     "End time: " + end,
     "Duration: " + duration,
     "Total transferred files: " + IntToString(c.files),
     "Failed files: " + IntToString(c.failed),
     "Total tar files: " + IntToString(c.tars),
     "Total manifest files: " + IntToString(c.manifests),
     "Source: " + Location(args.srcType, args.srcBucket, args.srcPath),
     "Destination: " + Location(args.dstType, args.dstBucket, args.dstPath),
     "Combine method: " + args.combine,
     "Max processes: " + IntToString(args.maxProcess),
     LimitLine(args),
     ""]
  }

  /** generate_report; the clock readings and the duration come in already formatted. */
  function GenerateReport(args: Args, start: string, end: string, duration: string, c: Counts): string
  {
    Join(ReportLines(args, start, end, duration, c), '\n')
  }

  predicate NoNewline(o: Option<string>)
  {
    o.Some? ==> '\n' !in o.value
  }

  /** Printable ASCII, which the report's fixed text is written in. */
  predicate Printable(s: string)
  {
    forall k :: 0 <= k < |s| ==> ' ' <= s[k] <= '~'
  }

  lemma PrintableNoNewline(s: string)
    requires Printable(s)
    ensures '\n' !in s
  {
  }

  lemma LimitLineClean(args: Args)
    ensures '\n' !in LimitLine(args)
  {
    PrintableNoNewline("Max files per archive: ");
    PrintableNoNewline("Max archive size: ");
    PrintableNoNewline(" bytes");
  }

  lemma LocationClean(kind: string, bucket: Option<string>, path: Option<string>)
    requires NoNewline(bucket) && NoNewline(path)
    ensures '\n' !in Location(kind, bucket, path)
  {
    PrintableNoNewline("fs://");
    PrintableNoNewline("s3://");
    PrintableNoNewline("N/A");
  }

  /**
   * When no value holds a newline, the report's lines are exactly its sixteen
   * lines: an empty first line, one line per item in order, the limit line
   * chosen by the combine method, and an empty last line.
   */
  lemma ReportSplits(args: Args, start: string, end: string, duration: string, c: Counts)
    requires '\n' !in start && '\n' !in end && '\n' !in duration && '\n' !in args.combine
    requires NoNewline(args.srcPath) && NoNewline(args.srcBucket) && NoNewline(args.dstPath) && NoNewline(args.dstBucket)
    ensures var lines := Split(GenerateReport(args, start, end, duration, c), '\n');
      |lines| == 16 && lines[0] == "" && lines[15] == ""
      && lines[10] == "Source: " + Location(args.srcType, args.srcBucket, args.srcPath)
      && lines[11] == "Destination: " + Location(args.dstType, args.dstBucket, args.dstPath)
      && lines[14] == LimitLine(args)
  {
    ReportLinesClean(args, start, end, duration, c);
    SplitJoin(ReportLines(args, start, end, duration, c), '\n');
  }

  /** The report's fixed text holds no newline. */
  lemma HeaderTextClean()
    ensures '\n' !in "Job Summary Report" && '\n' !in "=================="
    ensures '\n' !in "Start time: " && '\n' !in "End time: " && '\n' !in "Duration: "
  {
    PrintableNoNewline("Job Summary Report");
    PrintableNoNewline("==================");
    PrintableNoNewline("Start time: ");
    PrintableNoNewline("End time: ");
    PrintableNoNewline("Duration: ");
  }

  lemma CountTextClean()
    ensures '\n' !in "Total transferred files: " && '\n' !in "Failed files: "
    ensures '\n' !in "Total tar files: " && '\n' !in "Total manifest files: "
  {
    PrintableNoNewline("Total transferred files: ");
    PrintableNoNewline("Failed files: ");
    PrintableNoNewline("Total tar files: ");
    PrintableNoNewline("Total manifest files: ");
  }

  lemma ConfigTextClean()
    ensures '\n' !in "Source: " && '\n' !in "Destination: "
    ensures '\n' !in "Combine method: " && '\n' !in "Max processes: "
  {
    PrintableNoNewline("Source: ");
    PrintableNoNewline("Destination: ");
    PrintableNoNewline("Combine method: ");
    PrintableNoNewline("Max processes: ");
  }

  lemma ReportLinesClean(args: Args, start: string, end: string, duration: string, c: Counts)
    requires '\n' !in start && '\n' !in end && '\n' !in duration && '\n' !in args.combine
    requires NoNewline(args.srcPath) && NoNewline(args.srcBucket) && NoNewline(args.dstPath) && NoNewline(args.dstBucket)
    ensures NoneContains(ReportLines(args, start, end, duration, c), '\n')
  {
    HeaderTextClean();
    CountTextClean();
    ConfigTextClean();
    LocationClean(args.srcType, args.srcBucket, args.srcPath);
    LocationClean(args.dstType, args.dstBucket, args.dstPath);
    LimitLineClean(args);
    var lines := ReportLines(args, start, end, duration, c);
    forall k | 0 <= k < 16 ensures '\n' !in lines[k] {
      if k < 8 {
        assert k == 0 || k == 1 || k == 2 || k == 3 || k == 4 || k == 5 || k == 6 || k == 7;
      } else {
        assert k == 8 || k == 9 || k == 10 || k == 11 || k == 12 || k == 13 || k == 14 || k == 15;
      }
    }
  }

  /** The limit line names the count limit exactly for the count combine, the size in bytes otherwise. */
  lemma LimitLineChoice(args: Args)
    ensures args.combine == "count" <==> LimitLine(args)[..5] == "Max f"
    ensures args.combine != "count" ==> LimitLine(args) == "Max archive size: " + IntToString(args.maxTarfileSize) + " bytes"
  {
    var l := LimitLine(args);
    if args.combine == "count" {
      assert l[..5] == "Max files per archive: "[..5];
    } else {
      assert l[4] == 'a';
    }
  }
}
