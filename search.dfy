/**
 * The search front ends (v2/apps/search-web.py and web_app/restore/search-web.py):
 * the command lines they hand to the search and restore scripts, and the
 * parsing of the search script's '|'-separated output into six columns.
 */
module Search {
  import opened Wrappers
  import opened Text

  // ---------------------------------------------------------------- parse_output

  /** One kept line of search output: its first six fields. */
  datatype Row = Row(index: string, location: string, filename: string, start: string, stop: string, date: string)

  /** A line with at least six '|'-fields gives a row of its first six; any other line none. */
  function RowOf(line: string): (r: Option<Row>)
    ensures r.Some? <==> |Split(line, '|')| >= 6
  {
    var parts := Split(line, '|');
    if |parts| >= 6 then Some(Row(parts[0], parts[1], parts[2], parts[3], parts[4], parts[5])) else None
  }

  /** The rows of the lines that have one, in line order. */
  function Rows(lines: seq<string>): (rows: seq<Row>)
    ensures |rows| <= |lines|
  {
    if |lines| == 0 then []
    else
      var last := RowOf(lines[|lines| - 1]);
      Rows(lines[..|lines| - 1]) + if last.Some? then [last.value] else []
  }

  /** The lines of output.strip().split('\n'). */
  function OutputLines(output: string): seq<string>
  {
    Split(Strip(output), '\n')
  }

  /** The six columns of the data frame. */
  datatype Field = Index | Location | Filename | Start | Stop | Date

  function Get(r: Row, f: Field): string
  {
    match f
    case Index => r.index
    case Location => r.location
    case Filename => r.filename
    case Start => r.start
    case Stop => r.stop
    case Date => r.date
  }

  /** One column: the given field of every row, in row order. */
  function Column(rows: seq<Row>, f: Field): (c: seq<string>)
    ensures |c| == |rows| && forall k :: 0 <= k < |rows| ==> c[k] == Get(rows[k], f)
  {
    seq(|rows|, k requires 0 <= k < |rows| => Get(rows[k], f))
  }

  /** One line more: its row, if it has one, adds its field to the end of every column. */
  lemma ColumnStep(lines: seq<string>, i: nat, f: Field)
    requires i < |lines|
    ensures var row := RowOf(lines[i]);
      Column(Rows(lines[..i + 1]), f)
      == Column(Rows(lines[..i]), f) + (if row.Some? then [Get(row.value, f)] else [])
  {
    assert lines[..i + 1][..i] == lines[..i];
    var row := RowOf(lines[i]);
    var before := Rows(lines[..i]);
    assert Rows(lines[..i + 1]) == before + (if row.Some? then [row.value] else []);
  }

  /**
   * parse_output: split the stripped output into lines and collect the six
   * fields of every line that has them into six parallel lists, which become
   * the data frame's columns.
   */
  method ParseOutput(output: string)
    returns (index: seq<string>, locations: seq<string>, filenames: seq<string>,
             starts: seq<string>, stops: seq<string>, dates: seq<string>)
    ensures var rows := Rows(OutputLines(output));
      index == Column(rows, Index) && locations == Column(rows, Location) && filenames == Column(rows, Filename)
      && starts == Column(rows, Start) && stops == Column(rows, Stop) && dates == Column(rows, Date)
  {
    var lines := Split(Strip(output), '\n');
    index, locations, filenames, starts, stops, dates := CollectColumns(lines);
  }

  /** The loop of parse_output: one pass over the lines, appending to the six lists. */
  method CollectColumns(lines: seq<string>)
    returns (index: seq<string>, locations: seq<string>, filenames: seq<string>,
             starts: seq<string>, stops: seq<string>, dates: seq<string>)
    ensures var rows := Rows(lines);
      index == Column(rows, Index) && locations == Column(rows, Location) && filenames == Column(rows, Filename)
      && starts == Column(rows, Start) && stops == Column(rows, Stop) && dates == Column(rows, Date)
  {
    index, locations, filenames, starts, stops, dates := [], [], [], [], [], [];
    var i := 0;
    while i < |lines|
      invariant 0 <= i <= |lines|
      invariant var rows := Rows(lines[..i]);
        index == Column(rows, Index) && locations == Column(rows, Location) && filenames == Column(rows, Filename)
        && starts == Column(rows, Start) && stops == Column(rows, Stop) && dates == Column(rows, Date)
    {
      ColumnStep(lines, i, Index);
      ColumnStep(lines, i, Location);
      ColumnStep(lines, i, Filename);
      ColumnStep(lines, i, Start);
      ColumnStep(lines, i, Stop);
      ColumnStep(lines, i, Date);
      var row := RowOf(lines[i]);
      if row.Some? {
        index := index + [row.value.index];
        locations := locations + [row.value.location];
        filenames := filenames + [row.value.filename];
        starts := starts + [row.value.start];
        stops := stops + [row.value.stop];
        dates := dates + [row.value.date];
      } else {
        assert index + [] == index && locations + [] == locations && filenames + [] == filenames;
        assert starts + [] == starts && stops + [] == stops && dates + [] == dates;
      }
      i := i + 1;
    }
    assert lines[..|lines|] == lines;
  }

  /** Rows are taken line by line: the rows of two stretches of output are the rows of each, in order. */
  lemma {:induction false} RowsAppend(a: seq<string>, b: seq<string>)
    ensures Rows(a + b) == Rows(a) + Rows(b)
    decreases |b|
  {
    if |b| > 0 {
      var n := |b| - 1;
      assert (a + b)[..|a + b| - 1] == a + b[..n];
      RowsAppend(a, b[..n]);
      assert (a + b)[|a + b| - 1] == b[n];
    } else {
      assert a + b == a;
    }
  }

  /** Blank output, whitespace only, gives no rows. */
  lemma BlankOutputNoRows(output: string)
    requires forall k :: 0 <= k < |output| ==> IsSpace(output[k])
    ensures Rows(OutputLines(output)) == []
  {
    assert Strip(output) == "";
    assert Split("", '|') == [""];
    assert OutputLines(output) == [""];
    assert [""][..0] == [];
  }

  predicate Clean(f: string)
  {
    '|' !in f && '\n' !in f
  }

  /** A line as the search script prints it: the fields joined by '|'. */
  function RowLine(fields: seq<string>): string
  {
    Join(fields, '|')
  }

  /** A line of six or more clean fields gives its first six, whatever follows; fewer give none. */
  lemma LineFields(fields: seq<string>)
    requires |fields| >= 1 && forall k :: 0 <= k < |fields| ==> Clean(fields[k])
    ensures |fields| >= 6 ==>
              RowOf(RowLine(fields)) == Some(Row(fields[0], fields[1], fields[2], fields[3], fields[4], fields[5]))
    ensures |fields| < 6 ==> RowOf(RowLine(fields)) == None
  {
    SplitJoin(fields, '|');
  }

  function Render(r: Row): string
  {
    RowLine([r.index, r.location, r.filename, r.start, r.stop, r.date])
  }

  predicate CleanRow(r: Row)
  {
    Clean(r.index) && Clean(r.location) && Clean(r.filename) && Clean(r.start) && Clean(r.stop) && Clean(r.date)
  }

  function Rendered(rows: seq<Row>): (lines: seq<string>)
    ensures |lines| == |rows| && forall k :: 0 <= k < |rows| ==> lines[k] == Render(rows[k])
  {
    if |rows| == 0 then [] else Rendered(rows[..|rows| - 1]) + [Render(rows[|rows| - 1])]
  }

  lemma RenderClean(r: Row)
    requires CleanRow(r)
    ensures '\n' !in Render(r) && RowOf(Render(r)) == Some(r)
  {
    var fields := [r.index, r.location, r.filename, r.start, r.stop, r.date];
    JoinWithout(fields, '|', '\n');
    LineFields(fields);
  }

  lemma RenderedClean(rows: seq<Row>)
    requires forall k :: 0 <= k < |rows| ==> CleanRow(rows[k])
    ensures NoneContains(Rendered(rows), '\n')
  {
    var lines := Rendered(rows);
    forall k | 0 <= k < |rows| ensures '\n' !in lines[k] {
      RenderClean(rows[k]);
    }
  }

  /** A line with a row adds that row after the rows of the lines before it. */
  lemma RowsSnocRow(pre: seq<string>, line: string, r: Row)
    requires RowOf(line) == Some(r)
    ensures Rows(pre + [line]) == Rows(pre) + [r]
  {
    assert (pre + [line])[..|pre|] == pre;
  }

  lemma {:induction false} RowsRendered(rows: seq<Row>)
    requires forall k :: 0 <= k < |rows| ==> CleanRow(rows[k])
    ensures Rows(Rendered(rows)) == rows
    ensures NoneContains(Rendered(rows), '\n')
    decreases |rows|
  {
    RenderedClean(rows);
    if |rows| > 0 {
      var n := |rows| - 1;
      RowsRendered(rows[..n]);
      RenderClean(rows[n]);
      RowsSnocRow(Rendered(rows[..n]), Render(rows[n]), rows[n]);
      FrontLast(rows);
    }
  }

  /**
   * Parsing undoes printing: output whose lines are rows of clean fields, and
   * which does not begin or end in whitespace, gives back exactly those rows.
   */
  lemma ParseRendered(rows: seq<Row>)
    requires |rows| >= 1 && forall k :: 0 <= k < |rows| ==> CleanRow(rows[k])
    requires rows[0].index != "" && !IsSpace(rows[0].index[0])
    requires rows[|rows| - 1].date != "" && !IsSpace(rows[|rows| - 1].date[|rows[|rows| - 1].date| - 1])
    ensures Rows(OutputLines(Join(Rendered(rows), '\n'))) == rows
  {
    var lines := Rendered(rows);
    RowsRendered(rows);
    RenderedEnds(rows);
    StripNothing(Join(lines, '\n'));
    SplitJoin(lines, '\n');
  }

  /** The printed output begins with the first row's index and ends with the last row's date. */
  lemma RenderedEnds(rows: seq<Row>)
    requires |rows| >= 1
    requires rows[0].index != "" && rows[|rows| - 1].date != ""
    ensures var out := Join(Rendered(rows), '\n');
      |out| > 0 && out[0] == rows[0].index[0] && out[|out| - 1] == rows[|rows| - 1].date[|rows[|rows| - 1].date| - 1]
  {
    var lines := Rendered(rows);
    var out := Join(lines, '\n');
    RenderStarts(rows[0]);
    RenderFinishes(rows[|rows| - 1]);
    JoinEnds(lines, '\n');
    var l0 := lines[0];
    var ll := lines[|lines| - 1];
    assert out[..|l0|] == l0;
    assert out[0] == out[..|l0|][0];
    assert out[|out| - |ll|..] == ll;
    assert out[|out| - 1] == out[|out| - |ll|..][|ll| - 1];
  }

  lemma RenderStarts(r: Row)
    requires r.index != ""
    ensures var l := Render(r); |l| > 0 && l[0] == r.index[0]
  {
    var l := Render(r);
    JoinEnds([r.index, r.location, r.filename, r.start, r.stop, r.date], '|');
    assert l[..|r.index|] == r.index;
    assert l[0] == l[..|r.index|][0];
  }

  lemma RenderFinishes(r: Row)
    requires r.date != ""
    ensures var l := Render(r); |l| > 0 && l[|l| - 1] == r.date[|r.date| - 1]
  {
    var l := Render(r);
    JoinEnds([r.index, r.location, r.filename, r.start, r.stop, r.date], '|');
    assert l[|l| - |r.date|..] == r.date;
    assert l[|l| - 1] == l[|l| - |r.date|..][|r.date| - 1];
  }

  // ---------------------------------------------------------------- command lines

  /**
   * A word argparse reads as a plain value: one that does not begin with '-'
   * (argparse takes a word such as "-x" for an option and stops).
   */
  predicate NotOption(v: string)
  {
    |v| == 0 || v[0] != '-'
  }

  /**
   * The word that follows the first occurrence of flag. argparse keeps the word
   * after the last occurrence; in the command lines built here every option name
   * occurs once, so the two agree (Options below).
   */
  function OptionValue(argv: seq<string>, flag: string): (r: Option<string>)
    ensures r.Some? ==> r.value in argv
  {
    OptionValueFrom(argv, flag, 0)
  }

  function OptionValueFrom(argv: seq<string>, flag: string, i: nat): (r: Option<string>)
    ensures r.Some? ==> r.value in argv
    decreases |argv| - i
  {
    if i + 1 >= |argv| then None
    else if argv[i] == flag then Some(argv[i + 1])
    else OptionValueFrom(argv, flag, i + 1)
  }

  /** The first occurrence of flag, at p, decides what it reads. */
  lemma {:induction false} FlagAt(argv: seq<string>, flag: string, i: nat, p: nat)
    requires i <= p && p + 1 < |argv| && argv[p] == flag
    requires forall m :: i <= m < p ==> argv[m] != flag
    ensures OptionValueFrom(argv, flag, i) == Some(argv[p + 1])
    decreases p - i
  {
    if i < p {
      FlagAt(argv, flag, i + 1, p);
    }
  }

  /** A flag that appears nowhere reads nothing. */
  lemma {:induction false} FlagAbsent(argv: seq<string>, flag: string, i: nat)
    requires forall m :: i <= m < |argv| ==> argv[m] != flag
    ensures OptionValueFrom(argv, flag, i) == None
    decreases |argv| - i
  {
    if i + 1 < |argv| {
      FlagAbsent(argv, flag, i + 1);
    }
  }

  /** A value that is no option is not the option it follows or precedes. */
  lemma ValueIsNoFlag(v: string, flag: string)
    requires NotOption(v) && |flag| >= 2 && flag[..2] == "--"
    ensures v != flag
  {
    assert flag[0] == flag[..2][0] == '-';
  }

  /** run_search of v2/apps/search-web.py. */
  function V2SearchArgv(bucket: string, prefix: string, value: string, start: string, end: string): seq<string>
  {
    ["python3", "apps/search.py", "--bucket", bucket, "--prefix", prefix,
     "--search_value", value, "--start_value", start, "--end_value", end]
  }

  const V2SearchFlags: seq<string> := ["--bucket", "--prefix", "--search_value", "--start_value", "--end_value"]

  lemma V2SearchFlagsNamed()
    ensures OptionNames(V2SearchFlags) && NotOption("python3") && NotOption("apps/search.py")
  {
  }

  /**
   * The search script, reading its command line, gets every value back under
   * its own option, as long as no value begins with '-'.
   */
  lemma V2SearchArgvRecovers(bucket: string, prefix: string, value: string, start: string, end: string)
    requires NotOption(bucket) && NotOption(prefix) && NotOption(value) && NotOption(start) && NotOption(end)
    ensures var argv := V2SearchArgv(bucket, prefix, value, start, end);
      |argv| == 12 && argv[..2] == ["python3", "apps/search.py"]
      && OptionValue(argv, "--bucket") == Some(bucket) && OptionValue(argv, "--prefix") == Some(prefix)
      && OptionValue(argv, "--search_value") == Some(value) && OptionValue(argv, "--start_value") == Some(start)
      && OptionValue(argv, "--end_value") == Some(end)
  {
    var argv := V2SearchArgv(bucket, prefix, value, start, end);
    V2SearchFlagsNamed();
    Options(argv, 2, V2SearchFlags);
    assert OptionValue(argv, V2SearchFlags[0]) == Some(argv[3]);
    assert OptionValue(argv, V2SearchFlags[1]) == Some(argv[5]);
    assert OptionValue(argv, V2SearchFlags[2]) == Some(argv[7]);
    assert OptionValue(argv, V2SearchFlags[3]) == Some(argv[9]);
    assert OptionValue(argv, V2SearchFlags[4]) == Some(argv[11]);
  }

  /** run_search of web_app/restore/search-web.py: --end_value only when end_value is truthy. */
  function RestoreSearchArgv(bucket: string, prefix: string, searchType: string, value: string, end: Option<string>)
    : seq<string>
  {
    ["python3", "search_item.py", "--bucket", bucket, "--prefix", prefix,
     "--search_type", searchType, "--search_value", value]
    + if Truthy(end) then ["--end_value", end.value] else []
  }

  lemma RestoreSearchArgvRecovers(bucket: string, prefix: string, searchType: string, value: string, end: Option<string>)
    requires NotOption(bucket) && NotOption(prefix) && NotOption(searchType) && NotOption(value)
    requires end.Some? ==> NotOption(end.value)
    ensures var argv := RestoreSearchArgv(bucket, prefix, searchType, value, end);
      argv[..2] == ["python3", "search_item.py"] && |argv| == (if Truthy(end) then 12 else 10)
      && OptionValue(argv, "--bucket") == Some(bucket) && OptionValue(argv, "--prefix") == Some(prefix)
      && OptionValue(argv, "--search_type") == Some(searchType) && OptionValue(argv, "--search_value") == Some(value)
      && OptionValue(argv, "--end_value") == (if Truthy(end) then Some(end.value) else None)
  {
    if Truthy(end) {
      RestoreSearchWithEnd(bucket, prefix, searchType, value, end.value);
    } else {
      RestoreSearchWithoutEnd(bucket, prefix, searchType, value, end);
    }
  }

  const RestoreSearchFlags: seq<string> := ["--bucket", "--prefix", "--search_type", "--search_value", "--end_value"]

  lemma RestoreSearchFlagsNamed()
    ensures OptionNames(RestoreSearchFlags) && OptionNames(RestoreSearchFlags[..4])
    ensures NotOption("python3") && NotOption("search_item.py")
  {
  }

  lemma RestoreSearchWithEnd(bucket: string, prefix: string, searchType: string, value: string, end: string)
    requires NotOption(bucket) && NotOption(prefix) && NotOption(searchType) && NotOption(value) && NotOption(end)
    requires end != ""
    ensures var argv := RestoreSearchArgv(bucket, prefix, searchType, value, Some(end));
      argv[..2] == ["python3", "search_item.py"] && |argv| == 12
      && OptionValue(argv, "--bucket") == Some(bucket) && OptionValue(argv, "--prefix") == Some(prefix)
      && OptionValue(argv, "--search_type") == Some(searchType) && OptionValue(argv, "--search_value") == Some(value)
      && OptionValue(argv, "--end_value") == Some(end)
  {
    var argv := RestoreSearchArgv(bucket, prefix, searchType, value, Some(end));
    RestoreSearchFlagsNamed();
    Options(argv, 2, RestoreSearchFlags);
    assert OptionValue(argv, RestoreSearchFlags[0]) == Some(argv[3]);
    assert OptionValue(argv, RestoreSearchFlags[1]) == Some(argv[5]);
    assert OptionValue(argv, RestoreSearchFlags[2]) == Some(argv[7]);
    assert OptionValue(argv, RestoreSearchFlags[3]) == Some(argv[9]);
    assert OptionValue(argv, RestoreSearchFlags[4]) == Some(argv[11]);
  }

  lemma RestoreSearchWithoutEnd(bucket: string, prefix: string, searchType: string, value: string, end: Option<string>)
    requires NotOption(bucket) && NotOption(prefix) && NotOption(searchType) && NotOption(value)
    requires !Truthy(end)
    ensures var argv := RestoreSearchArgv(bucket, prefix, searchType, value, end);
      argv[..2] == ["python3", "search_item.py"] && |argv| == 10
      && OptionValue(argv, "--bucket") == Some(bucket) && OptionValue(argv, "--prefix") == Some(prefix)
      && OptionValue(argv, "--search_type") == Some(searchType) && OptionValue(argv, "--search_value") == Some(value)
      && OptionValue(argv, "--end_value") == None
  {
    var argv := RestoreSearchArgv(bucket, prefix, searchType, value, end);
    assert argv == ["python3", "search_item.py", "--bucket", bucket, "--prefix", prefix,
                    "--search_type", searchType, "--search_value", value];
    var flags := RestoreSearchFlags[..4];
    RestoreSearchFlagsNamed();
    Options(argv, 2, flags);
    assert OptionValue(argv, flags[0]) == Some(argv[3]);
    assert OptionValue(argv, flags[1]) == Some(argv[5]);
    assert OptionValue(argv, flags[2]) == Some(argv[7]);
    assert OptionValue(argv, flags[3]) == Some(argv[9]);
    EndValueAbsent(argv);
  }

  /** A command line of the restore search without the end option never names it. */
  lemma EndValueAbsent(argv: seq<string>)
    requires |argv| == 10 && NotOption(argv[0]) && NotOption(argv[1])
    requires argv[2] == RestoreSearchFlags[0] && argv[4] == RestoreSearchFlags[1]
    requires argv[6] == RestoreSearchFlags[2] && argv[8] == RestoreSearchFlags[3]
    requires NotOption(argv[3]) && NotOption(argv[5]) && NotOption(argv[7]) && NotOption(argv[9])
    ensures OptionValue(argv, "--end_value") == None
  {
    RestoreSearchFlagsNamed();
    forall m | 0 <= m < |argv| ensures argv[m] != "--end_value" {
      if m == 0 || m == 1 || m == 3 || m == 5 || m == 7 || m == 9 {
        ValueIsNoFlag(argv[m], "--end_value");
      }
    }
    FlagAbsent(argv, "--end_value", 0);
  }

  /** run_restore_script of web_app/restore/search-web.py. */
  function RestoreArgv(bucket: string, key: string, startByte: string, stopByte: string): seq<string>
  {
    ["python3", "restore_tar.py", "--bucket_name", bucket, "--key_name", key,
     "--start_byte", startByte, "--stop_byte", stopByte]
  }

  const RestoreFlags: seq<string> := ["--bucket_name", "--key_name", "--start_byte", "--stop_byte"]

  lemma RestoreFlagsNamed()
    ensures OptionNames(RestoreFlags) && NotOption("python3") && NotOption("restore_tar.py")
  {
  }

  lemma RestoreArgvRecovers(bucket: string, key: string, startByte: string, stopByte: string)
    requires NotOption(bucket) && NotOption(key) && NotOption(startByte) && NotOption(stopByte)
    ensures var argv := RestoreArgv(bucket, key, startByte, stopByte);
      |argv| == 10 && argv[..2] == ["python3", "restore_tar.py"]
      && OptionValue(argv, "--bucket_name") == Some(bucket) && OptionValue(argv, "--key_name") == Some(key)
      && OptionValue(argv, "--start_byte") == Some(startByte) && OptionValue(argv, "--stop_byte") == Some(stopByte)
  {
    var argv := RestoreArgv(bucket, key, startByte, stopByte);
    RestoreFlagsNamed();
    Options(argv, 2, RestoreFlags);
    assert OptionValue(argv, RestoreFlags[0]) == Some(argv[3]);
    assert OptionValue(argv, RestoreFlags[1]) == Some(argv[5]);
    assert OptionValue(argv, RestoreFlags[2]) == Some(argv[7]);
    assert OptionValue(argv, RestoreFlags[3]) == Some(argv[9]);
  }

  /** Distinct option names. */
  predicate OptionNames(flags: seq<string>)
  {
    (forall j :: 0 <= j < |flags| ==> |flags[j]| >= 2 && flags[j][..2] == "--")
    && forall j, k :: 0 <= j < k < |flags| ==> flags[j] != flags[k]
  }

  /**
   * From position p on, argv alternates the given option names with values that
   * are no option names, and no word before p is an option name: each option then
   * reads the value that follows it.
   */
  lemma Options(argv: seq<string>, p: nat, flags: seq<string>)
    requires OptionNames(flags) && |argv| == p + 2 * |flags|
    requires forall k :: 0 <= k < |flags| ==> argv[p + 2 * k] == flags[k] && NotOption(argv[p + 2 * k + 1])
    requires forall m :: 0 <= m < p ==> NotOption(argv[m])
    ensures forall k :: 0 <= k < |flags| ==> OptionValue(argv, flags[k]) == Some(argv[p + 2 * k + 1])
  {
    forall k | 0 <= k < |flags| ensures OptionValue(argv, flags[k]) == Some(argv[p + 2 * k + 1]) {
      forall m | 0 <= m < p + 2 * k ensures argv[m] != flags[k] {
        if m < p {
          ValueIsNoFlag(argv[m], flags[k]);
        } else {
          var j := (m - p) / 2;
          if (m - p) % 2 == 0 {
            assert m == p + 2 * j && j < k;
          } else {
            assert m == p + 2 * j + 1;
            ValueIsNoFlag(argv[m], flags[k]);
          }
        }
      }
      FlagAt(argv, flags[k], 0, p + 2 * k);
    }
  }
}
