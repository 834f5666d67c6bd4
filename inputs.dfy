/**
 * Where the archivers' file lists come from: the lines of an input file, an S3
 * listing under a prefix, or a directory walk. The file system and S3 are
 * parameters: stat gives the size of a path or key that exists (None when it is
 * missing or its lookup fails).
 */
module Inputs {
  import opened Wrappers
  import opened Text
  import opened Naming

  /** One entry of a file list: the path or key to read, its name inside the tar, its size. */
  datatype Entry = Entry(source: string, obj: string, size: nat)

  // ---------------------------------------------------------------- input-file lines

  /** A stripped line that is blank or a '#' comment is skipped. */
  predicate Skipped(line: string)
  {
    line == "" || StartsWith(line, "#")
  }

  /**
   * One input-file line: stripped, skipped when blank or a comment, otherwise split
   * on ','; two or more fields give (path, name), a single field gives the path
   * and its base name.
   */
  function ParseLine(raw: string): (r: Option<(string, string)>)
    ensures r.None? <==> Skipped(Strip(raw))
    ensures r.Some? ==> ',' !in r.value.0 && ',' !in r.value.1
  {
    var line := Strip(raw);
    if Skipped(line) then None
    else
      var parts := Split(line, ',');
      if |parts| >= 2 then Some((parts[0], parts[1]))
      else
        var name := Basename(parts[0]);
        assert ',' !in name by {
          SplitPartsWithout(parts[0], '/', ',');
        }
        Some((parts[0], name))
  }

  /** A line of comma-free fields gives back its first two fields, whatever follows them. */
  lemma ParseFields(fields: seq<string>)
    requires |fields| >= 2 && NoneContains(fields, ',')
    requires Strip(Join(fields, ',')) == Join(fields, ',') && !Skipped(Join(fields, ','))
    ensures ParseLine(Join(fields, ',')) == Some((fields[0], fields[1]))
  {
    SplitJoin(fields, ',');
  }

  /** A line holding only a path gives the path and its last '/'-component. */
  lemma ParseSinglePath(dir: string, name: string)
    requires ',' !in dir + "/" + name && '/' !in name
    requires Strip(dir + "/" + name) == dir + "/" + name && !Skipped(dir + "/" + name)
    ensures ParseLine(dir + "/" + name) == Some((dir + "/" + name, name))
  {
    SplitNone(dir + "/" + name, ',');
    BasenameOfJoin(dir, name);
  }

  /** What one line contributes: nothing when skipped or when its path does not exist. */
  function LineEntry(raw: string, stat: string -> Option<nat>): (r: seq<Entry>)
    ensures |r| <= 1
  {
    match ParseLine(raw)
    case None => []
    case Some((path, obj)) =>
      match stat(path)
      case None => []
      case Some(size) => [Entry(path, obj, size)]
  }

  /** The file list an input file yields, in line order. */
  function InputEntries(lines: seq<string>, stat: string -> Option<nat>): (r: seq<Entry>)
  {
    if |lines| == 0 then []
    else InputEntries(lines[..|lines| - 1], stat) + LineEntry(lines[|lines| - 1], stat)
  }

  /**
   * The input-file loop of v1/s3archiver.py, archivers/s32s3archiver.py and the
   * web_app archivers (head_object standing in for os.path.exists in the S3 one).
   */
  method ReadInputFile(lines: seq<string>, stat: string -> Option<nat>) returns (files: seq<Entry>)
    ensures files == InputEntries(lines, stat)
  {
    files := [];
    var i := 0;
    while i < |lines|
      invariant 0 <= i <= |lines|
      invariant files == InputEntries(lines[..i], stat)
    {
      InputEntriesStep(lines, i, stat);
      var parsed := ParseLine(lines[i]);
      if parsed.Some? {
        var size := stat(parsed.value.0);
        if size.Some? {
          files := files + [Entry(parsed.value.0, parsed.value.1, size.value)];
        } else {
          assert files + [] == files;
        }
      } else {
        assert files + [] == files;
      }
      i := i + 1;
    }
    assert lines[..|lines|] == lines;
  }

  lemma InputEntriesStep(lines: seq<string>, i: nat, stat: string -> Option<nat>)
    requires i < |lines|
    ensures InputEntries(lines[..i + 1], stat) == InputEntries(lines[..i], stat) + LineEntry(lines[i], stat)
  {
    assert lines[..i + 1][..i] == lines[..i];
  }

  lemma {:induction false} InputEntriesAppend(a: seq<string>, b: seq<string>, stat: string -> Option<nat>)
    ensures InputEntries(a + b, stat) == InputEntries(a, stat) + InputEntries(b, stat)
    decreases |b|
  {
    if |b| > 0 {
      assert (a + b)[..|a + b| - 1] == a + b[..|b| - 1];
      InputEntriesAppend(a, b[..|b| - 1], stat);
    } else {
      assert a + b == a;
    }
  }

  /** Every listed entry exists, with the size its lookup gave; there are no more entries than lines. */
  lemma {:induction false} InputEntriesSound(lines: seq<string>, stat: string -> Option<nat>)
    ensures |InputEntries(lines, stat)| <= |lines|
    ensures forall e :: e in InputEntries(lines, stat) ==> stat(e.source) == Some(e.size)
    decreases |lines|
  {
    if |lines| > 0 {
      InputEntriesSound(lines[..|lines| - 1], stat);
    }
  }

  /** The line "path,name" that lists one entry. */
  function PairText(e: Entry): string
  {
    e.source + "," + e.obj
  }

  /** An entry whose line has nothing to strip and nothing to skip. */
  predicate PairLine(e: Entry)
  {
    ',' !in e.source && ',' !in e.obj && Strip(PairText(e)) == PairText(e) && !Skipped(PairText(e))
  }

  function FormatLines(es: seq<Entry>): (lines: seq<string>)
    ensures |lines| == |es|
  {
    seq(|es|, k requires 0 <= k < |es| => PairText(es[k]))
  }

  lemma PairLineEntry(e: Entry, stat: string -> Option<nat>)
    requires PairLine(e) && stat(e.source) == Some(e.size)
    ensures LineEntry(PairText(e), stat) == [e]
  {
    var fields := [e.source, e.obj];
    assert Join(fields, ',') == PairText(e) by {
      assert fields[1..] == [e.obj];
    }
    assert NoneContains(fields, ',') by {
      assert forall k :: 0 <= k < 2 ==> fields[k] == e.source || fields[k] == e.obj;
    }
    ParseFields(fields);
  }

  lemma InputEntriesSnoc(lines: seq<string>, line: string, stat: string -> Option<nat>)
    ensures InputEntries(lines + [line], stat) == InputEntries(lines, stat) + LineEntry(line, stat)
  {
    assert (lines + [line])[..|lines|] == lines;
  }

  lemma FormatLinesSnoc(es: seq<Entry>)
    requires |es| > 0
    ensures FormatLines(es) == FormatLines(es[..|es| - 1]) + [PairText(es[|es| - 1])]
    ensures es == es[..|es| - 1] + [es[|es| - 1]]
  {
  }

  /** Every entry has a clean "path,name" line and a path that exists with its size. */
  predicate Listable(es: seq<Entry>, stat: string -> Option<nat>)
  {
    |es| == 0 || (Listable(es[..|es| - 1], stat) && PairLine(es[|es| - 1])
      && stat(es[|es| - 1].source) == Some(es[|es| - 1].size))
  }

  /** Writing a file list as "path,name" lines and reading it back gives the list, when every path exists. */
  lemma {:induction false} InputFileRoundTrip(es: seq<Entry>, stat: string -> Option<nat>)
    requires Listable(es, stat)
    ensures InputEntries(FormatLines(es), stat) == es
    decreases |es|
  {
    if |es| > 0 {
      var n := |es| - 1;
      var e := es[n];
      InputFileRoundTrip(es[..n], stat);
      PairLineEntry(e, stat);
      FormatLinesSnoc(es);
      InputEntriesSnoc(FormatLines(es[..n]), PairText(e), stat);
    }
  }

  // ---------------------------------------------------------------- s32fs input file

  datatype InputError = NameError(line: string)

  /**
   * archivers/s32fsarchiver.py appends with a file_size it never bound: the first
   * line that is not skipped raises, and the ClientError handler does not catch it.
   */
  function S32fsInputEntries(lines: seq<string>): (r: Result<seq<Entry>, InputError>)
    ensures r.Success? <==> forall k :: 0 <= k < |lines| ==> Skipped(Strip(lines[k]))
    ensures r.Success? ==> r.value == []
    ensures r.Failure? ==> exists k :: 0 <= k < |lines| && r.error.line == Strip(lines[k]) && !Skipped(Strip(lines[k]))
  {
    if |lines| == 0 then Success([])
    else if !Skipped(Strip(lines[0])) then Failure(NameError(Strip(lines[0])))
    else
      var r := S32fsInputEntries(lines[1..]);
      SkippedHead(lines, r);
      r
  }

  /** A skipped first line changes neither the verdict nor the offending line. */
  lemma SkippedHead(lines: seq<string>, r: Result<seq<Entry>, InputError>)
    requires |lines| > 0 && Skipped(Strip(lines[0]))
    requires r.Success? <==> forall k :: 0 <= k < |lines| - 1 ==> Skipped(Strip(lines[1..][k]))
    requires r.Failure? ==> exists k :: 0 <= k < |lines| - 1 && r.error.line == Strip(lines[1..][k]) && !Skipped(Strip(lines[1..][k]))
    ensures r.Success? <==> forall k :: 0 <= k < |lines| ==> Skipped(Strip(lines[k]))
    ensures r.Failure? ==> exists k :: 0 <= k < |lines| && r.error.line == Strip(lines[k]) && !Skipped(Strip(lines[k]))
  {
    assert forall k :: 1 <= k < |lines| ==> lines[k] == lines[1..][k - 1];
    if r.Failure? {
      var k :| 0 <= k < |lines| - 1 && r.error.line == Strip(lines[1..][k]) && !Skipped(Strip(lines[1..][k]));
      assert lines[k + 1] == lines[1..][k];
    }
  }

  // ---------------------------------------------------------------- fss3 input file

  /** What os.path.isfile and os.path.getsize say about one path. */
  datatype Lookup = NotAFile | Unreadable | Size(bytes: nat)

  datatype FileInfo = FileInfo(fullPath: string, relPath: string, size: nat)

  /** path[len(src):].lstrip('/') when path starts with src, otherwise path. */
  function RelPath(path: string, src: string): (r: string)
    ensures !StartsWith(path, src) ==> r == path
    ensures StartsWith(path, src) ==>
      |src| + |r| <= |path| && path[|path| - |r|..] == r && (r == "" || r[0] != '/')
    ensures StartsWith(path, src) ==> forall i :: |src| <= i < |path| - |r| ==> path[i] == '/'
  {
    if StartsWith(path, src) then
      var r := LStripSlash(path[|src|..]);
      StrippedTail(path, |src|, r);
      r
    else path
  }

  /** What is left once the slashes after position from are dropped is a suffix of path. */
  lemma StrippedTail(path: string, from: nat, r: string)
    requires from <= |path| && r == LStripSlash(path[from..])
    ensures from + |r| <= |path| && path[|path| - |r|..] == r && (r == "" || r[0] != '/')
    ensures forall i :: from <= i < |path| - |r| ==> path[i] == '/'
  {
    assert forall i :: from <= i < |path| - |r| ==> path[i] == path[from..][i - from];
  }

  /** A path under src is named by what follows src and its separator. */
  lemma RelPathUnder(src: string, rel: string)
    requires rel == "" || rel[0] != '/'
    ensures RelPath(src + "/" + rel, src) == rel
    ensures RelPath(src + rel, src) == rel
  {
    assert (src + "/" + rel)[..|src|] == src;
    assert (src + "/" + rel)[|src|..] == "/" + rel;
    assert ("/" + rel)[1..] == rel;
    TrimStartNothing(rel, IsSlash);
    assert (src + rel)[..|src|] == src;
    assert (src + rel)[|src|..] == rel;
  }

  /** What one line adds to fss3's list and to its failed count. */
  function Fss3Line(raw: string, src: string, look: string -> Lookup): (r: (seq<FileInfo>, nat))
    ensures |r.0| + r.1 == if Skipped(Strip(raw)) then 0 else 1
  {
    var path := Strip(raw);
    if Skipped(path) then ([], 0)
    else
      match look(path)
      case NotAFile => ([], 1)
      case Unreadable => ([], 1)
      case Size(n) => ([FileInfo(path, RelPath(path, src), n)], 0)
  }

  /** Fss3Line case by case, as the loop of _read_input_file takes it. */
  lemma Fss3LineCases(raw: string, src: string, look: string -> Lookup)
    ensures var path := Strip(raw);
      && (Skipped(path) ==> Fss3Line(raw, src, look) == ([], 0))
      && (!Skipped(path) && look(path).Size? ==>
            Fss3Line(raw, src, look) == ([FileInfo(path, RelPath(path, src), look(path).bytes)], 0))
      && (!Skipped(path) && !look(path).Size? ==> Fss3Line(raw, src, look) == ([], 1))
  {
  }

  /** Every file one line adds was found with the size recorded. */
  lemma Fss3LineFound(raw: string, src: string, look: string -> Lookup)
    ensures forall f :: f in Fss3Line(raw, src, look).0 ==> look(f.fullPath) == Size(f.size)
  {
  }

  function Fss3Files(lines: seq<string>, src: string, look: string -> Lookup): seq<FileInfo>
  {
    if |lines| == 0 then []
    else Fss3Files(lines[..|lines| - 1], src, look) + Fss3Line(lines[|lines| - 1], src, look).0
  }

  function Fss3Failed(lines: seq<string>, src: string, look: string -> Lookup): nat
  {
    if |lines| == 0 then 0
    else Fss3Failed(lines[..|lines| - 1], src, look) + Fss3Line(lines[|lines| - 1], src, look).1
  }

  lemma Fss3Step(lines: seq<string>, i: nat, src: string, look: string -> Lookup)
    requires i < |lines|
    ensures Fss3Files(lines[..i + 1], src, look) == Fss3Files(lines[..i], src, look) + Fss3Line(lines[i], src, look).0
    ensures Fss3Failed(lines[..i + 1], src, look) == Fss3Failed(lines[..i], src, look) + Fss3Line(lines[i], src, look).1
  {
    assert lines[..i + 1][..i] == lines[..i];
  }

  /** _read_input_file of v2/apps/fss3-archiver.py: the list and the number of failed lookups. */
  method Fss3ReadInputFile(lines: seq<string>, src: string, look: string -> Lookup)
    returns (files: seq<FileInfo>, failed: nat)
    ensures files == Fss3Files(lines, src, look) && failed == Fss3Failed(lines, src, look)
  {
    files, failed := [], 0;
    var i := 0;
    while i < |lines|
      invariant 0 <= i <= |lines|
      invariant files == Fss3Files(lines[..i], src, look) && failed == Fss3Failed(lines[..i], src, look)
    {
      Fss3Step(lines, i, src, look);
      Fss3LineCases(lines[i], src, look);
      var path := Strip(lines[i]);
      if !Skipped(path) {
        var found := look(path);
        if found.Size? {
          files := files + [FileInfo(path, RelPath(path, src), found.bytes)];
        } else {
          failed := failed + 1;
        }
      }
      i := i + 1;
    }
    assert lines[..|lines|] == lines;
  }

  /** The number of lines that are neither blank nor comments. */
  function Listed(lines: seq<string>): nat
  {
    if |lines| == 0 then 0
    else Listed(lines[..|lines| - 1]) + if Skipped(Strip(lines[|lines| - 1])) then 0 else 1
  }

  /** Every line that is not skipped ends up either in the list or in the failed count, never both. */
  lemma {:induction false} Fss3Accounted(lines: seq<string>, src: string, look: string -> Lookup)
    ensures |Fss3Files(lines, src, look)| + Fss3Failed(lines, src, look) == Listed(lines)
    ensures forall f :: f in Fss3Files(lines, src, look) ==> look(f.fullPath) == Size(f.size)
    decreases |lines|
  {
    if |lines| > 0 {
      var n := |lines| - 1;
      Fss3Accounted(lines[..n], src, look);
      Fss3LineFound(lines[n], src, look);
      var pre, add := Fss3Files(lines[..n], src, look), Fss3Line(lines[n], src, look).0;
      assert Fss3Files(lines, src, look) == pre + add;
      assert forall f :: f in pre + add ==> f in pre || f in add;
    }
  }

  // ---------------------------------------------------------------- S3 listings

  /** key[len(prefix):] with Python's slice semantics. */
  function ListingName(key: string, prefix: string): (name: string)
    ensures StartsWith(key, prefix) ==> prefix + name == key
    ensures |key| < |prefix| ==> name == ""
  {
    if |prefix| <= |key| then key[|prefix|..] else ""
  }

  /** _get_file_list_from_s3: every listed object with its key, its name below the prefix and its size. */
  method ListS3(objects: seq<(string, nat)>, prefix: string) returns (files: seq<Entry>)
    ensures |files| == |objects|
    ensures forall k :: 0 <= k < |files| ==>
      files[k].source == objects[k].0 && files[k].size == objects[k].1
      && (StartsWith(objects[k].0, prefix) ==> prefix + files[k].obj == objects[k].0)
  {
    files := [];
    var i := 0;
    while i < |objects|
      invariant 0 <= i <= |objects| && |files| == i
      invariant forall k :: 0 <= k < i ==>
        files[k].source == objects[k].0 && files[k].size == objects[k].1
        && (StartsWith(objects[k].0, prefix) ==> prefix + files[k].obj == objects[k].0)
    {
      var (key, size) := objects[i];
      files := files + [Entry(key, ListingName(key, prefix), size)];
      i := i + 1;
    }
  }

  /** A listing under a normalised prefix names each key by what follows that prefix. */
  lemma ListingUnderPrefix(p: string, rest: string)
    requires p != ""
    ensures ListingName(NormalizePrefix(Some(p)) + rest, NormalizePrefix(Some(p))) == rest
    ensures ListingName(rest, NormalizePrefix(None)) == rest
  {
    var q := NormalizePrefix(Some(p));
    assert (q + rest)[|q|..] == rest;
  }

  // ---------------------------------------------------------------- directory walks

  /** The non-empty pieces of a '/'-split, which is all relpath looks at. */
  function NonEmptyParts(ps: seq<string>): (r: seq<string>)
    ensures forall k :: 0 <= k < |r| ==> r[k] != ""
  {
    if |ps| == 0 then []
    else (if ps[0] == "" then [] else [ps[0]]) + NonEmptyParts(ps[1..])
  }

  lemma {:induction false} NonEmptyPartsAppend(a: seq<string>, b: seq<string>)
    ensures NonEmptyParts(a + b) == NonEmptyParts(a) + NonEmptyParts(b)
    decreases |a|
  {
    if |a| > 0 {
      assert (a + b)[1..] == a[1..] + b;
      NonEmptyPartsAppend(a[1..], b);
    } else {
      assert a + b == b;
    }
  }

  lemma {:induction false} NonEmptyPartsKeep(ps: seq<string>)
    requires forall k :: 0 <= k < |ps| ==> ps[k] != ""
    ensures NonEmptyParts(ps) == ps
    decreases |ps|
  {
    if |ps| > 0 {
      NonEmptyPartsKeep(ps[1..]);
    }
  }

  function PathParts(p: string): seq<string>
  {
    NonEmptyParts(Split(p, '/'))
  }

  /** The length of the common prefix of two component lists. */
  function CommonLen(a: seq<string>, b: seq<string>): (n: nat)
    ensures n <= |a| && n <= |b| && a[..n] == b[..n]
    ensures n < |a| && n < |b| ==> a[n] != b[n]
  {
    if |a| == 0 || |b| == 0 || a[0] != b[0] then 0
    else
      var n := CommonLen(a[1..], b[1..]);
      assert a[..n + 1] == [a[0]] + a[1..][..n];
      assert b[..n + 1] == [b[0]] + b[1..][..n];
      n + 1
  }

  /**
   * os.path.relpath for two paths given in the same form (both absolute, or both
   * relative to one working directory) without "." or ".." components.
   */
  function Relpath(path: string, start: string): string
  {
    var s := PathParts(start);
    var p := PathParts(path);
    var i := CommonLen(s, p);
    var rel := seq(|s| - i, _ => "..") + p[i..];
    if rel == [] then "." else Join(rel, '/')
  }

  /** A relative path with no empty component: no leading, trailing or doubled '/'. */
  predicate Normal(sub: string)
  {
    forall k :: 0 <= k < |Split(sub, '/')| ==> Split(sub, '/')[k] != ""
  }

  lemma EmptyFirstPart(s: string)
    ensures (s == "" || s[0] == '/') ==> Split(s, '/')[0] == ""
  {
    if s != "" && s[0] == '/' {
      assert s == "" + ['/'] + s[1..];
      SplitAround("", s[1..], '/');
    }
  }

  lemma EmptyLastPart(s: string)
    ensures (s == "" || s[|s| - 1] == '/') ==> Split(s, '/')[|Split(s, '/')| - 1] == ""
  {
    if s != "" && s[|s| - 1] == '/' {
      var a := s[..|s| - 1];
      assert s == a + ['/'] + "";
      SplitSnoc(a, "", '/');
    }
  }

  /** A normal path is non-empty and neither starts nor ends with '/'. */
  lemma NormalEnds(sub: string)
    requires Normal(sub)
    ensures sub != "" && sub[0] != '/' && sub[|sub| - 1] != '/'
  {
    EmptyFirstPart(sub);
    EmptyLastPart(sub);
  }

  lemma PathPartsAround(a: string, b: string)
    ensures PathParts(a + ['/'] + b) == PathParts(a) + PathParts(b)
  {
    SplitConcat(a, b, '/');
    NonEmptyPartsAppend(Split(a, '/'), Split(b, '/'));
  }

  lemma PathPartsEmpty()
    ensures PathParts("") == []
  {
    SplitNone("", '/');
  }

  lemma PathPartsTrailing(src: string)
    requires src != "" && src[|src| - 1] == '/'
    ensures PathParts(src) == PathParts(src[..|src| - 1])
  {
    var a := src[..|src| - 1];
    assert src == a + ['/'] + "";
    PathPartsAround(a, "");
    PathPartsEmpty();
  }

  lemma JoinCases(src: string, sub: string)
    requires sub != "" && sub[0] != '/'
    ensures src == "" ==> PathJoin(src, sub) == sub
    ensures src != "" && src[|src| - 1] == '/' ==> PathJoin(src, sub) == src[..|src| - 1] + ['/'] + sub
    ensures src != "" && src[|src| - 1] != '/' ==> PathJoin(src, sub) == src + ['/'] + sub
  {
    if src != "" && src[|src| - 1] == '/' {
      assert src == src[..|src| - 1] + ['/'];
    }
  }

  lemma PathPartsOfJoin(src: string, sub: string)
    requires Normal(sub)
    ensures PathParts(PathJoin(src, sub)) == PathParts(src) + Split(sub, '/')
  {
    NonEmptyPartsKeep(Split(sub, '/'));
    NormalEnds(sub);
    JoinCases(src, sub);
    if src == "" {
      PathPartsEmpty();
    } else if src[|src| - 1] == '/' {
      PathPartsTrailing(src);
      PathPartsAround(src[..|src| - 1], sub);
    } else {
      PathPartsAround(src, sub);
    }
  }

  /** The name a walk gives a file is its path below the walked directory. */
  lemma RelpathOfJoin(src: string, sub: string)
    requires Normal(sub)
    ensures Relpath(PathJoin(src, sub), src) == sub
  {
    PathPartsOfJoin(src, sub);
    var s := PathParts(src);
    var p := PathParts(PathJoin(src, sub));
    assert forall k :: 0 <= k < |s| ==> p[k] == s[k];
    var i := CommonLen(s, p);
    assert i == |s|;
    assert p[i..] == Split(sub, '/');
    var rel := seq(|s| - i, _ => "..") + p[i..];
    assert rel == Split(sub, '/');
    JoinSplit(sub, '/');
  }

  lemma NormalSnoc(sub: string, file: string)
    requires Normal(sub) && file != "" && '/' !in file
    ensures Normal(sub + "/" + file)
  {
    SplitSnoc(sub, file, '/');
    assert sub + "/" + file == sub + ['/'] + file;
  }

  /** A file found in a sub-directory of the walk is named sub/file. */
  lemma WalkedName(src: string, sub: string, file: string)
    requires Normal(sub) && file != "" && '/' !in file
    ensures Relpath(PathJoin(PathJoin(src, sub), file), src) == sub + "/" + file
  {
    NormalSnoc(sub, file);
    NormalEnds(sub);
    var j := PathJoin(src, sub);
    assert j[|j| - 1] == sub[|sub| - 1];
    assert PathJoin(j, file) == PathJoin(src, sub + "/" + file);
    RelpathOfJoin(src, sub + "/" + file);
  }

  /** _get_file_list_from_directory: the walk's (root, file) pairs, in walk order, named relative to src. */
  method ScanDirectory(src: string, walk: seq<(string, string)>, size: string -> nat) returns (files: seq<Entry>)
    ensures |files| == |walk|
    ensures forall k :: 0 <= k < |files| ==>
      files[k].source == PathJoin(walk[k].0, walk[k].1)
      && files[k].obj == Relpath(files[k].source, src) && files[k].size == size(files[k].source)
  {
    ghost var want := Walked(walk, src, size);
    files := [];
    var i := 0;
    while i < |walk|
      invariant 0 <= i <= |walk| && files == want[..i]
    {
      var full := PathJoin(walk[i].0, walk[i].1);
      assert want[i] == Entry(full, Relpath(full, src), size(full));
      files := files + [Entry(full, Relpath(full, src), size(full))];
      PrefixSnoc(want, i);
      i := i + 1;
    }
    assert want[..|walk|] == want;
    ScannedAll(files, walk, src, size);
  }

  /** One entry per pair os.walk yields, in order. */
  ghost function Walked(walk: seq<(string, string)>, src: string, size: string -> nat): (w: seq<Entry>)
    ensures |w| == |walk| && forall k :: 0 <= k < |walk| ==> w[k] == Scanned(walk[k], src, size)
  {
    seq(|walk|, k requires 0 <= k < |walk| => Scanned(walk[k], src, size))
  }

  /** The entry os.walk's (root, name) pair becomes. */
  function Scanned(w: (string, string), src: string, size: string -> nat): Entry
  {
    var full := PathJoin(w.0, w.1);
    Entry(full, Relpath(full, src), size(full))
  }

  lemma ScannedAll(files: seq<Entry>, walk: seq<(string, string)>, src: string, size: string -> nat)
    requires |files| == |walk| && forall k :: 0 <= k < |walk| ==> files[k] == Scanned(walk[k], src, size)
    ensures forall k :: 0 <= k < |files| ==>
      files[k].source == PathJoin(walk[k].0, walk[k].1)
      && files[k].obj == Relpath(files[k].source, src) && files[k].size == size(files[k].source)
  {
  }
}
