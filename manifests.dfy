/**
 * Manifest records and the byte ranges they carry. fsfs numbers content bytes
 * contiguously from 0; s3s3 advances by the ustar record layout of POSIX
 * IEEE Std 1003.1 ("ustar Interchange Format": a 512-byte header, then the
 * content padded to a multiple of 512); the archivers package and v1 write one
 * '|'-separated line per file with the positions the tar library reports, which
 * are inputs here. MD5 digests and download results are parameters.
 */
module Manifests {
  import opened Wrappers
  import opened Text
  import opened Inputs

  // ---------------------------------------------------------------- shared

  /** The lines of a manifest joined by '\n' come apart again on '\n'. */
  lemma ManifestLines(header: string, lines: seq<string>)
    requires '\n' !in header && NoneContains(lines, '\n')
    ensures Split(Join([header] + lines, '\n'), '\n') == [header] + lines
  {
    var all := [header] + lines;
    assert forall k :: 0 <= k < |all| ==> '\n' !in all[k] by {
      forall k | 0 <= k < |all| ensures '\n' !in all[k] {
        if k > 0 {
          assert all[k] == lines[k - 1];
        }
      }
    }
    SplitJoin(all, '\n');
  }

  predicate NoSeparators(s: string)
  {
    '|' !in s && '\n' !in s
  }

  /** Seven separator-free fields make a list with no separator in any field. */
  lemma SevenClean(a: string, b: string, c: string, d: string, e: string, f: string, g: string)
    requires NoSeparators(a) && NoSeparators(b) && NoSeparators(c) && NoSeparators(d)
    requires NoSeparators(e) && NoSeparators(f) && NoSeparators(g)
    ensures NoneContains([a, b, c, d, e, f, g], '|') && NoneContains([a, b, c, d, e, f, g], '\n')
  {
  }

  /** Nine separator-free fields make a list with no separator in any field. */
  lemma NineClean(a: string, b: string, c: string, d: string, e: string, f: string, g: string, h: string, i: string)
    requires NoSeparators(a) && NoSeparators(b) && NoSeparators(c) && NoSeparators(d)
    requires NoSeparators(e) && NoSeparators(f) && NoSeparators(g) && NoSeparators(h) && NoSeparators(i)
    ensures NoneContains([a, b, c, d, e, f, g, h, i], '|') && NoneContains([a, b, c, d, e, f, g, h, i], '\n')
  {
  }

  /** The header lines hold no newline and split back into their column names. */
  lemma HeadersClean()
    ensures '\n' !in FsfsHeader && Split(FsfsHeader, '|') == FsfsColumns
    ensures '\n' !in S3s3Header && Split(S3s3Header, '|') == S3s3Columns
  {
    ColumnsClean();
    JoinWithout(FsfsColumns, '|', '\n');
    SplitJoin(FsfsColumns, '|');
    JoinWithout(S3s3Columns, '|', '\n');
    SplitJoin(S3s3Columns, '|');
  }

  lemma ColumnsClean()
    ensures NoneContains(FsfsColumns, '\n') && NoneContains(FsfsColumns, '|') && |FsfsColumns| == 7
    ensures NoneContains(S3s3Columns, '\n') && NoneContains(S3s3Columns, '|') && |S3s3Columns| == 7
  {
    FsfsColumnsClean();
    S3s3ColumnsClean();
  }

  lemma FsfsColumnsClean()
    ensures NoneContains(FsfsColumns, '\n') && NoneContains(FsfsColumns, '|')
  {
    forall k | 0 <= k < 7 ensures '\n' !in FsfsColumns[k] && '|' !in FsfsColumns[k] {
      WordClean(FsfsColumns[k]);
    }
  }

  lemma S3s3ColumnsClean()
    ensures NoneContains(S3s3Columns, '\n') && NoneContains(S3s3Columns, '|')
  {
    forall k | 0 <= k < 7 ensures '\n' !in S3s3Columns[k] && '|' !in S3s3Columns[k] {
      WordClean(S3s3Columns[k]);
    }
  }

  /** Column names are lower-case words joined by underscores. */
  predicate Word(s: string)
  {
    forall k :: 0 <= k < |s| ==> 'a' <= s[k] <= 'z' || s[k] == '_' || '0' <= s[k] <= '9'
  }

  lemma WordClean(s: string)
    requires Word(s)
    ensures '\n' !in s && '|' !in s
  {
  }

  // ---------------------------------------------------------------- fsfs

  const FsfsColumns: seq<string> :=
    ["tarfile_name", "original_file_name", "current_date", "filesize", "start_bytes", "stop_bytes", "md5"]
  const FsfsHeader := Join(FsfsColumns, '|')

  /** One archived file: where its bytes sit, end inclusive. */
  datatype Range = Range(rel: string, size: nat, start: int, end: int, md5: string)

  /** The paths whose MD5 pass failed, one per failing file, in batch order. */
  function FirstPass(files: seq<FileInfo>, md5: string -> Option<string>): (failed: seq<string>)
    ensures forall k :: 0 <= k < |files| && md5(files[k].fullPath).None? ==> files[k].fullPath in failed
    ensures forall p :: p in failed ==> md5(p).None?
  {
    if |files| == 0 then []
    else
      var f := files[|files| - 1];
      var before := FirstPass(files[..|files| - 1], md5);
      assert forall k :: 0 <= k < |files| - 1 ==> files[k] == files[..|files| - 1][k];
      before + (if md5(f.fullPath).None? then [f.fullPath] else [])
  }

  predicate Covered(files: seq<FileInfo>, md5: string -> Option<string>, failed: seq<string>)
  {
    forall k :: 0 <= k < |files| && md5(files[k].fullPath).None? ==> files[k].fullPath in failed
  }

  /**
   * The second pass: files already failed are skipped; an add (getsize and
   * tar.add) that raises records the path as failed and leaves the offset alone;
   * otherwise the file takes [offset, offset + size - 1] and the offset moves past it.
   */
  function SecondPass(files: seq<FileInfo>, md5: string -> Option<string>, add: string -> Option<nat>,
                      failed: seq<string>, offset: int): (r: (seq<Range>, seq<string>))
    requires Covered(files, md5, failed)
    decreases |files|
  {
    if |files| == 0 then ([], failed)
    else
      var f := files[0];
      assert Covered(files[1..], md5, failed) by {
        assert forall k :: 1 <= k < |files| ==> files[1..][k - 1] == files[k];
      }
      if f.fullPath in failed then SecondPass(files[1..], md5, add, failed, offset)
      else
        match add(f.fullPath)
        case None =>
          assert Covered(files[1..], md5, failed + [f.fullPath]);
          SecondPass(files[1..], md5, add, failed + [f.fullPath], offset)
        case Some(size) =>
          var rest := SecondPass(files[1..], md5, add, failed, offset + size);
          ([Range(f.relPath, size, offset, offset + size - 1, md5(f.fullPath).value)] + rest.0, rest.1)
  }

  function FsfsLine(tarName: string, date: string, r: Range): string
  {
    Join([tarName, r.rel, date, IntToString(r.size), IntToString(r.start), IntToString(r.end), r.md5], '|')
  }

  function FsfsLines(tarName: string, date: string, rs: seq<Range>): (lines: seq<string>)
    ensures |lines| == |rs|
  {
    seq(|rs|, k requires 0 <= k < |rs| => FsfsLine(tarName, date, rs[k]))
  }

  /** The manifest file: the header and one line per archived file, joined by '\n'. */
  function FsfsManifest(tarName: string, date: string, rs: seq<Range>): string
  {
    Join([FsfsHeader] + FsfsLines(tarName, date, rs), '\n')
  }

  /** One turn of the second loop of _tar_creator_consumer in v2/apps/fsfs-archiver.py. */
  method FsfsAddOne(f: FileInfo, md5: string -> Option<string>, add: string -> Option<nat>,
                    hashes: map<string, string>, ranges: seq<Range>, failed: seq<string>, offset: int,
                    ghost rest: seq<FileInfo>)
    returns (ranges': seq<Range>, failed': seq<string>, offset': int)
    requires forall p :: p in hashes ==> md5(p) == Some(hashes[p])
    requires f.fullPath in hashes || f.fullPath in failed
    requires Covered([f] + rest, md5, failed)
    ensures Covered(rest, md5, failed')
    ensures var a := SecondPass([f] + rest, md5, add, failed, offset);
      var b := SecondPass(rest, md5, add, failed', offset');
      ranges + a.0 == ranges' + b.0 && a.1 == b.1
    ensures forall p :: p in failed ==> p in failed'
  {
    var all := [f] + rest;
    assert all[0] == f && all[1..] == rest;
    ranges', failed', offset' := ranges, failed, offset;
    if f.fullPath !in failed {
      var size := add(f.fullPath);
      if size.None? {
        failed' := failed + [f.fullPath];
      } else {
        var start := offset;
        var end := start + size.value - 1;
        offset' := end + 1;
        ranges' := ranges + [Range(f.relPath, size.value, start, end, hashes[f.fullPath])];
      }
    }
  }

  /** The first loop of _tar_creator_consumer in v2/apps/fsfs-archiver.py: the MD5 pass. */
  method FsfsHashPass(files: seq<FileInfo>, md5: string -> Option<string>)
    returns (hashes: map<string, string>, failed: seq<string>)
    ensures failed == FirstPass(files, md5)
    ensures forall p :: p in hashes ==> md5(p) == Some(hashes[p])
    ensures forall k :: 0 <= k < |files| ==> files[k].fullPath in hashes || files[k].fullPath in failed
  {
    hashes := map[];
    failed := [];
    var i := 0;
    while i < |files|
      invariant 0 <= i <= |files|
      invariant failed == FirstPass(files[..i], md5)
      invariant forall p :: p in hashes ==> md5(p) == Some(hashes[p])
      invariant forall k :: 0 <= k < i ==> files[k].fullPath in hashes || files[k].fullPath in failed
    {
      assert files[..i + 1][..i] == files[..i];
      ghost var (hashes0, failed0) := (hashes, failed);
      var h := md5(files[i].fullPath);
      if h.Some? {
        hashes := hashes[files[i].fullPath := h.value];
      } else {
        failed := failed + [files[i].fullPath];
      }
      SeenStep(files, i, hashes0, failed0, hashes, failed);
      i := i + 1;
    }
    assert files[..|files|] == files;
  }

  /** Growing the digests and the failures keeps every file seen so far, and adds file i. */
  lemma SeenStep(files: seq<FileInfo>, i: nat, hashes0: map<string, string>, failed0: seq<string>,
                 hashes: map<string, string>, failed: seq<string>)
    requires i < |files|
    requires forall k :: 0 <= k < i ==> files[k].fullPath in hashes0 || files[k].fullPath in failed0
    requires hashes0.Keys <= hashes.Keys && forall p :: p in failed0 ==> p in failed
    requires files[i].fullPath in hashes || files[i].fullPath in failed
    ensures forall k :: 0 <= k < i + 1 ==> files[k].fullPath in hashes || files[k].fullPath in failed
  {
  }

  /**
   * _tar_creator_consumer of v2/apps/fsfs-archiver.py for one batch: the MD5 pass,
   * the add pass with its offsets, and the manifest text written beside the tar.
   */
  method FsfsPack(tarName: string, date: string, files: seq<FileInfo>,
                  md5: string -> Option<string>, add: string -> Option<nat>)
    returns (manifest: string, ranges: seq<Range>, failed: seq<string>)
    ensures Covered(files, md5, FirstPass(files, md5))
    ensures ranges == SecondPass(files, md5, add, FirstPass(files, md5), 0).0
    ensures failed == SecondPass(files, md5, add, FirstPass(files, md5), 0).1
    ensures manifest == FsfsManifest(tarName, date, ranges)
  {
    var hashes;
    hashes, failed := FsfsHashPass(files, md5);
    ghost var first := failed;
    ranges := [];
    var offset := 0;
    var i := 0;
    while i < |files|
      invariant 0 <= i <= |files|
      invariant forall p :: p in first ==> p in failed
      invariant Covered(files[i..], md5, failed)
      invariant var r := SecondPass(files[i..], md5, add, failed, offset);
        var whole := SecondPass(files, md5, add, first, 0);
        ranges + r.0 == whole.0 && r.1 == whole.1
    {
      assert files[i..] == [files[i]] + files[i + 1..];
      ranges, failed, offset := FsfsAddOne(files[i], md5, add, hashes, ranges, failed, offset, files[i + 1..]);
      i := i + 1;
    }
    manifest := Join([FsfsHeader] + FsfsLines(tarName, date, ranges), '\n');
  }

  /** Ranges that tile the bytes from a start: each is exactly its size long and the next begins right after it. */
  predicate Contiguous(rs: seq<Range>, from: int)
  {
    (|rs| > 0 ==> rs[0].start == from)
    && (forall k :: 0 <= k < |rs| ==> rs[k].end == rs[k].start + rs[k].size - 1)
    && (forall k :: 1 <= k < |rs| ==> rs[k].start == rs[k - 1].end + 1)
  }

  lemma {:induction false} SecondPassContiguous(files: seq<FileInfo>, md5: string -> Option<string>,
                                                add: string -> Option<nat>, failed: seq<string>, offset: int)
    requires Covered(files, md5, failed)
    ensures Contiguous(SecondPass(files, md5, add, failed, offset).0, offset)
    decreases |files|
  {
    if |files| > 0 {
      var f := files[0];
      assert Covered(files[1..], md5, failed) by {
        assert forall k :: 1 <= k < |files| ==> files[1..][k - 1] == files[k];
      }
      if f.fullPath !in failed {
        match add(f.fullPath)
        case None =>
          SecondPassContiguous(files[1..], md5, add, failed + [f.fullPath], offset);
        case Some(size) =>
          SecondPassContiguous(files[1..], md5, add, failed, offset + size);
          var rest := SecondPass(files[1..], md5, add, failed, offset + size).0;
          var rs := SecondPass(files, md5, add, failed, offset).0;
          assert rs[1..] == rest;
          assert forall k :: 1 <= k < |rs| ==> rs[k] == rest[k - 1];
      } else {
        SecondPassContiguous(files[1..], md5, add, failed, offset);
      }
    }
  }

  /** Every file lands in exactly one place: a range or the failed list. */
  function Skips(files: seq<FileInfo>, failed: seq<string>): nat
  {
    if |files| == 0 then 0
    else (if files[0].fullPath in failed then 1 else 0) + Skips(files[1..], failed)
  }

  predicate DistinctPaths(files: seq<FileInfo>)
  {
    forall i, j :: 0 <= i < j < |files| ==> files[i].fullPath != files[j].fullPath
  }

  predicate NoPath(files: seq<FileInfo>, p: string)
  {
    forall k :: 0 <= k < |files| ==> files[k].fullPath != p
  }

  lemma {:induction false} SkipsIgnore(files: seq<FileInfo>, failed: seq<string>, p: string)
    requires NoPath(files, p)
    ensures Skips(files, failed + [p]) == Skips(files, failed)
    decreases |files|
  {
    if |files| > 0 {
      assert NoPath(files[1..], p) by {
        assert forall k :: 1 <= k < |files| ==> files[1..][k - 1] == files[k];
      }
      SkipsIgnore(files[1..], failed, p);
    }
  }

  lemma {:induction false} SecondPassCount(files: seq<FileInfo>, md5: string -> Option<string>,
                                           add: string -> Option<nat>, failed: seq<string>, offset: int)
    requires Covered(files, md5, failed) && DistinctPaths(files)
    ensures var r := SecondPass(files, md5, add, failed, offset);
      |r.0| + |r.1| == |failed| + |files| - Skips(files, failed)
    ensures Skips(files, failed) <= |files|
    decreases |files|
  {
    if |files| > 0 {
      var f := files[0];
      assert Covered(files[1..], md5, failed) && DistinctPaths(files[1..]) && NoPath(files[1..], f.fullPath) by {
        assert forall k :: 1 <= k < |files| ==> files[1..][k - 1] == files[k];
      }
      if f.fullPath !in failed {
        match add(f.fullPath)
        case None =>
          SecondPassCount(files[1..], md5, add, failed + [f.fullPath], offset);
          SkipsIgnore(files[1..], failed, f.fullPath);
          SecondPassCount(files[1..], md5, add, failed, offset);
        case Some(size) =>
          SecondPassCount(files[1..], md5, add, failed, offset + size);
      } else {
        SecondPassCount(files[1..], md5, add, failed, offset);
      }
    }
  }

  lemma {:induction false} SkipsMono(files: seq<FileInfo>, failed: seq<string>, p: string)
    ensures Skips(files, failed + [p]) >= Skips(files, failed)
    decreases |files|
  {
    if |files| > 0 {
      SkipsMono(files[1..], failed, p);
    }
  }

  /** Whatever the paths, the second pass never yields more entries than the files it was given. */
  lemma {:induction false} SecondPassBound(files: seq<FileInfo>, md5: string -> Option<string>,
                                           add: string -> Option<nat>, failed: seq<string>, offset: int)
    requires Covered(files, md5, failed)
    ensures var r := SecondPass(files, md5, add, failed, offset);
      |r.0| + |r.1| <= |failed| + |files| - Skips(files, failed)
    ensures Skips(files, failed) <= |files|
    decreases |files|
  {
    if |files| > 0 {
      var f := files[0];
      assert Covered(files[1..], md5, failed) by {
        assert forall k :: 1 <= k < |files| ==> files[1..][k - 1] == files[k];
      }
      if f.fullPath !in failed {
        match add(f.fullPath)
        case None =>
          assert Covered(files[1..], md5, failed + [f.fullPath]);
          SecondPassBound(files[1..], md5, add, failed + [f.fullPath], offset);
          SkipsMono(files[1..], failed, f.fullPath);
          SecondPassBound(files[1..], md5, add, failed, offset);
        case Some(size) =>
          SecondPassBound(files[1..], md5, add, failed, offset + size);
      } else {
        SecondPassBound(files[1..], md5, add, failed, offset);
      }
    }
  }

  /** The failed list of a batch is never longer than the batch, so len(batch) - len(failed) is a count. */
  lemma FsfsFailedBound(files: seq<FileInfo>, md5: string -> Option<string>, add: string -> Option<nat>)
    ensures var r := SecondPass(files, md5, add, FirstPass(files, md5), 0);
      |r.0| + |r.1| <= |files|
  {
    var first := FirstPass(files, md5);
    SecondPassBound(files, md5, add, first, 0);
    FirstPassSkips(files, md5, first);
    NoneFilesSnoc(files, md5);
  }

  /** Under distinct paths the files skipped in the second pass are exactly the MD5 failures. */
  lemma {:induction false} FirstPassSkips(files: seq<FileInfo>, md5: string -> Option<string>, failed: seq<string>)
    requires forall k :: 0 <= k < |files| ==> (files[k].fullPath in failed <==> md5(files[k].fullPath).None?)
    ensures Skips(files, failed) == |NoneFiles(files, md5)|
    decreases |files|
  {
    if |files| > 0 {
      assert forall k :: 1 <= k < |files| ==> files[1..][k - 1] == files[k];
      FirstPassSkips(files[1..], md5, failed);
    }
  }

  /** The files whose MD5 pass fails, counted from the front. */
  function NoneFiles(files: seq<FileInfo>, md5: string -> Option<string>): seq<FileInfo>
  {
    if |files| == 0 then []
    else (if md5(files[0].fullPath).None? then [files[0]] else []) + NoneFiles(files[1..], md5)
  }

  lemma {:induction false} NoneFilesSnoc(files: seq<FileInfo>, md5: string -> Option<string>)
    ensures |FirstPass(files, md5)| == |NoneFiles(files, md5)|
    decreases |files|
  {
    if |files| > 0 {
      var n := |files| - 1;
      NoneFilesSnoc(files[..n], md5);
      NoneFilesAppend(files[..n], [files[n]], md5);
      assert files[..n] + [files[n]] == files;
    }
  }

  lemma {:induction false} NoneFilesAppend(a: seq<FileInfo>, b: seq<FileInfo>, md5: string -> Option<string>)
    ensures NoneFiles(a + b, md5) == NoneFiles(a, md5) + NoneFiles(b, md5)
    decreases |a|
  {
    if |a| > 0 {
      assert (a + b)[1..] == a[1..] + b;
      NoneFilesAppend(a[1..], b, md5);
    } else {
      assert a + b == b;
    }
  }

  /**
   * With distinct paths every file of the batch ends up either as a manifest line
   * or in failed_files, so the stats add len(batch) - len(failed) archived files.
   */
  lemma FsfsAccounting(files: seq<FileInfo>, md5: string -> Option<string>, add: string -> Option<nat>)
    requires DistinctPaths(files)
    ensures var first := FirstPass(files, md5);
      var r := SecondPass(files, md5, add, first, 0);
      |r.0| + |r.1| == |files|
  {
    var first := FirstPass(files, md5);
    SecondPassCount(files, md5, add, first, 0);
    FirstPassSkips(files, md5, first);
    NoneFilesSnoc(files, md5);
  }

  /** The ranges of an fsfs manifest tile the archived bytes from 0, each exactly its file's size. */
  lemma FsfsContiguous(files: seq<FileInfo>, md5: string -> Option<string>, add: string -> Option<nat>)
    ensures Contiguous(SecondPass(files, md5, add, FirstPass(files, md5), 0).0, 0)
  {
    SecondPassContiguous(files, md5, add, FirstPass(files, md5), 0);
  }

  lemma {:induction false} SecondPassHashes(files: seq<FileInfo>, md5: string -> Option<string>,
                                            add: string -> Option<nat>, failed: seq<string>, offset: int)
    requires Covered(files, md5, failed)
    ensures forall r :: r in SecondPass(files, md5, add, failed, offset).0 ==>
      exists k :: 0 <= k < |files| && files[k].relPath == r.rel && add(files[k].fullPath) == Some(r.size)
        && md5(files[k].fullPath) == Some(r.md5) && files[k].fullPath !in failed
    decreases |files|
  {
    if |files| > 0 {
      var f := files[0];
      assert Covered(files[1..], md5, failed) by {
        assert forall k :: 1 <= k < |files| ==> files[1..][k - 1] == files[k];
      }
      assert forall k :: 1 <= k < |files| ==> files[1..][k - 1] == files[k];
      if f.fullPath !in failed {
        match add(f.fullPath)
        case None =>
          SecondPassHashes(files[1..], md5, add, failed + [f.fullPath], offset);
        case Some(size) =>
          SecondPassHashes(files[1..], md5, add, failed, offset + size);
      } else {
        SecondPassHashes(files[1..], md5, add, failed, offset);
      }
    }
  }

  /** Each manifest line splits back into its seven fields. */
  lemma FsfsLineFields(tarName: string, date: string, r: Range)
    requires NoSeparators(tarName) && NoSeparators(date) && NoSeparators(r.rel) && NoSeparators(r.md5)
    ensures Split(FsfsLine(tarName, date, r), '|')
      == [tarName, r.rel, date, IntToString(r.size), IntToString(r.start), IntToString(r.end), r.md5]
    ensures '\n' !in FsfsLine(tarName, date, r)
  {
    var fields := [tarName, r.rel, date, IntToString(r.size), IntToString(r.start), IntToString(r.end), r.md5];
    SevenClean(tarName, r.rel, date, IntToString(r.size), IntToString(r.start), IntToString(r.end), r.md5);
    SplitJoin(fields, '|');
    JoinWithout(fields, '|', '\n');
  }

  /** The fsfs manifest splits into its header and one seven-field line per range, in order. */
  lemma FsfsManifestLines(tarName: string, date: string, rs: seq<Range>)
    requires NoSeparators(tarName) && NoSeparators(date)
    requires forall k :: 0 <= k < |rs| ==> NoSeparators(rs[k].rel) && NoSeparators(rs[k].md5)
    ensures var lines := Split(FsfsManifest(tarName, date, rs), '\n');
      |lines| == |rs| + 1 && Split(lines[0], '|') == FsfsColumns
      && forall k :: 0 <= k < |rs| ==>
           Split(lines[k + 1], '|') == [tarName, rs[k].rel, date, IntToString(rs[k].size),
                                        IntToString(rs[k].start), IntToString(rs[k].end), rs[k].md5]
  {
    var ls := FsfsLines(tarName, date, rs);
    forall k | 0 <= k < |rs|
      ensures '\n' !in ls[k] && Split(ls[k], '|')
        == [tarName, rs[k].rel, date, IntToString(rs[k].size), IntToString(rs[k].start), IntToString(rs[k].end), rs[k].md5]
    {
      FsfsLineFields(tarName, date, rs[k]);
    }
    HeadersClean();
    ManifestLines(FsfsHeader, ls);
    var lines := Split(FsfsManifest(tarName, date, rs), '\n');
    assert forall k :: 0 <= k < |rs| ==> lines[k + 1] == ls[k];
  }

  // ---------------------------------------------------------------- s3s3

  const S3s3Columns: seq<string> :=
    ["tar_path", "file_path", "timestamp", "file_size", "start_position", "end_position", "md5_hash"]
  const S3s3Header := Join(S3s3Columns, '|')
  const BlockSize := 512

  /** (512 - len % 512) % 512: the zero bytes that round content up to whole blocks. */
  function Padding(len: nat): (p: nat)
    ensures p < BlockSize && (len + p) % BlockSize == 0
    ensures len % BlockSize == 0 <==> p == 0
  {
    (BlockSize - len % BlockSize) % BlockSize
  }

  /** No smaller amount of zero bytes reaches a block boundary. */
  lemma PaddingLeast(len: nat, q: nat)
    requires (len + q) % BlockSize == 0
    ensures Padding(len) <= q
  {
  }

  /** The bytes one member takes: its header and its padded content. */
  function Span(len: nat): (n: nat)
    ensures n % BlockSize == 0 && n >= BlockSize
    ensures len + BlockSize <= n < len + 2 * BlockSize
  {
    BlockSize + len + Padding(len)
  }

  /** What downloading one object gave: nothing, an exception, or its content length and digest. */
  datatype Fetch = NoContent | Raised | Content(length: nat, md5: string)

  /** An object of a batch as listed: its key and listed size. */
  datatype Object = Object(key: string, size: nat)

  /** One added object: its key, its listed size, and where its member sits, end exclusive. */
  datatype Member = Member(key: string, size: nat, start: nat, end: nat, md5: string)

  function S3s3Members(objs: seq<Object>, fetch: string -> Fetch, pos: nat): (r: (seq<Member>, nat))
    decreases |objs|
  {
    if |objs| == 0 then ([], 0)
    else
      var o := objs[0];
      match fetch(o.key)
      case Content(len, h) =>
        var rest := S3s3Members(objs[1..], fetch, pos + Span(len));
        ([Member(o.key, o.size, pos, pos + Span(len), h)] + rest.0, rest.1)
      case _ =>
        var rest := S3s3Members(objs[1..], fetch, pos);
        (rest.0, rest.1 + 1)
  }

  /** _create_manifest_entry: tar_key|key|current_time|size|start|end|md5. */
  function S3s3Entry(tarKey: string, ct: string, m: Member): string
  {
    Join([tarKey, m.key, ct, IntToString(m.size), IntToString(m.start), IntToString(m.end), m.md5], '|')
  }

  function S3s3Entries(tarKey: string, ct: string, ms: seq<Member>): (es: seq<string>)
    ensures |es| == |ms|
  {
    seq(|ms|, k requires 0 <= k < |ms| => S3s3Entry(tarKey, ct, ms[k]))
  }

  /** The manifest uploaded for a batch, or nothing when no object made it into the tar. */
  function S3s3Upload(entries: seq<string>): (r: Option<string>)
    ensures r.None? <==> entries == []
  {
    if entries == [] then None else Some(S3s3Header + "\n" + Join(entries, '\n'))
  }

  /** One turn of the loop over batch.files in _tar_creator_consumer of v2/apps/s3s3-archiver.py. */
  method S3s3AddOne(o: Object, fetch: string -> Fetch, tarKey: string, ct: string,
                    entries: seq<string>, members: seq<Member>, failed: nat, pos: nat, ghost rest: seq<Object>)
    returns (entries': seq<string>, members': seq<Member>, failed': nat, pos': nat)
    requires entries == S3s3Entries(tarKey, ct, members)
    ensures entries' == S3s3Entries(tarKey, ct, members')
    ensures var a := S3s3Members([o] + rest, fetch, pos);
      var b := S3s3Members(rest, fetch, pos');
      members + a.0 == members' + b.0 && failed + a.1 == failed' + b.1
  {
    var all := [o] + rest;
    assert all[0] == o && all[1..] == rest;
    entries', members', failed', pos' := entries, members, failed, pos;
    var content := fetch(o.key);
    if content.Content? {
      var start := pos;
      var padding := (512 - content.length % 512) % 512;
      var end := start + 512 + content.length + padding;
      pos' := end;
      var m := Member(o.key, o.size, start, end, content.md5);
      members' := members + [m];
      entries' := entries + [S3s3Entry(tarKey, ct, m)];
    } else {
      failed' := failed + 1;
    }
  }

  /** One batch: the members added, their manifest entries, the failed count, and the manifest to upload. */
  method S3s3Pack(tarKey: string, ct: string, objs: seq<Object>, fetch: string -> Fetch)
    returns (members: seq<Member>, entries: seq<string>, failed: nat, upload: Option<string>)
    ensures (members, failed) == S3s3Members(objs, fetch, 0)
    ensures entries == S3s3Entries(tarKey, ct, members)
    ensures upload == S3s3Upload(entries)
  {
    members, entries, failed := [], [], 0;
    var pos := 0;
    var i := 0;
    while i < |objs|
      invariant 0 <= i <= |objs|
      invariant entries == S3s3Entries(tarKey, ct, members)
      invariant var r := S3s3Members(objs[i..], fetch, pos);
        var whole := S3s3Members(objs, fetch, 0);
        members + r.0 == whole.0 && failed + r.1 == whole.1
    {
      assert objs[i..] == [objs[i]] + objs[i + 1..];
      entries, members, failed, pos := S3s3AddOne(objs[i], fetch, tarKey, ct, entries, members, failed, pos, objs[i + 1..]);
      i := i + 1;
    }
    assert objs[i..] == [];
    assert members + [] == members;
    upload := if entries == [] then None else Some(S3s3Header + "\n" + Join(entries, '\n'));
  }

  /** Members in a row: each starts where the previous ended and spans whole blocks. */
  predicate Blocked(ms: seq<Member>, from: nat)
  {
    (|ms| > 0 ==> ms[0].start == from)
    && (forall k :: 0 <= k < |ms| ==> ms[k].start < ms[k].end && (ms[k].end - ms[k].start) % BlockSize == 0)
    && (forall k :: 1 <= k < |ms| ==> ms[k].start == ms[k - 1].end)
  }

  /** A whole-block member starting at from, followed by members in a row from its end, is a row from from. */
  lemma BlockedCons(m: Member, rest: seq<Member>, from: nat)
    requires m.start == from && m.start < m.end && (m.end - m.start) % BlockSize == 0
    requires Blocked(rest, m.end)
    ensures Blocked([m] + rest, from)
  {
    var ms := [m] + rest;
    assert forall k :: 1 <= k < |ms| ==> ms[k] == rest[k - 1];
  }

  lemma {:induction false} S3s3Blocked(objs: seq<Object>, fetch: string -> Fetch, pos: nat)
    ensures Blocked(S3s3Members(objs, fetch, pos).0, pos)
    ensures S3s3Members(objs, fetch, pos).1 <= |objs|
    ensures |S3s3Members(objs, fetch, pos).0| + S3s3Members(objs, fetch, pos).1 == |objs|
    decreases |objs|
  {
    if |objs| > 0 {
      match fetch(objs[0].key)
      case Content(len, h) =>
        S3s3Blocked(objs[1..], fetch, pos + Span(len));
        var rest := S3s3Members(objs[1..], fetch, pos + Span(len)).0;
        var m := Member(objs[0].key, objs[0].size, pos, pos + Span(len), h);
        assert m.end - m.start == Span(len);
        BlockedCons(m, rest, pos);
      case _ =>
        S3s3Blocked(objs[1..], fetch, pos);
    }
  }

  /** With every start a block boundary, the positions of an s3s3 manifest stay 512-aligned. */
  lemma S3s3Aligned(objs: seq<Object>, fetch: string -> Fetch)
    ensures forall m :: m in S3s3Members(objs, fetch, 0).0 ==> m.start % BlockSize == 0 && m.end % BlockSize == 0
  {
    var ms := S3s3Members(objs, fetch, 0).0;
    S3s3Blocked(objs, fetch, 0);
    AlignedFrom(ms, 0);
  }

  lemma {:induction false} AlignedFrom(ms: seq<Member>, from: nat)
    requires Blocked(ms, from) && from % BlockSize == 0
    ensures forall m :: m in ms ==> m.start % BlockSize == 0 && m.end % BlockSize == 0
    decreases |ms|
  {
    if |ms| > 0 {
      assert Blocked(ms[1..], ms[0].end) by {
        assert forall k :: 1 <= k < |ms| - 1 + 1 ==> ms[1..][k - 1] == ms[k];
      }
      AlignedFrom(ms[1..], ms[0].end);
      assert ms == [ms[0]] + ms[1..];
    }
  }

  /** The uploaded manifest splits into the header and the entries, in order. */
  lemma S3s3ManifestLines(entries: seq<string>)
    requires entries != [] && NoneContains(entries, '\n')
    ensures Split(S3s3Upload(entries).value, '\n') == [S3s3Header] + entries
  {
    assert Join([S3s3Header] + entries, '\n') == S3s3Header + "\n" + Join(entries, '\n') by {
      assert ([S3s3Header] + entries)[1..] == entries;
    }
    HeadersClean();
    ManifestLines(S3s3Header, entries);
  }

  // ---------------------------------------------------------------- archivers and v1

  /**
   * One record of the archivers package and of v1: location|file|Y|m|d|size|start|end|md5
   * and a newline, where the date comes from strftime('%Y|%m|%d') and start and end
   * from the tar buffer.
   */
  function ArchiverLine(location: string, file: string, year: string, month: string, day: string,
                        size: nat, start: int, end: int, md5: string): string
  {
    Join([location, file, year, month, day, IntToString(size), IntToString(start), IntToString(end), md5], '|') + "\n"
  }

  /** The fields come back out of a record, and it holds exactly one newline, at its end. */
  lemma ArchiverLineFields(location: string, file: string, year: string, month: string, day: string,
                           size: nat, start: int, end: int, md5: string)
    requires NoSeparators(location) && NoSeparators(file) && NoSeparators(md5)
    requires NoSeparators(year) && NoSeparators(month) && NoSeparators(day)
    ensures var line := ArchiverLine(location, file, year, month, day, size, start, end, md5);
      Split(line[..|line| - 1], '|')
        == [location, file, year, month, day, IntToString(size), IntToString(start), IntToString(end), md5]
      && line[|line| - 1] == '\n' && '\n' !in line[..|line| - 1]
  {
    var fields := [location, file, year, month, day, IntToString(size), IntToString(start), IntToString(end), md5];
    NineClean(location, file, year, month, day, IntToString(size), IntToString(start), IntToString(end), md5);
    SplitJoin(fields, '|');
    JoinWithout(fields, '|', '\n');
    var line := ArchiverLine(location, file, year, month, day, size, start, end, md5);
    assert line[..|line| - 1] == Join(fields, '|');
  }

  /** The record written per file by v1/s3archiver.py: tar_prefix + tar_name as location. */
  function V1Line(tarPrefix: string, tarName: string, file: string, year: string, month: string, day: string,
                  size: nat, start: int, end: int, md5: string): string
  {
    ArchiverLine(tarPrefix + tarName, file, year, month, day, size, start, end, md5)
  }

  /** A v1 record reads back with the prefixed archive name as its first field. */
  lemma V1LineFields(tarPrefix: string, tarName: string, file: string, year: string, month: string, day: string,
                     size: nat, start: int, end: int, md5: string)
    requires NoSeparators(tarPrefix) && NoSeparators(tarName) && NoSeparators(file) && NoSeparators(md5)
    requires NoSeparators(year) && NoSeparators(month) && NoSeparators(day)
    ensures var line := V1Line(tarPrefix, tarName, file, year, month, day, size, start, end, md5);
      Split(line[..|line| - 1], '|')
        == [tarPrefix + tarName, file, year, month, day, IntToString(size), IntToString(start), IntToString(end), md5]
      && line[|line| - 1] == '\n' && '\n' !in line[..|line| - 1]
  {
    assert NoSeparators(tarPrefix + tarName) by {
      assert forall c :: c in tarPrefix + tarName ==> c in tarPrefix || c in tarName;
    }
    ArchiverLineFields(tarPrefix + tarName, file, year, month, day, size, start, end, md5);
  }

  /** A text of newline-terminated records, in order. */
  function Records(lines: seq<string>): string
  {
    if |lines| == 0 then "" else Records(lines[..|lines| - 1]) + lines[|lines| - 1] + "\n"
  }

  /** The records are the join of the lines and one empty piece after the last newline. */
  lemma {:induction false} RecordsJoin(lines: seq<string>)
    ensures Records(lines) == Join(lines + [""], '\n')
    decreases |lines|
  {
    if |lines| > 0 {
      var n := |lines| - 1;
      RecordsJoin(lines[..n]);
      assert lines[..n] + [lines[n]] == lines;
      if n > 0 {
        JoinSnoc(lines[..n], "", '\n');
        JoinSnoc(lines[..n], lines[n], '\n');
        JoinSnoc(lines, "", '\n');
      } else {
        assert lines == [lines[0]];
        assert Join(lines + [""], '\n') == lines[0] + ['\n'] + Join([""], '\n') by {
          assert (lines + [""])[1..] == [""];
        }
      }
    }
  }

  /** Splitting on '\n' gives the records back, then the empty text after the last newline. */
  lemma RecordsSplit(lines: seq<string>)
    requires NoneContains(lines, '\n')
    ensures Split(Records(lines), '\n') == lines + [""]
  {
    RecordsJoin(lines);
    var all := lines + [""];
    assert NoneContains(all, '\n') by {
      forall k | 0 <= k < |all| ensures '\n' !in all[k] {
        if k < |lines| {
          assert all[k] == lines[k];
        }
      }
    }
    SplitJoin(all, '\n');
  }

  // ---------------------------------------------------------------- snowball scripts

  /** Whether tar.add of one file succeeded, with the buffer offsets around it. */
  datatype Added = Added(start: int, end: int) | AddFailed(start: int)

  /** The partial record copy_to_s3 builds before tar.add: everything up to the start offset and a '|'. */
  function ScriptHead(location: string, file: string, size: nat, year: string, month: string, day: string,
                      start: int): string
  {
    Join(ScriptHeadFields(location, file, size, year, month, day, start), '|') + "|"
  }

  function ScriptHeadFields(location: string, file: string, size: nat, year: string, month: string, day: string,
                            start: int): seq<string>
  {
    [location, file, year, month, day, IntToString(size), IntToString(start)]
  }

  /** A whole record: the head's fields and the end offset. */
  function ScriptRecord(location: string, file: string, size: nat, year: string, month: string, day: string,
                        start: int, end: int): string
  {
    Join(ScriptHeadFields(location, file, size, year, month, day, start) + [IntToString(end)], '|')
  }

  /** The records of copy_to_s3 and archive_to_fs in s3archiver.py, as written. */
  function ScriptText(location: string, pairs: seq<(string, nat)>, year: string, month: string, day: string,
                      outcome: seq<Added>): string
    requires |outcome| == |pairs|
  {
    if |pairs| == 0 then ""
    else
      var n := |pairs| - 1;
      var head := ScriptHead(location, pairs[n].0, pairs[n].1, year, month, day, outcome[n].start);
      ScriptText(location, pairs[..n], year, month, day, outcome[..n])
        + match outcome[n]
          case Added(_, end) => head + IntToString(end) + "\n"
          case AddFailed(_) => head
  }

  /** The number of files tar.add took. */
  function AddedCount(outcome: seq<Added>): (n: nat)
    ensures n <= |outcome|
  {
    if |outcome| == 0 then 0 else AddedCount(outcome[..|outcome| - 1]) + if outcome[|outcome| - 1].Added? then 1 else 0
  }

  /** The corrected records: one full line per file added, and nothing for a file that failed. */
  function ScriptTextFixed(location: string, pairs: seq<(string, nat)>, year: string, month: string, day: string,
                           outcome: seq<Added>): string
    requires |outcome| == |pairs|
  {
    if |pairs| == 0 then ""
    else
      var n := |pairs| - 1;
      ScriptTextFixed(location, pairs[..n], year, month, day, outcome[..n])
        + match outcome[n]
          case Added(start, end) => ScriptRecord(location, pairs[n].0, pairs[n].1, year, month, day, start, end) + "\n"
          case AddFailed(_) => ""
  }

  /** The lines of the corrected text, one per added file. */
  function ScriptLines(location: string, pairs: seq<(string, nat)>, year: string, month: string, day: string,
                       outcome: seq<Added>): (lines: seq<string>)
    requires |outcome| == |pairs|
    ensures |lines| == AddedCount(outcome)
  {
    if |pairs| == 0 then []
    else
      var n := |pairs| - 1;
      ScriptLines(location, pairs[..n], year, month, day, outcome[..n])
        + match outcome[n]
          case Added(start, end) => [ScriptRecord(location, pairs[n].0, pairs[n].1, year, month, day, start, end)]
          case AddFailed(_) => []
  }

  lemma {:induction false} ScriptTextFixedIsRecords(location: string, pairs: seq<(string, nat)>,
                                                    year: string, month: string, day: string, outcome: seq<Added>)
    requires |outcome| == |pairs|
    ensures ScriptTextFixed(location, pairs, year, month, day, outcome)
      == Records(ScriptLines(location, pairs, year, month, day, outcome))
    decreases |pairs|
  {
    if |pairs| > 0 {
      var n := |pairs| - 1;
      ScriptTextFixedIsRecords(location, pairs[..n], year, month, day, outcome[..n]);
      var before := ScriptLines(location, pairs[..n], year, month, day, outcome[..n]);
      match outcome[n]
      case Added(start, end) =>
        var line := ScriptRecord(location, pairs[n].0, pairs[n].1, year, month, day, start, end);
        assert (before + [line])[..|before|] == before;
      case AddFailed(_) =>
        assert before + [] == before;
    }
  }

  /**
   * The corrected manifest of a batch splits into one record per added file, and
   * each record into its eight fields: the count the scripts return is the number
   * of manifest lines.
   */
  lemma ScriptTextFixedLines(location: string, pairs: seq<(string, nat)>, year: string, month: string, day: string,
                             outcome: seq<Added>)
    requires |outcome| == |pairs|
    requires NoSeparators(location) && NoSeparators(year) && NoSeparators(month) && NoSeparators(day)
    requires forall k :: 0 <= k < |pairs| ==> NoSeparators(pairs[k].0)
    ensures var lines := ScriptLines(location, pairs, year, month, day, outcome);
      Split(ScriptTextFixed(location, pairs, year, month, day, outcome), '\n') == lines + [""]
      && |lines| == AddedCount(outcome)
  {
    ScriptTextFixedIsRecords(location, pairs, year, month, day, outcome);
    ScriptLinesClean(location, pairs, year, month, day, outcome);
    RecordsSplit(ScriptLines(location, pairs, year, month, day, outcome));
  }

  lemma {:induction false} ScriptLinesClean(location: string, pairs: seq<(string, nat)>,
                                            year: string, month: string, day: string, outcome: seq<Added>)
    requires |outcome| == |pairs|
    requires NoSeparators(location) && NoSeparators(year) && NoSeparators(month) && NoSeparators(day)
    requires forall k :: 0 <= k < |pairs| ==> NoSeparators(pairs[k].0)
    ensures NoneContains(ScriptLines(location, pairs, year, month, day, outcome), '\n')
    decreases |pairs|
  {
    if |pairs| > 0 {
      var n := |pairs| - 1;
      assert forall k :: 0 <= k < n ==> pairs[..n][k] == pairs[k];
      ScriptLinesClean(location, pairs[..n], year, month, day, outcome[..n]);
      match outcome[n]
      case Added(start, end) =>
        var fields := ScriptHeadFields(location, pairs[n].0, pairs[n].1, year, month, day, start) + [IntToString(end)];
        assert NoneContains(fields, '\n');
        JoinWithout(fields, '|', '\n');
      case AddFailed(_) =>
    }
  }

  /**
   * As written, a failed add still writes its record up to the start offset, with
   * no end and no newline, so it runs into the next file's record: for two files
   * whose first add fails, the manifest holds a single line, and that line splits
   * into the seven fields of the first record followed by the eight of the second.
   */
  lemma ScriptTextGluesRecords(location: string, a: string, b: string, sa: nat, sb: nat,
                               year: string, month: string, day: string, pa: int, pb: int, eb: int)
    requires NoSeparators(location) && NoSeparators(a) && NoSeparators(b)
    requires NoSeparators(year) && NoSeparators(month) && NoSeparators(day)
    ensures var text := ScriptText(location, [(a, sa), (b, sb)], year, month, day, [AddFailed(pa), Added(pb, eb)]);
      var ha := ScriptHeadFields(location, a, sa, year, month, day, pa);
      var hb := ScriptHeadFields(location, b, sb, year, month, day, pb);
      |Split(text, '\n')| == 2 && Split(text, '\n')[1] == ""
      && Split(Split(text, '\n')[0], '|') == ha + hb + [IntToString(eb)]
  {
    var ha := ScriptHeadFields(location, a, sa, year, month, day, pa);
    var hb := ScriptHeadFields(location, b, sb, year, month, day, pb);
    var e := IntToString(eb);
    HeadFieldsClean(location, a, sa, year, month, day, pa);
    HeadFieldsClean(location, b, sb, year, month, day, pb);
    var x, y := Join(ha, '|'), Join(hb, '|');
    ScriptTextTwo(location, a, b, sa, sb, year, month, day, pa, pb, eb);
    GluedSplit(x, y, e);
  }

  lemma HeadFieldsClean(location: string, file: string, size: nat, year: string, month: string, day: string, start: int)
    requires NoSeparators(location) && NoSeparators(file)
    requires NoSeparators(year) && NoSeparators(month) && NoSeparators(day)
    ensures var fs := ScriptHeadFields(location, file, size, year, month, day, start);
      '\n' !in Join(fs, '|') && Split(Join(fs, '|'), '|') == fs
  {
    var fs := ScriptHeadFields(location, file, size, year, month, day, start);
    assert NoneContains(fs, '|') && NoneContains(fs, '\n');
    JoinWithout(fs, '|', '\n');
    SplitJoin(fs, '|');
  }

  lemma ScriptTextTwo(location: string, a: string, b: string, sa: nat, sb: nat,
                      year: string, month: string, day: string, pa: int, pb: int, eb: int)
    ensures ScriptText(location, [(a, sa), (b, sb)], year, month, day, [AddFailed(pa), Added(pb, eb)])
      == Join(ScriptHeadFields(location, a, sa, year, month, day, pa), '|') + "|"
         + Join(ScriptHeadFields(location, b, sb, year, month, day, pb), '|') + "|" + IntToString(eb) + "\n"
  {
    var pairs: seq<(string, nat)> := [(a, sa), (b, sb)];
    var outcome: seq<Added> := [AddFailed(pa), Added(pb, eb)];
    assert pairs[..1] == [(a, sa)] && outcome[..1] == [AddFailed(pa)];
    ScriptTextOne(location, a, sa, year, month, day, pa);
    var ha := ScriptHead(location, a, sa, year, month, day, pa);
    var hb := ScriptHead(location, b, sb, year, month, day, pb);
    var t1 := ScriptText(location, pairs[..1], year, month, day, outcome[..1]);
    assert t1 == ha;
    assert ScriptText(location, pairs, year, month, day, outcome) == t1 + (hb + IntToString(eb) + "\n");
    HeadsRegroup(Join(ScriptHeadFields(location, a, sa, year, month, day, pa), '|'),
                 Join(ScriptHeadFields(location, b, sb, year, month, day, pb), '|'), IntToString(eb));
  }

  lemma HeadsRegroup(x: string, y: string, e: string)
    ensures (x + "|") + ((y + "|") + e + "\n") == x + "|" + y + "|" + e + "\n"
  {
  }

  /** A single failed add leaves just its head. */
  lemma ScriptTextOne(location: string, a: string, sa: nat, year: string, month: string, day: string, pa: int)
    ensures ScriptText(location, [(a, sa)], year, month, day, [AddFailed(pa)])
      == ScriptHead(location, a, sa, year, month, day, pa)
  {
    var p1: seq<(string, nat)> := [(a, sa)];
    var o1: seq<Added> := [AddFailed(pa)];
    assert p1[..0] == [] && o1[..0] == [];
    assert ScriptText(location, p1[..0], year, month, day, o1[..0]) == "";
  }

  /** Two '|'-terminated heads and a tail with one final newline: a single line of all their fields. */
  lemma GluedSplit(x: string, y: string, e: string)
    requires '\n' !in x && '\n' !in y && '\n' !in e && '|' !in e
    ensures var text := x + "|" + y + "|" + e + "\n";
      Split(text, '\n') == [x + "|" + y + "|" + e, ""]
      && Split(x + "|" + y + "|" + e, '|') == Split(x, '|') + Split(y, '|') + [e]
  {
    GluedLine(x, y, e);
    GluedFields(x, y, e);
  }

  lemma GluedLine(x: string, y: string, e: string)
    requires '\n' !in x && '\n' !in y && '\n' !in e
    ensures Split(x + "|" + y + "|" + e + "\n", '\n') == [x + "|" + y + "|" + e, ""]
  {
    var bar: string := "|";
    assert '\n' !in bar by { assert bar == ['|']; }
    var line := x + bar + y + bar + e;
    assert '\n' !in x + bar;
    assert '\n' !in x + bar + y;
    assert '\n' !in x + bar + y + bar;
    assert '\n' !in line;
    assert x + "|" + y + "|" + e + "\n" == line + ['\n'] + "";
    SplitAround(line, "", '\n');
  }

  lemma GluedFields(x: string, y: string, e: string)
    requires '|' !in e
    ensures Split(x + "|" + y + "|" + e, '|') == Split(x, '|') + Split(y, '|') + [e]
  {
    assert x + "|" + y + "|" + e == x + ['|'] + (y + ['|'] + e);
    SplitConcat(x, y + ['|'] + e, '|');
    SplitConcat(y, e, '|');
  }

  /** When every add succeeds the text as written and the corrected text agree. */
  lemma {:induction false} ScriptTextAllAdded(location: string, pairs: seq<(string, nat)>,
                                              year: string, month: string, day: string, outcome: seq<Added>)
    requires |outcome| == |pairs|
    requires forall k :: 0 <= k < |outcome| ==> outcome[k].Added?
    ensures ScriptText(location, pairs, year, month, day, outcome)
      == ScriptTextFixed(location, pairs, year, month, day, outcome)
    decreases |pairs|
  {
    if |pairs| > 0 {
      var n := |pairs| - 1;
      assert forall k :: 0 <= k < n ==> outcome[..n][k] == outcome[k];
      ScriptTextAllAdded(location, pairs[..n], year, month, day, outcome[..n]);
      JoinSnoc(ScriptHeadFields(location, pairs[n].0, pairs[n].1, year, month, day, outcome[n].start),
               IntToString(outcome[n].end), '|');
    }
  }

  /** create_manifest in small-file-archiver.py: one tar|file|year|month|day line per pair, added or not. */
  function CreateManifest(tarName: string, files: seq<string>, year: string, month: string, day: string): string
  {
    Records(seq(|files|, k requires 0 <= k < |files| => Join([tarName, files[k], year, month, day], '|')))
  }

  /** The snowball manifest has one line per pair handed to the worker, whatever tar.add then does. */
  lemma CreateManifestLines(tarName: string, files: seq<string>, year: string, month: string, day: string)
    requires NoSeparators(tarName) && NoSeparators(year) && NoSeparators(month) && NoSeparators(day)
    requires forall k :: 0 <= k < |files| ==> NoSeparators(files[k])
    ensures var lines := Split(CreateManifest(tarName, files, year, month, day), '\n');
      |lines| == |files| + 1
      && forall k :: 0 <= k < |files| ==> Split(lines[k], '|') == [tarName, files[k], year, month, day]
  {
    var recs := seq(|files|, k requires 0 <= k < |files| => Join([tarName, files[k], year, month, day], '|'));
    forall k | 0 <= k < |files|
      ensures '\n' !in recs[k] && Split(recs[k], '|') == [tarName, files[k], year, month, day]
    {
      var fields := [tarName, files[k], year, month, day];
      assert NoneContains(fields, '|');
      JoinWithout(fields, '|', '\n');
      SplitJoin(fields, '|');
    }
    RecordsSplit(recs);
  }

  /** copy_to_snowball in small-file-archiver-0.2.4.py: a line only for a file tar.add took. */
  function SnowballText(tarName: string, files: seq<string>, year: string, month: string, day: string,
                        added: seq<bool>): string
    requires |added| == |files|
  {
    Records(SnowballLines(tarName, files, year, month, day, added))
  }

  function SnowballLines(tarName: string, files: seq<string>, year: string, month: string, day: string,
                         added: seq<bool>): seq<string>
    requires |added| == |files|
  {
    if |files| == 0 then []
    else
      var n := |files| - 1;
      SnowballLines(tarName, files[..n], year, month, day, added[..n])
        + if added[n] then [Join([tarName, files[n], year, month, day], '|')] else []
  }

  function Count(added: seq<bool>): nat
  {
    if |added| == 0 then 0 else Count(added[..|added| - 1]) + if added[|added| - 1] then 1 else 0
  }

  /** The count copy_to_snowball returns is the number of its manifest lines. */
  lemma {:induction false} SnowballCount(tarName: string, files: seq<string>, year: string, month: string, day: string,
                                         added: seq<bool>)
    requires |added| == |files|
    ensures |SnowballLines(tarName, files, year, month, day, added)| == Count(added) <= |files|
    decreases |files|
  {
    if |files| > 0 {
      SnowballCount(tarName, files[..|files| - 1], year, month, day, added[..|files| - 1]);
    }
  }

  /** The count is the whole batch exactly when every tar.add succeeded. */
  lemma {:induction false} CountAll(added: seq<bool>)
    ensures Count(added) == |added| <==> forall k :: 0 <= k < |added| ==> added[k]
    decreases |added|
  {
    if |added| > 0 {
      var n := |added| - 1;
      CountAll(added[..n]);
      CountBound(added[..n]);
      assert forall k :: 0 <= k < n ==> added[..n][k] == added[k];
    }
  }

  lemma {:induction false} CountBound(added: seq<bool>)
    ensures Count(added) <= |added|
    decreases |added|
  {
    if |added| > 0 {
      CountBound(added[..|added| - 1]);
    }
  }

  /**
   * archive_to_fs in small-file-archiver.py: the manifest lists every pair
   * before the tar is built; then each pair whose tar.add succeeds (added[k])
   * counts one collected file, and that count is returned.
   */
  method ArchiveToFs(tarName: string, files: seq<string>, year: string, month: string, day: string,
                     added: seq<bool>)
    returns (manifest: string, collected: nat)
    requires |added| == |files|
    ensures manifest == CreateManifest(tarName, files, year, month, day)
    ensures collected == Count(added) <= |files|
    ensures collected == |files| <==> forall k :: 0 <= k < |files| ==> added[k]
  {
    manifest := CreateManifest(tarName, files, year, month, day);
    collected := 0;
    var i := 0;
    while i < |files|
      invariant 0 <= i <= |files| && collected == Count(added[..i])
    {
      if added[i] {
        collected := collected + 1;
      }
      assert added[..i + 1][..i] == added[..i];
      i := i + 1;
    }
    assert added[..i] == added;
    CountBound(added);
    CountAll(added);
  }
}
