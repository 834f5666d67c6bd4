/**
 * Names and paths of the archives and manifests: the zero-padded sequence names
 * every archiver builds, the v2 date-shard keys, prefix normalisation, the posix
 * os.path.join / os.path.dirname the file-system archivers use, the v1 directory
 * derivation and argument check, the snowball scripts' date directories, and the
 * tar-sequence counter the archivers keep behind a lock.
 */
module Naming {
  import opened Wrappers
  import opened Text

  // ---------------------------------------------------------------- sequence names

  /** f"{current_time}_{seq:0<width>d}", the id an archive shares with its manifest. */
  function BatchId(ct: string, n: nat, width: nat): string
  {
    ct + "_" + ZeroPad(n, width)
  }

  /** ".tar.gz" when compressing, ".tar" otherwise. */
  function TarExt(compress: bool): (ext: string)
    ensures EndsWith(ext, ".tar") <==> !compress
    ensures compress ==> ext == ".tar" + ".gz"
  {
    if compress then ".tar.gz" else ".tar"
  }

  function ArchiveName(ct: string, n: nat, width: nat, ext: string): string
  {
    "archive_" + BatchId(ct, n, width) + ext
  }

  function ManifestName(ct: string, n: nat, width: nat): string
  {
    "manifest_" + BatchId(ct, n, width) + ".csv"
  }

  /**
   * Reads back the number between a known prefix and suffix, when what lies between
   * them is a run of decimal digits.
   */
  function ReadNumber(name: string, prefix: string, suffix: string): (r: Option<nat>)
    ensures r.Some? ==> StartsWith(name, prefix) && EndsWith(name, suffix)
  {
    if |prefix| + |suffix| <= |name| && name[..|prefix|] == prefix
      && name[|name| - |suffix|..] == suffix
      && AllDigits(name[|prefix|..|name| - |suffix|])
    then Some(DigitsValue(name[|prefix|..|name| - |suffix|]))
    else None
  }

  lemma ReadNumberOf(prefix: string, digits: string, suffix: string)
    requires AllDigits(digits)
    ensures ReadNumber(prefix + digits + suffix, prefix, suffix) == Some(DigitsValue(digits))
  {
    var name := prefix + digits + suffix;
    assert name[..|prefix|] == prefix;
    assert name[|name| - |suffix|..] == suffix;
    assert name[|prefix|..|name| - |suffix|] == digits;
  }

  /** The sequence number comes back out of an archive name. */
  lemma ArchiveNameRoundTrip(ct: string, n: nat, width: nat, ext: string)
    ensures ReadNumber(ArchiveName(ct, n, width, ext), "archive_" + ct + "_", ext) == Some(n)
  {
    assert ArchiveName(ct, n, width, ext) == ("archive_" + ct + "_") + ZeroPad(n, width) + ext;
    ReadNumberOf("archive_" + ct + "_", ZeroPad(n, width), ext);
    ZeroPadValue(n, width);
  }

  /** The same number comes back out of the manifest name built beside it. */
  lemma ManifestNameRoundTrip(ct: string, n: nat, width: nat)
    ensures ReadNumber(ManifestName(ct, n, width), "manifest_" + ct + "_", ".csv") == Some(n)
  {
    assert ManifestName(ct, n, width) == ("manifest_" + ct + "_") + ZeroPad(n, width) + ".csv";
    ReadNumberOf("manifest_" + ct + "_", ZeroPad(n, width), ".csv");
    ZeroPadValue(n, width);
  }

  /** Different sequence numbers give different archive names, and different manifest names. */
  lemma SequenceNamesInjective(ct: string, a: nat, b: nat, width: nat, ext: string)
    ensures ArchiveName(ct, a, width, ext) == ArchiveName(ct, b, width, ext) ==> a == b
    ensures ManifestName(ct, a, width) == ManifestName(ct, b, width) ==> a == b
  {
    ArchiveNameRoundTrip(ct, a, width, ext);
    ArchiveNameRoundTrip(ct, b, width, ext);
    ManifestNameRoundTrip(ct, a, width);
    ManifestNameRoundTrip(ct, b, width);
  }

  /** Below 10^width the number takes exactly width digits. */
  lemma PaddedWidth(n: nat, width: nat)
    requires |Dec(n)| <= width
    ensures |ArchiveName("", n, width, "")| == |"archive__"| + width
  {
  }

  // ---------------------------------------------------------------- v2 keys

  /** current_time.split('_')[0]: the date part of a '%Y%m%d_%H%M%S' stamp. */
  function MidPrefix(ct: string): (mid: string)
    ensures '_' !in mid
  {
    Split(ct, '_')[0]
  }

  lemma MidPrefixOfStamp(date: string, time: string)
    requires '_' !in date
    ensures MidPrefix(date + "_" + time) == date
  {
    SplitAround(date, time, '_');
    assert date + "_" + time == date + ['_'] + time;
  }

  /** A clock stamp of the form date_time with both halves decimal digits. */
  predicate IsStamp(ct: string, date: string, time: string)
  {
    AllDigits(date) && AllDigits(time) && ct == date + "_" + time
  }

  /** dir + "/" + name. */
  function Slash(dir: string, name: string): string
  {
    dir + "/" + name
  }

  /** dst + "/" + folder + "/" + mid + "/" + name, the v2 date-sharded layout. */
  function DatedPath(dst: string, folder: string, ct: string, name: string): string
  {
    Slash(Slash(Slash(dst, folder), MidPrefix(ct)), name)
  }

  /** fss3: dst_prefix.rstrip('/') + "/archives/" + mid + "/" + archive name. */
  function Fss3TarPath(dstPrefix: string, ct: string, n: nat, compress: bool): string
  {
    DatedPath(RStripSlash(dstPrefix), "archives", ct, ArchiveName(ct, n, 4, TarExt(compress)))
  }

  function Fss3ManifestPath(dstPrefix: string, ct: string, n: nat): string
  {
    DatedPath(RStripSlash(dstPrefix), "manifests", ct, ManifestName(ct, n, 4))
  }

  /** s3s3 names: the batch number rendered by str(), without padding. */
  function S3s3TarName(ct: string, batchNumber: int, compress: bool): string
  {
    "archive_" + ct + "_" + IntToString(batchNumber) + ".tar" + (if compress then ".gz" else "")
  }

  function S3s3ManifestName(ct: string, batchNumber: int): string
  {
    "manifest_" + ct + "_" + IntToString(batchNumber) + ".csv"
  }

  function S3s3TarKey(dstPrefix: string, ct: string, batchNumber: int, compress: bool): string
  {
    DatedPath(RStripSlash(dstPrefix), "archives", ct, S3s3TarName(ct, batchNumber, compress))
  }

  function S3s3ManifestKey(dstPrefix: string, ct: string, batchNumber: int): string
  {
    DatedPath(RStripSlash(dstPrefix), "manifests", ct, S3s3ManifestName(ct, batchNumber))
  }

  lemma NoSlashInStamp(ct: string, date: string, time: string)
    requires IsStamp(ct, date, time)
    ensures '/' !in ct
  {
    NoSeparatorInDigits(date, '/');
    NoSeparatorInDigits(time, '/');
  }

  lemma SplitSlash(dir: string, name: string)
    requires '/' !in name
    ensures Split(Slash(dir, name), '/') == Split(dir, '/') + [name]
  {
    SplitSnoc(dir, name, '/');
    assert Slash(dir, name) == dir + ['/'] + name;
  }

  /** Three separator-free components joined below a base add themselves to its split. */
  lemma SplitSlashThree(base: string, a: string, b: string, c: string)
    requires '/' !in a && '/' !in b && '/' !in c
    ensures Split(Slash(Slash(Slash(base, a), b), c), '/') == Split(base, '/') + [a, b, c]
  {
    var p1 := Slash(base, a);
    var p2 := Slash(p1, b);
    SplitSlash(base, a);
    SplitSlash(p1, b);
    SplitSlash(p2, c);
    AppendThree(Split(base, '/'), a, b, c);
  }

  /** The three components a dated path adds below its destination. */
  lemma DatedPathLayout(dst: string, folder: string, ct: string, date: string, time: string, name: string)
    requires IsStamp(ct, date, time) && '/' !in folder && '/' !in name
    ensures Split(DatedPath(dst, folder, ct, name), '/') == Split(dst, '/') + [folder, date, name]
  {
    MidPrefixOfStamp(date, time);
    NoSeparatorInDigits(date, '/');
    SplitSlashThree(dst, folder, date, name);
  }

  /**
   * An fss3 archive path is the stripped destination, then "archives", the date of
   * the stamp, and the archive name; the manifest sits under "manifests" beside it.
   */
  lemma Fss3PathLayout(dstPrefix: string, ct: string, date: string, time: string, n: nat, compress: bool)
    requires IsStamp(ct, date, time)
    ensures Split(Fss3TarPath(dstPrefix, ct, n, compress), '/')
      == Split(RStripSlash(dstPrefix), '/') + ["archives", date, ArchiveName(ct, n, 4, TarExt(compress))]
    ensures Split(Fss3ManifestPath(dstPrefix, ct, n), '/')
      == Split(RStripSlash(dstPrefix), '/') + ["manifests", date, ManifestName(ct, n, 4)]
  {
    NoSlashInArchiveName(ct, date, time, n, 4, TarExt(compress));
    DatedPathLayout(RStripSlash(dstPrefix), "archives", ct, date, time, ArchiveName(ct, n, 4, TarExt(compress)));
    DatedPathLayout(RStripSlash(dstPrefix), "manifests", ct, date, time, ManifestName(ct, n, 4));
  }

  /** s3s3 keys follow the same layout. */
  lemma S3s3KeyLayout(dstPrefix: string, ct: string, date: string, time: string, n: int, compress: bool)
    requires IsStamp(ct, date, time)
    ensures Split(S3s3TarKey(dstPrefix, ct, n, compress), '/')
      == Split(RStripSlash(dstPrefix), '/') + ["archives", date, S3s3TarName(ct, n, compress)]
    ensures Split(S3s3ManifestKey(dstPrefix, ct, n), '/')
      == Split(RStripSlash(dstPrefix), '/') + ["manifests", date, S3s3ManifestName(ct, n)]
  {
    NoSlashInStamp(ct, date, time);
    DatedPathLayout(RStripSlash(dstPrefix), "archives", ct, date, time, S3s3TarName(ct, n, compress));
    DatedPathLayout(RStripSlash(dstPrefix), "manifests", ct, date, time, S3s3ManifestName(ct, n));
  }

  /** Different batch numbers give different s3s3 archive names. */
  lemma S3s3TarNameInjective(ct: string, a: int, b: int, compress: bool)
    ensures S3s3TarName(ct, a, compress) == S3s3TarName(ct, b, compress) ==> a == b
  {
    var head := "archive_" + ct + "_";
    var tail := ".tar" + (if compress then ".gz" else "");
    assert S3s3TarName(ct, a, compress) == head + IntToString(a) + tail;
    assert S3s3TarName(ct, b, compress) == head + IntToString(b) + tail;
    if S3s3TarName(ct, a, compress) == S3s3TarName(ct, b, compress) {
      var k := head + IntToString(a) + tail;
      assert |IntToString(a)| == |IntToString(b)|;
      assert IntToString(a) == k[|head|..|k| - |tail|];
      assert IntToString(b) == k[|head|..|k| - |tail|];
      IntToStringInjective(a, b);
    }
  }

  // ---------------------------------------------------------------- prefixes

  /** p.rstrip('/') + '/' if p else '': None stands for an argument left out. */
  function NormalizePrefix(p: Option<string>): (r: string)
  {
    if p.None? || p.value == "" then "" else RStripSlash(p.value) + "/"
  }

  /** The result is empty exactly when no prefix is given, and otherwise ends in exactly one '/'. */
  lemma NormalizePrefixShape(p: Option<string>)
    ensures NormalizePrefix(p) == "" <==> (p.None? || p.value == "")
    ensures NormalizePrefix(p) != "" ==> var r := NormalizePrefix(p);
      r[|r| - 1] == '/' && (|r| == 1 || r[|r| - 2] != '/')
    ensures NormalizePrefix(p) != "" ==> RStripSlash(NormalizePrefix(p)) == RStripSlash(p.value)
  {
    if p.Some? && p.value != "" {
      var s := RStripSlash(p.value);
      var r := s + "/";
      assert r[..|r| - 1] == s;
      TrimEndNothing(s, IsSlash);
    }
  }

  /** Normalising twice changes nothing. */
  lemma NormalizePrefixIdempotent(p: Option<string>)
    ensures NormalizePrefix(Some(NormalizePrefix(p))) == NormalizePrefix(p)
  {
    NormalizePrefixShape(p);
  }

  /** dst_prefix + "archives/" + name, the key layout of the archivers package. */
  function PrefixedKey(prefix: string, folder: string, name: string): string
  {
    prefix + folder + "/" + name
  }

  /** With a destination given, the key is that destination, one '/', the folder and the name. */
  lemma PrefixedKeyOneSlash(p: string, folder: string, name: string)
    requires p != ""
    ensures PrefixedKey(NormalizePrefix(Some(p)), folder, name) == RStripSlash(p) + "/" + folder + "/" + name
    ensures PrefixedKey(NormalizePrefix(None), folder, name) == folder + "/" + name
  {
  }

  // ---------------------------------------------------------------- posix paths

  predicate AllSlashes(s: string)
  {
    forall i :: 0 <= i < |s| ==> s[i] == '/'
  }

  /** os.path.join(a, b) on posix. */
  function PathJoin(a: string, b: string): (r: string)
    ensures StartsWith(b, "/") ==> r == b
  {
    if StartsWith(b, "/") then b
    else if a == "" || a[|a| - 1] == '/' then a + b
    else a + "/" + b
  }

  /** os.path.dirname on posix: everything up to the last '/', trailing slashes removed unless only slashes. */
  function Dirname(p: string): (r: string)
  {
    if '/' !in p then ""
    else
      var head := p[..LastIndexOf(p, '/') + 1];
      if AllSlashes(head) then head else RStripSlash(head)
  }

  /** The directory of d joined with a plain name is d again. */
  lemma DirnameOfJoin(d: string, name: string)
    requires d != "" && d[|d| - 1] != '/'
    requires name != "" && '/' !in name
    ensures Dirname(PathJoin(d, name)) == d
  {
    var p := d + "/" + name;
    assert PathJoin(d, name) == p;
    assert p[|d|] == '/';
    assert p[|d| + 1..] == name;
    LastIndexOfIs(p, '/', |d|);
    var head := p[..|d| + 1];
    assert head == d + "/";
    assert head[|d| - 1] == d[|d| - 1];
    assert !AllSlashes(head);
    assert head[..|head| - 1] == d;
    TrimEndNothing(d, IsSlash);
  }

  /** os.path.join(dst, folder, name). */
  function FolderPath(dst: string, folder: string, name: string): string
  {
    PathJoin(PathJoin(dst, folder), name)
  }

  /**
   * The directory the file-system archivers create before writing a batch is the
   * archives (or manifests) folder under the destination.
   */
  lemma FolderPathParent(dst: string, folder: string, name: string)
    requires folder != "" && '/' !in folder
    requires name != "" && '/' !in name
    ensures Dirname(FolderPath(dst, folder, name)) == PathJoin(dst, folder)
    ensures PathJoin(dst, folder) == (if dst == "" || dst[|dst| - 1] == '/' then dst + folder else dst + "/" + folder)
  {
    var d := PathJoin(dst, folder);
    assert d[|d| - 1] == folder[|folder| - 1];
    assert folder[|folder| - 1] in folder;
    DirnameOfJoin(d, name);
  }

  lemma NoSlashInArchiveName(ct: string, date: string, time: string, n: nat, width: nat, ext: string)
    requires IsStamp(ct, date, time) && '/' !in ext
    ensures '/' !in ArchiveName(ct, n, width, ext)
    ensures '/' !in ManifestName(ct, n, width)
  {
    NoSlashInStamp(ct, date, time);
    NoSeparatorInDigits(ZeroPad(n, width), '/');
  }

  // ---------------------------------------------------------------- v1 arguments

  datatype Protocol = S3 | Fs

  /** tar_dir and manifest_dir: joined under fs_dir with the fs protocol, the bare prefixes otherwise. */
  function V1Dirs(protocol: Protocol, fsDir: string, tarPrefix: string, manifestPrefix: string): (dirs: (string, string))
  {
    if protocol == Fs then (PathJoin(fsDir, tarPrefix), PathJoin(fsDir, manifestPrefix))
    else (tarPrefix, manifestPrefix)
  }

  /** With the fs protocol a relative prefix lands one level under fs_dir; an absolute one replaces it. */
  lemma V1DirsUnderFs(fsDir: string, tarPrefix: string, manifestPrefix: string)
    requires fsDir != "" && fsDir[|fsDir| - 1] != '/'
    ensures !StartsWith(tarPrefix, "/") ==> V1Dirs(Fs, fsDir, tarPrefix, manifestPrefix).0 == fsDir + "/" + tarPrefix
    ensures StartsWith(tarPrefix, "/") ==> V1Dirs(Fs, fsDir, tarPrefix, manifestPrefix).0 == tarPrefix
    ensures !StartsWith(manifestPrefix, "/") ==> V1Dirs(Fs, fsDir, tarPrefix, manifestPrefix).1 == fsDir + "/" + manifestPrefix
    ensures V1Dirs(S3, fsDir, tarPrefix, manifestPrefix) == (tarPrefix, manifestPrefix)
  {
  }

  datatype ArgError = BucketRequired | SourceRequired

  /** _validate_args: the bucket check comes first, then the source check. */
  function ValidateV1Args(protocol: Protocol, bucket: Option<string>, srcDir: Option<string>, inputFile: Option<string>): (r: Result<(), ArgError>)
    ensures r == Failure(BucketRequired) <==> protocol.S3? && !Truthy(bucket)
    ensures r == Failure(SourceRequired) <==> (protocol.Fs? || Truthy(bucket)) && !Truthy(srcDir) && !Truthy(inputFile)
    ensures r.Success? <==> (protocol.S3? ==> Truthy(bucket)) && (Truthy(srcDir) || Truthy(inputFile))
  {
    if protocol.S3? && !Truthy(bucket) then Failure(BucketRequired)
    else if !Truthy(srcDir) && !Truthy(inputFile) then Failure(SourceRequired)
    else Success(())
  }

  // ---------------------------------------------------------------- snowball directories

  /** nfs_dir + '/' + year + '/' + month + '/' + day. */
  function ContentsDir(nfsDir: string, year: string, month: string, day: string): string
  {
    Slash(Slash(Slash(nfsDir, year), month), day)
  }

  /** contents_dir + '/' + 'list'. */
  function ContentsLogDir(nfsDir: string, year: string, month: string, day: string): string
  {
    Slash(ContentsDir(nfsDir, year, month, day), "list")
  }

  /** The contents directory adds year, month and day as three path components. */
  lemma ContentsDirLayout(nfsDir: string, year: string, month: string, day: string)
    requires '/' !in year && '/' !in month && '/' !in day
    ensures Split(ContentsDir(nfsDir, year, month, day), '/') == Split(nfsDir, '/') + [year, month, day]
  {
    SplitSlashThree(nfsDir, year, month, day);
  }

  /** The log directory is "list" one level below the contents directory. */
  lemma ContentsLogDirLayout(nfsDir: string, year: string, month: string, day: string)
    requires '/' !in year && '/' !in month && '/' !in day
    ensures Split(ContentsLogDir(nfsDir, year, month, day), '/') == Split(nfsDir, '/') + [year, month, day, "list"]
  {
    ContentsDirLayout(nfsDir, year, month, day);
    SplitSlash(ContentsDir(nfsDir, year, month, day), "list");
    var base := Split(nfsDir, '/');
    assert base + [year, month, day] + ["list"] == base + [year, month, day, "list"];
  }

  datatype DateError = NoParentSegment | NotThreeParts

  /**
   * year, month, day = src_dir.split('/')[-2].split('-'): fails with an index error
   * when src_dir has no '/', and with an unpack error unless the segment has three parts.
   */
  function DateDirs(srcDir: string): (r: Result<(string, string, string), DateError>)
    ensures r.Success? ==> '-' !in r.value.0 && '-' !in r.value.1 && '-' !in r.value.2
    ensures r.Success? ==> '/' !in r.value.0 && '/' !in r.value.1 && '/' !in r.value.2
  {
    var segs := Split(srcDir, '/');
    if |segs| < 2 then Failure(NoParentSegment)
    else
      var parts := Split(segs[|segs| - 2], '-');
      if |parts| != 3 then Failure(NotThreeParts)
      else
        SplitPartsWithout(segs[|segs| - 2], '-', '/');
        Success((parts[0], parts[1], parts[2]))
  }

  lemma DashedIs(year: string, month: string, day: string)
    ensures year + "-" + month + "-" + day == year + ['-'] + (month + ['-'] + day)
  {
  }

  lemma SplitThree(year: string, month: string, day: string)
    requires '-' !in year && '-' !in month && '-' !in day
    ensures Split(year + "-" + month + "-" + day, '-') == [year, month, day]
  {
    var md := month + ['-'] + day;
    SplitAround(month, day, '-');
    SplitNone(day, '-');
    SplitAround(year, md, '-');
    DashedIs(year, month, day);
    assert [year] + ([month] + [day]) == [year, month, day];
  }

  lemma SecondToLast(root: string, seg: string, last: string)
    requires '/' !in seg && '/' !in last
    ensures var segs := Split(Slash(Slash(root, seg), last), '/'); |segs| >= 2 && segs[|segs| - 2] == seg
  {
    SplitSlash(Slash(root, seg), last);
    SplitSlash(root, seg);
  }

  /** A src_dir of the form root/year-month-day/last (last is "" for the usual trailing '/') gives back its date. */
  lemma DateDirsOf(root: string, year: string, month: string, day: string, last: string)
    requires '/' !in year && '/' !in month && '/' !in day && '/' !in last
    requires '-' !in year && '-' !in month && '-' !in day
    ensures DateDirs(Slash(Slash(root, year + "-" + month + "-" + day), last)) == Success((year, month, day))
  {
    var seg := year + "-" + month + "-" + day;
    assert '/' !in seg;
    SecondToLast(root, seg, last);
    SplitThree(year, month, day);
    DateDirsFrom(Slash(Slash(root, seg), last), seg, year, month, day);
  }

  /** The date comes from the second-to-last segment alone. */
  lemma DateDirsFrom(srcDir: string, seg: string, year: string, month: string, day: string)
    requires var segs := Split(srcDir, '/'); |segs| >= 2 && segs[|segs| - 2] == seg
    requires Split(seg, '-') == [year, month, day]
    ensures DateDirs(srcDir) == Success((year, month, day))
  {
  }

  // ---------------------------------------------------------------- tar sequence

  /**
   * The tar_sequence field and the names handed out under its lock. The v2 apps
   * start at 0 and increment before use; v1 and the archivers package start at 1
   * and increment after use. issued records every number handed out.
   */
  class Sequencer {
    var tarSequence: nat
    const preIncrement: bool
    const first: nat
    ghost var issued: seq<nat>

    ghost predicate Valid()
      reads this
    {
      tarSequence + (if preIncrement then 1 else 0) == first + |issued|
      && forall k :: 0 <= k < |issued| ==> issued[k] == first + k
    }

    constructor (start: nat, preIncrement: bool)
      ensures Valid() && issued == [] && tarSequence == start
      ensures this.preIncrement == preIncrement
      ensures first == if preIncrement then start + 1 else start
    {
      tarSequence := start;
      this.preIncrement := preIncrement;
      first := if preIncrement then start + 1 else start;
      issued := [];
    }

    /** Hands out the next number: after the increment in the v2 apps, before it elsewhere. */
    method Take() returns (n: nat)
      requires Valid()
      modifies this
      ensures Valid()
      ensures n == (if preIncrement then old(tarSequence) + 1 else old(tarSequence))
      ensures tarSequence == old(tarSequence) + 1
      ensures issued == old(issued) + [n]
    {
      if preIncrement {
        tarSequence := tarSequence + 1;
        n := tarSequence;
      } else {
        n := tarSequence;
        tarSequence := tarSequence + 1;
      }
      issued := issued + [n];
    }

    /** The archive and manifest names of one batch, built from one number. */
    method AllocateNames(ct: string, width: nat, ext: string) returns (tar: string, manifest: string)
      requires Valid()
      modifies this
      ensures Valid() && |issued| == |old(issued)| + 1
      ensures tar == ArchiveName(ct, issued[|issued| - 1], width, ext)
      ensures manifest == ManifestName(ct, issued[|issued| - 1], width)
      ensures issued[|issued| - 1] == first + |old(issued)|
    {
      var n := Take();
      tar := ArchiveName(ct, n, width, ext);
      manifest := ManifestName(ct, n, width);
    }

    /** v1's report prints tar_sequence - 1, which counts the names handed out when they start at 1. */
    function TarFilesCreated(): (count: int)
      reads this
      requires Valid() && !preIncrement && first == 1
      ensures count == |issued|
    {
      tarSequence - 1
    }
  }

  /** The names handed out are pairwise distinct and increasing. */
  lemma IssuedIncreasing(s: Sequencer, ct: string, width: nat, ext: string)
    requires s.Valid()
    ensures forall i, j :: 0 <= i < j < |s.issued| ==> s.issued[i] < s.issued[j]
    ensures forall i, j :: 0 <= i < j < |s.issued| ==>
      ArchiveName(ct, s.issued[i], width, ext) != ArchiveName(ct, s.issued[j], width, ext)
  {
    forall i, j | 0 <= i < j < |s.issued|
      ensures ArchiveName(ct, s.issued[i], width, ext) != ArchiveName(ct, s.issued[j], width, ext)
    {
      SequenceNamesInjective(ct, s.issued[i], s.issued[j], width, ext);
    }
  }

  /** Both schemes number the batches 1, 2, 3, ... when the v2 apps start at 0 and the others at 1. */
  lemma BothSchemesFromOne(v2: Sequencer, v1: Sequencer)
    requires v2.Valid() && v2.preIncrement && v2.first == 1
    requires v1.Valid() && !v1.preIncrement && v1.first == 1
    requires |v2.issued| == |v1.issued|
    ensures v2.issued == v1.issued
    ensures v2.tarSequence + 1 == v1.tarSequence
  {
  }
}
