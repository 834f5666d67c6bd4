/**
 * The counters the archivers keep while they run: the statistics block of the
 * v2 apps, updated through _update_stats under a lock, and the plainer totals
 * of the archivers package, with the failure accounting of their run loops.
 */
module Stats {
  import opened Wrappers
  import opened Inputs
  import opened Manifests

  /** _total_files, _failed_files, _total_tar_files, _total_manifest_files and _total_bytes_transferred of a v2 app. */
  class Stats {
    var files: nat
    var failed: nat
    var tars: nat
    var manifests: nat
    var bytes: nat

    constructor()
      ensures files == 0 && failed == 0 && tars == 0 && manifests == 0 && bytes == 0
    {
      files, failed, tars, manifests, bytes := 0, 0, 0, 0, 0;
    }

    /** _update_stats: every counter grows by its argument, and by nothing else. */
    method Update(files': nat, failed': nat, tars': nat, manifests': nat, bytes': nat)
      modifies this
      ensures files == old(files) + files' && failed == old(failed) + failed'
      ensures tars == old(tars) + tars' && manifests == old(manifests) + manifests'
      ensures bytes == old(bytes) + bytes'
    {
      files := files + files';
      failed := failed + failed';
      tars := tars + tars';
      manifests := manifests + manifests';
      bytes := bytes + bytes';
    }
  }

  function FileTotal(files: seq<FileInfo>): nat
  {
    if |files| == 0 then 0 else FileTotal(files[..|files| - 1]) + files[|files| - 1].size
  }

  /**
   * One batch of v2/apps/fsfs-archiver.py: pack it, then count the archived files
   * as len(batch) - len(failed), the failures, one tar, one manifest and the
   * batch's total size. tarOpened and manifestWritten are the outcomes of
   * tarfile.open (with the close that ends its block) and of writing the
   * manifest file; when either raises, the batch's partial files are removed
   * and no counter moves.
   */
  method FsfsConsumeBatch(stats: Stats, tarName: string, date: string, files: seq<FileInfo>,
                          md5: string -> Option<string>, add: string -> Option<nat>,
                          tarOpened: bool, manifestWritten: bool)
    returns (manifest: Option<string>, ranges: seq<Range>)
    modifies stats
    ensures manifest.Some? <==> tarOpened && manifestWritten
    ensures var r := SecondPass(files, md5, add, FirstPass(files, md5), 0);
      manifest.Some? ==>
        ranges == r.0 && manifest.value == FsfsManifest(tarName, date, ranges) &&
        stats.files == old(stats.files) + |files| - |r.1| && stats.failed == old(stats.failed) + |r.1|
    ensures manifest.Some? ==> stats.tars == old(stats.tars) + 1 && stats.manifests == old(stats.manifests) + 1
    ensures manifest.Some? ==> stats.bytes == old(stats.bytes) + FileTotal(files)
    ensures manifest.None? ==> ranges == []
    ensures manifest.None? ==>
      stats.files == old(stats.files) && stats.failed == old(stats.failed) &&
      stats.tars == old(stats.tars) && stats.manifests == old(stats.manifests) && stats.bytes == old(stats.bytes)
  {
    if !tarOpened || !manifestWritten {
      return None, [];
    }
    var text, failed;
    text, ranges, failed := FsfsPack(tarName, date, files, md5, add);
    FsfsFailedBound(files, md5, add);
    stats.Update(|files| - |failed|, |failed|, 1, 1, FileTotal(files));
    manifest := Some(text);
  }

  /** Under distinct paths the files counted for a batch are exactly its manifest lines. */
  lemma FsfsCountsLines(files: seq<FileInfo>, md5: string -> Option<string>, add: string -> Option<nat>)
    requires DistinctPaths(files)
    ensures var r := SecondPass(files, md5, add, FirstPass(files, md5), 0);
      |files| - |r.1| == |r.0|
  {
    FsfsAccounting(files, md5, add);
  }

  function MemberBytes(ms: seq<Member>): nat
  {
    if |ms| == 0 then 0 else MemberBytes(ms[..|ms| - 1]) + ms[|ms| - 1].size
  }

  /**
   * One batch of v2/apps/s3s3-archiver.py: each added object counts one file and
   * its listed size, each failed download one failure. The tar and the manifest
   * are uploaded only when there is something to upload; the tar counts once
   * upload_fileobj returns (tarUploaded), and the manifest once put_object,
   * which is tried only after the tar, returns as well (manifestUploaded). A
   * failed upload is logged and counts nothing.
   */
  method S3s3ConsumeBatch(stats: Stats, tarKey: string, ct: string, objs: seq<Object>, fetch: string -> Fetch,
                          tarUploaded: bool, manifestUploaded: bool)
    returns (upload: Option<string>)
    modifies stats
    ensures var r := S3s3Members(objs, fetch, 0);
      stats.files == old(stats.files) + |r.0| && stats.failed == old(stats.failed) + r.1
      && stats.bytes == old(stats.bytes) + MemberBytes(r.0)
      && upload == S3s3Upload(S3s3Entries(tarKey, ct, r.0))
    ensures stats.tars == old(stats.tars) + (if upload.Some? && tarUploaded then 1 else 0)
    ensures stats.manifests == old(stats.manifests) + (if upload.Some? && tarUploaded && manifestUploaded then 1 else 0)
  {
    var members, entries, failed;
    members, entries, failed, upload := S3s3Pack(tarKey, ct, objs, fetch);
    stats.Update(|members|, failed, 0, 0, MemberBytes(members));
    if upload.Some? && tarUploaded {
      stats.Update(0, 0, 1, 0, 0);
      if manifestUploaded {
        stats.Update(0, 0, 0, 1, 0);
      }
    }
  }

  /** Every object of an s3s3 batch is counted once, as a file or as a failure. */
  lemma S3s3EveryObjectCounted(objs: seq<Object>, fetch: string -> Fetch)
    ensures var r := S3s3Members(objs, fetch, 0); |r.0| + r.1 == |objs|
  {
    S3s3Blocked(objs, fetch, 0);
  }

  // ---------------------------------------------------------------- the archivers package

  /** total_files, total_tar_files, total_manifest_files and failed_files of an archiver object. */
  class Totals {
    var files: nat
    var tars: nat
    var manifests: nat
    var failed: nat

    constructor()
      ensures files == 0 && tars == 0 && manifests == 0 && failed == 0
    {
      files, tars, manifests, failed := 0, 0, 0, 0;
    }

    /** After the tar is built: len(file_list) files, one tar and one manifest, before anything is uploaded. */
    method CountBatch(n: nat)
      modifies this
      ensures files == old(files) + n && tars == old(tars) + 1 && manifests == old(manifests) + 1
      ensures failed == old(failed)
    {
      files := files + n;
      tars := tars + 1;
      manifests := manifests + 1;
    }

    method CountFailed(n: nat)
      modifies this
      ensures failed == old(failed) + n
      ensures files == old(files) && tars == old(tars) && manifests == old(manifests)
    {
      failed := failed + n;
    }
  }

  /**
   * How one submitted batch ended: the tar could not be built, an upload gave up
   * (after the helper counted one failure itself, or not), or everything went up.
   */
  datatype BatchEnd = BuildFailed | UploadFailed(countedInHelper: bool) | Uploaded

  /** The totals' changes for one batch of n files, as (files, tars, failed). */
  function BatchDelta(n: nat, e: BatchEnd): (d: (nat, nat, nat))
    ensures e.BuildFailed? ==> d == (0, 0, n)
    ensures e.Uploaded? ==> d == (n, 1, 0)
    ensures e.UploadFailed? ==> d.0 == n && d.1 == 1 && d.2 == n + (if e.countedInHelper then 1 else 0)
  {
    match e
    case BuildFailed => (0, 0, n)
    case UploadFailed(c) => (n, 1, n + if c then 1 else 0)
    case Uploaded => (n, 1, 0)
  }

  /** The totals after a run, batch by batch. */
  function RunTotals(batches: seq<(nat, BatchEnd)>): (t: (nat, nat, nat))
  {
    if |batches| == 0 then (0, 0, 0)
    else
      var before := RunTotals(batches[..|batches| - 1]);
      var d := BatchDelta(batches[|batches| - 1].0, batches[|batches| - 1].1);
      (before.0 + d.0, before.1 + d.1, before.2 + d.2)
  }

  /**
   * run of the archivers package and of web_app/archivers: each batch goes to
   * create_tar_and_*, and a batch that ends in an exception adds its length to
   * failed_files. ends tells each batch's fate; the uploads themselves are
   * modelled in the transfer module.
   */
  method Run(totals: Totals, batches: seq<(nat, BatchEnd)>)
    modifies totals
    ensures var t := RunTotals(batches);
      totals.files == old(totals.files) + t.0 && totals.tars == old(totals.tars) + t.1
      && totals.manifests == old(totals.manifests) + t.1 && totals.failed == old(totals.failed) + t.2
  {
    var i := 0;
    while i < |batches|
      invariant 0 <= i <= |batches|
      invariant var t := RunTotals(batches[..i]);
        totals.files == old(totals.files) + t.0 && totals.tars == old(totals.tars) + t.1
        && totals.manifests == old(totals.manifests) + t.1 && totals.failed == old(totals.failed) + t.2
    {
      assert batches[..i + 1][..i] == batches[..i];
      var (n, e) := batches[i];
      match e {
        case BuildFailed =>
          totals.CountFailed(n);
        case UploadFailed(c) =>
          totals.CountBatch(n);
          if c {
            totals.CountFailed(1);
          }
          totals.CountFailed(n);
        case Uploaded =>
          totals.CountBatch(n);
      }
      i := i + 1;
    }
    assert batches[..|batches|] == batches;
  }

  function Sizes(batches: seq<(nat, BatchEnd)>): nat
  {
    if |batches| == 0 then 0 else Sizes(batches[..|batches| - 1]) + batches[|batches| - 1].0
  }

  function Built(batches: seq<(nat, BatchEnd)>): seq<(nat, BatchEnd)>
  {
    if |batches| == 0 then []
    else Built(batches[..|batches| - 1]) + if batches[|batches| - 1].1.BuildFailed? then [] else [batches[|batches| - 1]]
  }

  /**
   * Because the totals are raised before the uploads, total_files counts every
   * batch whose tar was built, uploaded or not, and total_tar_files the number of
   * such batches; failed_files is at least the length of every batch that failed.
   */
  lemma {:induction false} RunTotalsCountBuilt(batches: seq<(nat, BatchEnd)>)
    ensures var t := RunTotals(batches);
      t.0 == Sizes(Built(batches)) && t.1 == |Built(batches)| && t.0 + t.2 >= Sizes(batches)
  {
    if |batches| > 0 {
      var n := |batches| - 1;
      RunTotalsCountBuilt(batches[..n]);
      var b := Built(batches[..n]);
      if !batches[n].1.BuildFailed? {
        assert (b + [batches[n]])[..|b|] == b;
      } else {
        assert b + [] == b;
      }
    }
  }

  /** When every batch goes up, everything is counted and nothing failed. */
  lemma {:induction false} RunAllUploaded(batches: seq<(nat, BatchEnd)>)
    requires forall k :: 0 <= k < |batches| ==> batches[k].1.Uploaded?
    ensures RunTotals(batches) == (Sizes(batches), |batches|, 0)
  {
    if |batches| > 0 {
      var n := |batches| - 1;
      assert forall k :: 0 <= k < n ==> batches[..n][k] == batches[k];
      RunAllUploaded(batches[..n]);
    }
  }

  /**
   * A batch of web_app/archivers/fs2s3archiver.py whose last upload attempt fails
   * with a ClientError counts its n files in total_files and n + 1 in failed_files.
   */
  lemma UploadFailureCountedTwice(n: nat)
    ensures RunTotals([(n, UploadFailed(true))]) == (n, 1, n + 1)
  {
    assert [(n, UploadFailed(true))][..0] == [];
  }
}
