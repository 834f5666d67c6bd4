/**
 * The helpers of the stand-alone snowball scripts (s3archiver.py,
 * small-file-archiver.py, small-file-archiver-0.2.4.py): the bucket path
 * clean-up, the object-name conversion, the random archive suffix, the archive
 * names their workers choose, and the worker loop that stops at the quit flag.
 */
module Scripts {
  import opened Wrappers
  import opened Text

  /** What makes a script helper raise: an unbound local, or indexing an empty string. */
  datatype ScriptError = UnboundLocal | IndexOutOfRange

  // ---------------------------------------------------------------- bucket_path_parsing

  /** s[:-k] in Python for k > 0: all but the last k characters, or nothing. */
  function DropLast(s: string, k: nat): (r: string)
    ensures |r| == if |s| >= k then |s| - k else 0
    ensures r == s[..|r|]
  {
    if |s| >= k then s[..|s| - k] else ""
  }

  /**
   * bucket_path_parsing in s3archiver.py as written: '' comes back unchanged, a
   * leading '/' is dropped by [1:], a trailing '/' replaces that with [:-2], and
   * with neither new_path is never bound.
   */
  function BucketPathParsing(p: string): (r: Result<string, ScriptError>)
    ensures p == "" ==> r == Success("")
    ensures p != "" && p[|p| - 1] == '/' ==> r == Success(DropLast(p, 2))
    ensures p != "" && p[0] == '/' && p[|p| - 1] != '/' ==> r == Success(p[1..])
    ensures p != "" && p[0] != '/' && p[|p| - 1] != '/' ==> r == Failure(UnboundLocal)
  {
    if p == "" then Success(p)
    else if p[|p| - 1] == '/' then Success(DropLast(p, 2))
    else if p[0] == '/' then Success(p[1..])
    else Failure(UnboundLocal)
  }

  /** A trailing '/' costs the character before it too: "bucket/" gives "bucke". */
  lemma BucketPathDropsLastChar(q: string)
    requires q != "" && q[|q| - 1] != '/'
    ensures BucketPathParsing(q + "/") == Success(q[..|q| - 1])
    ensures BucketPathParsing(q + "/") != Success(q)
  {
    var p := q + "/";
    assert p[..|p| - 2] == q[..|q| - 1];
  }

  /** A path with no slash at either end, the ordinary case, raises. */
  lemma BucketPathUnbound(q: string)
    requires q != "" && q[0] != '/' && q[|q| - 1] != '/'
    ensures BucketPathParsing(q).Failure?
  {
  }

  /** The evidently intended clean-up: one leading '/' off, then one trailing '/' off. */
  function StripBucketPath(p: string): (r: string)
  {
    var a := if p != "" && p[0] == '/' then p[1..] else p;
    if a != "" && a[|a| - 1] == '/' then a[..|a| - 1] else a
  }

  predicate Bare(q: string)
  {
    q == "" || (q[0] != '/' && q[|q| - 1] != '/')
  }

  /** The corrected clean-up gives back the bare path whatever slashes surrounded it. */
  lemma StripBucketPathRecovers(q: string)
    requires Bare(q)
    ensures StripBucketPath(q) == q
    ensures StripBucketPath("/" + q) == q
    ensures StripBucketPath(q + "/") == q
    ensures StripBucketPath("/" + q + "/") == q
  {
    assert ("/" + q)[1..] == q;
    assert ("/" + q + "/")[1..] == q + "/";
    assert (q + "/")[..|q|] == q;
    if q != "" {
      assert ("/" + q)[|("/" + q)| - 1] == q[|q| - 1];
    }
  }

  /** The corrected version never raises and agrees with the original wherever that was right. */
  lemma StripBucketPathAgrees(p: string)
    requires p != "" && p[0] == '/' && p[|p| - 1] != '/'
    ensures BucketPathParsing(p) == Success(StripBucketPath(p))
  {
  }

  // ---------------------------------------------------------------- conv_obj_name

  /** The root with '/' appended unless it is empty or already ends in one. */
  function RootSlash(root: string): (r: string)
    ensures r == "" <==> root == ""
    ensures r != "" ==> r[|r| - 1] == '/'
    ensures root != "" && root[|root| - 1] == '/' ==> r == root
  {
    if root == "" then root else if root[|root| - 1] != '/' then root + "/" else root
  }

  lemma RootSlashIdempotent(root: string)
    ensures RootSlash(RootSlash(root)) == RootSlash(root)
  {
  }

  /**
   * conv_obj_name from s3archiver.py (the same code is in small-file-archiver.py and
   * small-file-archiver-0.2.4.py): sub_prefix[-1] raises on an empty sub_prefix; the
   * first occurrence of sub_prefix + '/' (if not already so ended) is removed and
   * the root put in front; on Windows backslashes then become '/'.
   */
  function ConvObjName(fileName: string, prefixRoot: string, subPrefix: string, isNt: bool)
    : (r: Result<string, ScriptError>)
    ensures r.Failure? <==> subPrefix == ""
  {
    if subPrefix == "" then Failure(IndexOutOfRange)
    else
      var sub := if subPrefix[|subPrefix| - 1] != '/' then subPrefix + "/" else subPrefix;
      var rest := ReplaceFirst(fileName, sub, "");
      Success(RootSlash(prefixRoot) + if isNt then ReplaceChar(rest, '\\', '/') else rest)
  }

  /** A file the walk found under sub_prefix becomes the root followed by its path below sub_prefix. */
  lemma ConvObjNameUnder(subPrefix: string, rel: string, prefixRoot: string, isNt: bool)
    requires subPrefix != "" && subPrefix[|subPrefix| - 1] != '/'
    ensures ConvObjName(subPrefix + "/" + rel, prefixRoot, subPrefix, isNt)
      == Success(RootSlash(prefixRoot) + if isNt then ReplaceChar(rel, '\\', '/') else rel)
  {
    var s := subPrefix + "/" + rel;
    var sub := subPrefix + "/";
    assert s[..|sub|] == sub;
    ReplaceFirstAtStart(s, sub, "");
    assert s[|sub|..] == rel;
    assert "" + rel == rel;
    assert ReplaceFirst(s, sub, "") == rel;
    assert (if subPrefix[|subPrefix| - 1] != '/' then subPrefix + "/" else subPrefix) == sub;
  }

  /** A sub_prefix that already ends in '/' is used as it is. */
  lemma ConvObjNameSlashed(subPrefix: string, rel: string, prefixRoot: string)
    requires subPrefix != "" && subPrefix[|subPrefix| - 1] == '/'
    ensures ConvObjName(subPrefix + rel, prefixRoot, subPrefix, false) == Success(RootSlash(prefixRoot) + rel)
  {
    var s := subPrefix + rel;
    assert s[..|subPrefix|] == subPrefix;
    ReplaceFirstAtStart(s, subPrefix, "");
    assert s[|subPrefix|..] == rel;
    assert "" + rel == rel;
    assert ReplaceFirst(s, subPrefix, "") == rel;
  }

  // ---------------------------------------------------------------- gen_rand_char

  /** string.ascii_uppercase + string.digits, position by position. */
  function CharsetAt(i: nat): (c: char)
    requires i < 36
    ensures UpperOrDigit(c)
  {
    if i < 26 then ('A' as int + i) as char else ('0' as int + i - 26) as char
  }

  predicate UpperOrDigit(c: char)
  {
    'A' <= c <= 'Z' || '0' <= c <= '9'
  }

  function CharsetIndex(c: char): (i: nat)
    requires UpperOrDigit(c)
    ensures i < 36 && CharsetAt(i) == c
  {
    if 'A' <= c <= 'Z' then c as int - 'A' as int else 26 + c as int - '0' as int
  }

  /** What random.sample(char_set * 6, 6) may pick: six distinct positions of the 216-character population. */
  predicate Sample(idx: seq<nat>)
  {
    |idx| == 6 && (forall k :: 0 <= k < 6 ==> idx[k] < 216)
    && forall j, k :: 0 <= j < k < 6 ==> idx[j] != idx[k]
  }

  /** gen_rand_char: the characters at the sampled positions of char_set * 6. */
  function GenRandChar(idx: seq<nat>): (s: string)
    requires Sample(idx)
    ensures |s| == 6 && forall k :: 0 <= k < 6 ==> UpperOrDigit(s[k])
  {
    seq(6, k requires 0 <= k < 6 => CharsetAt(idx[k] % 36))
  }

  /**
   * Every six-character string over A-Z0-9 can come out, repeated characters
   * included: the k-th character can be taken from the k-th copy of the set.
   */
  lemma GenRandCharCovers(s: string)
    requires |s| == 6 && forall k :: 0 <= k < 6 ==> UpperOrDigit(s[k])
    ensures exists idx :: Sample(idx) && GenRandChar(idx) == s
  {
    var idx := seq(6, k requires 0 <= k < 6 => CharsetIndex(s[k]) + 36 * k);
    forall j, k | 0 <= j < k < 6 ensures idx[j] != idx[k] {
      assert idx[j] < 36 * (j + 1) <= 36 * k <= idx[k];
    }
    assert Sample(idx);
    forall k | 0 <= k < 6 ensures GenRandChar(idx)[k] == s[k] {
      assert idx[k] % 36 == CharsetIndex(s[k]);
    }
  }

  // ---------------------------------------------------------------- archive names

  /** upload_file in s3archiver.py: archive_<current_time>_<6 chars>.tar. */
  function S3ArchiverTarName(ct: string, rand: string): string
  {
    "archive_" + ct + "_" + rand + ".tar"
  }

  /** upload_file in small-file-archiver.py: <target prefix>archive-<current_time>-<6 chars>.tar. */
  function SmallFileTarName(prefix: string, ct: string, rand: string): string
  {
    prefix + "archive-" + ct + "-" + rand + ".tar"
  }

  /** upload_file in small-file-archiver-0.2.4.py: '.tar' for '', '.tgz' for 'gz', any other value unbound. */
  function SnowballTarName(prefix: string, ct: string, rand: string, compression: string): (r: Option<string>)
    ensures r.Some? <==> compression == "" || compression == "gz"
    ensures compression == "" ==> r == Some(SmallFileTarName(prefix, ct, rand))
  {
    if compression == "" then Some(SmallFileTarName(prefix, ct, rand))
    else if compression == "gz" then Some(prefix + "archive-" + ct + "-" + rand + ".tgz")
    else None
  }

  /** Two draws give two archive names: one run's tars differ exactly when their suffixes do. */
  lemma TarNamesDistinct(prefix: string, ct: string, r1: string, r2: string)
    requires |r1| == |r2|
    ensures S3ArchiverTarName(ct, r1) == S3ArchiverTarName(ct, r2) <==> r1 == r2
    ensures SmallFileTarName(prefix, ct, r1) == SmallFileTarName(prefix, ct, r2) <==> r1 == r2
  {
    var n := |prefix| + 8 + |ct| + 1;
    if SmallFileTarName(prefix, ct, r1) == SmallFileTarName(prefix, ct, r2) {
      assert SmallFileTarName(prefix, ct, r1)[n..n + |r1|] == r1;
      assert SmallFileTarName(prefix, ct, r2)[n..n + |r2|] == r2;
    }
    var m := 8 + |ct| + 1;
    if S3ArchiverTarName(ct, r1) == S3ArchiverTarName(ct, r2) {
      assert S3ArchiverTarName(ct, r1)[m..m + |r1|] == r1;
      assert S3ArchiverTarName(ct, r2)[m..m + |r2|] == r2;
    }
  }

  /** no_extract: exactly the argument 'yes', compared case-sensitively. */
  function NoExtract(arg: string): bool
  {
    arg == "yes"
  }

  lemma NoExtractCaseSensitive()
    ensures NoExtract("yes") && !NoExtract("Yes") && !NoExtract("YES") && !NoExtract("y") && !NoExtract("")
  {
  }

  // ---------------------------------------------------------------- the worker loop

  /** What a worker takes off the queue: a batch of files or the quit flag 'DONE'. */
  datatype Message = Files(files: seq<string>) | Quit

  /** Where the first quit flag sits, or the queue's length when there is none. */
  function FirstQuit(queue: seq<Message>): (n: nat)
    ensures n <= |queue|
    ensures forall k :: 0 <= k < n ==> queue[k].Files?
    ensures n < |queue| ==> queue[n].Quit?
  {
    if |queue| == 0 then 0
    else if queue[0].Quit? then 0
    else
      var n := FirstQuit(queue[1..]);
      assert forall k :: 1 <= k < n + 1 ==> queue[k] == queue[1..][k - 1];
      n + 1
  }

  /**
   * upload_file of s3archiver.py for one worker: each message costs one random
   * suffix and a name, drawn before the quit check; batches before the first quit
   * flag are archived under their names, and the flag ends the loop.
   */
  method S3ArchiverWorker(queue: seq<Message>, ct: string, draws: seq<seq<nat>>)
    returns (names: seq<string>, taken: nat)
    requires |draws| >= |queue| && forall k :: 0 <= k < |queue| ==> Sample(draws[k])
    ensures taken == if FirstQuit(queue) < |queue| then FirstQuit(queue) + 1 else |queue|
    ensures |names| == FirstQuit(queue)
    ensures forall k :: 0 <= k < |names| ==> names[k] == S3ArchiverTarName(ct, GenRandChar(draws[k]))
  {
    names := [];
    var i := 0;
    while i < |queue|
      invariant 0 <= i <= FirstQuit(queue) && |names| == i
      invariant forall k :: 0 <= k < i ==> names[k] == S3ArchiverTarName(ct, GenRandChar(draws[k]))
    {
      var randchar := GenRandChar(draws[i]);
      var tarName := S3ArchiverTarName(ct, randchar);
      if queue[i].Quit? {
        return names, i + 1;
      }
      names := names + [tarName];
      i := i + 1;
    }
    taken := i;
  }

  /**
   * upload_file of small-file-archiver-0.2.4.py: the same loop, but with a
   * compression other than '' or 'gz' tar_name is never bound. The quit flag is
   * tested before tar_name is read, so a quit flag ends the loop normally; the
   * first batch reads tar_name in copy_to_snowball and again in the handler of
   * its failure, and that second read raises before anything is archived.
   */
  method SnowballWorker(queue: seq<Message>, prefix: string, ct: string, compression: string, draws: seq<seq<nat>>)
    returns (names: seq<string>, taken: nat, raised: bool)
    requires |draws| >= |queue| && forall k :: 0 <= k < |queue| ==> Sample(draws[k])
    ensures raised <==> FirstQuit(queue) > 0 && SnowballTarName(prefix, ct, "", compression).None?
    ensures raised ==> names == [] && taken == 1
    ensures !raised ==>
              taken == (if FirstQuit(queue) < |queue| then FirstQuit(queue) + 1 else |queue|)
              && |names| == FirstQuit(queue)
              && forall k :: 0 <= k < |names| ==> Some(names[k]) == SnowballTarName(prefix, ct, GenRandChar(draws[k]), compression)
  {
    names := [];
    var i := 0;
    while i < |queue|
      invariant 0 <= i <= FirstQuit(queue) && |names| == i
      invariant i > 0 ==> SnowballTarName(prefix, ct, "", compression).Some?
      invariant forall k :: 0 <= k < i ==> Some(names[k]) == SnowballTarName(prefix, ct, GenRandChar(draws[k]), compression)
    {
      var randchar := GenRandChar(draws[i]);
      var tarName := SnowballTarName(prefix, ct, randchar, compression);
      if queue[i].Quit? {
        return names, i + 1, false;
      }
      if tarName.None? {
        return [], 1, true;
      }
      names := names + [tarName.value];
      i := i + 1;
    }
    taken, raised := i, false;
  }
}
