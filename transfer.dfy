/**
 * Moving an archive to S3: the multipart upload of archivers/s32s3archiver.py,
 * which reads the tar buffer part by part, and the two retrying single uploads
 * (archivers/s32s3archiver.py and web_app/archivers/fs2s3archiver.py). S3 itself
 * is a parameter: whether an attempt succeeds, the ETag a part gets.
 */
module Transfer {
  import opened Stats

  newtype Byte = x: int | 0 <= x < 256

  /** An in-memory file object (io.BytesIO): its bytes and the read position. */
  class Buffer {
    var data: seq<Byte>
    var pos: nat

    ghost predicate Valid()
      reads this
    {
      pos <= |data|
    }

    constructor(data: seq<Byte>)
      ensures Valid() && this.data == data && pos == 0
    {
      this.data := data;
      pos := 0;
    }

    /** read(n): up to n bytes from the position, fewer only at the end. */
    method Read(n: nat) returns (chunk: seq<Byte>)
      requires Valid()
      modifies this
      ensures Valid() && data == old(data)
      ensures chunk == old(data[pos..if pos + n <= |data| then pos + n else |data|])
      ensures pos == old(pos) + |chunk|
    {
      var end := if pos + n <= |data| then pos + n else |data|;
      chunk := data[pos..end];
      pos := end;
    }

    /** seek(0). */
    method Rewind()
      requires Valid()
      modifies this
      ensures Valid() && data == old(data) && pos == 0
    {
      pos := 0;
    }
  }

  // ---------------------------------------------------------------- multipart upload

  /** The pieces read(n) hands out one after another until it returns nothing. */
  function Chunks(s: seq<Byte>, n: nat): seq<seq<Byte>>
    requires n > 0
    decreases |s|
  {
    if |s| == 0 then []
    else if |s| <= n then [s]
    else [s[..n]] + Chunks(s[n..], n)
  }

  function Concat(cs: seq<seq<Byte>>): seq<Byte>
  {
    if |cs| == 0 then [] else cs[0] + Concat(cs[1..])
  }

  /** The chunks put back together are the stream. */
  lemma {:induction false} ChunksConcat(s: seq<Byte>, n: nat)
    requires n > 0
    ensures Concat(Chunks(s, n)) == s
    decreases |s|
  {
    if |s| > n {
      ChunksConcat(s[n..], n);
      assert s[..n] + s[n..] == s;
    } else if |s| > 0 {
      assert [s][1..] == [];
    }
  }

  /** Every chunk is non-empty and at most n bytes, and all but the last are exactly n. */
  lemma {:induction false} ChunksSizes(s: seq<Byte>, n: nat)
    requires n > 0
    ensures forall k :: 0 <= k < |Chunks(s, n)| ==> 0 < |Chunks(s, n)[k]| <= n
    ensures forall k :: 0 <= k < |Chunks(s, n)| - 1 ==> |Chunks(s, n)[k]| == n
    decreases |s|
  {
    if |s| > n {
      ChunksSizes(s[n..], n);
      var rest := Chunks(s[n..], n);
      assert forall k :: 0 <= k < |rest| ==> 0 < |rest[k]| <= n;
      assert forall k :: 0 <= k < |rest| - 1 ==> |rest[k]| == n;
      assert Chunks(s, n) == [s[..n]] + rest;
    }
  }

  /** A chunk that was read in full (or reached the end) is the first chunk of what it starts. */
  lemma ChunksCons(c: seq<Byte>, tail: seq<Byte>, n: nat)
    requires n > 0 && 0 < |c| <= n && (|c| == n || tail == [])
    ensures Chunks(c + tail, n) == [c] + Chunks(tail, n)
  {
    var s := c + tail;
    if tail == [] {
      assert s == c;
    } else {
      assert s[..n] == c && s[n..] == tail;
    }
  }

  /** Taking the next chunk off the unread bytes keeps the chunks seen so far a prefix of all of them. */
  lemma ChunksStep(all: seq<Byte>, start: nat, pos: nat, n: nat, bodies: seq<seq<Byte>>, rest: seq<Byte>)
    requires n > 0 && start < pos <= |all| && pos - start <= n && (pos - start == n || pos == |all|)
    requires bodies + Chunks(all[start..], n) == Chunks(rest, n)
    ensures (bodies + [all[start..pos]]) + Chunks(all[pos..], n) == Chunks(rest, n)
  {
    assert all[start..] == all[start..pos] + all[pos..];
    ChunksCons(all[start..pos], all[pos..], n);
  }

  /** One uploaded part: its number, its body and the ETag S3 gave it. */
  datatype Part = Part(number: nat, body: seq<Byte>, etag: string)

  function Bodies(parts: seq<Part>): seq<seq<Byte>>
  {
    seq(|parts|, k requires 0 <= k < |parts| => parts[k].body)
  }

  lemma BodiesSnoc(parts: seq<Part>, p: Part)
    ensures Bodies(parts + [p]) == Bodies(parts) + [p.body]
  {
  }

  predicate Numbered(parts: seq<Part>, etag: (nat, seq<Byte>) -> string)
  {
    forall k :: 0 <= k < |parts| ==> parts[k].number == k + 1 && parts[k].etag == etag(k + 1, parts[k].body)
  }

  /**
   * Midway through the upload: data is the piece just read, ending at pos, and the
   * parts uploaded so far followed by the chunks from data on are the chunks of rest.
   */
  predicate Uploading(all: seq<Byte>, pos: nat, data: seq<Byte>, parts: seq<Part>, rest: seq<Byte>,
                      n: nat, etag: (nat, seq<Byte>) -> string)
  {
    n > 0 && |data| <= pos <= |all| && |data| <= n && data == all[pos - |data|..pos]
    && (|data| == n || pos == |all|)
    && Numbered(parts, etag)
    && Bodies(parts) + Chunks(all[pos - |data|..], n) == Chunks(rest, n)
  }

  /** Uploading the piece just read as the next part and reading the following one keeps the upload on track. */
  lemma UploadStep(all: seq<Byte>, pos: nat, data: seq<Byte>, parts: seq<Part>, rest: seq<Byte>,
                   n: nat, etag: (nat, seq<Byte>) -> string, i: nat, next: seq<Byte>, pos': nat)
    requires Uploading(all, pos, data, parts, rest, n, etag) && data != [] && i == |parts| + 1
    requires next == all[pos..if pos + n <= |all| then pos + n else |all|] && pos' == pos + |next|
    ensures Uploading(all, pos', next, parts + [Part(i, data, etag(i, data))], rest, n, etag)
  {
    var p := Part(i, data, etag(i, data));
    ChunksStep(all, pos - |data|, pos, n, Bodies(parts), rest);
    BodiesSnoc(parts, p);
    assert Numbered(parts + [p], etag) by {
      assert forall k :: 0 <= k < |parts| ==> (parts + [p])[k] == parts[k];
    }
    assert all[pos' - |next|..pos'] == next;
  }

  /**
   * _multipart_upload: read part_size bytes at a time, upload each non-empty piece
   * as part i = 1, 2, ..., stop at the first empty read, and complete with the
   * parts in order. The parts are the chunks of what the buffer held from its
   * position on, and the buffer ends at its end.
   */
  method MultipartUpload(buf: Buffer, partSize: nat, etag: (nat, seq<Byte>) -> string) returns (parts: seq<Part>)
    requires buf.Valid()
    modifies buf
    ensures buf.Valid() && buf.data == old(buf.data)
    ensures Numbered(parts, etag)
    ensures partSize > 0 ==> Bodies(parts) == Chunks(old(buf.data[buf.pos..]), partSize) && buf.pos == |buf.data|
    ensures partSize == 0 ==> parts == [] && buf.pos == old(buf.pos)
  {
    parts := [];
    var i := 1;
    var data := buf.Read(partSize);
    if partSize == 0 {
      assert data == [];
      return;
    }
    ghost var rest := old(buf.data[buf.pos..]);
    assert buf.data[buf.pos - |data|..] == rest;
    while data != []
      invariant buf.Valid() && buf.data == old(buf.data)
      invariant i == |parts| + 1
      invariant Uploading(buf.data, buf.pos, data, parts, rest, partSize, etag)
      decreases |buf.data| - buf.pos + |data|
    {
      ghost var pos := buf.pos;
      var next := buf.Read(partSize);
      UploadStep(buf.data, pos, data, parts, rest, partSize, etag, i, next, buf.pos);
      parts := parts + [Part(i, data, etag(i, data))];
      i := i + 1;
      data := next;
    }
    assert buf.data[buf.pos..] == [];
    assert Bodies(parts) + [] == Bodies(parts);
  }

  /** The completed upload holds the buffer's bytes, in parts of at most part_size numbered from 1. */
  lemma MultipartComplete(s: seq<Byte>, partSize: nat, parts: seq<Part>)
    requires partSize > 0 && Bodies(parts) == Chunks(s, partSize)
    ensures Concat(Bodies(parts)) == s
    ensures forall k :: 0 <= k < |parts| ==> 0 < |parts[k].body| <= partSize
    ensures forall k :: 0 <= k < |parts| - 1 ==> |parts[k].body| == partSize
  {
    ChunksConcat(s, partSize);
    ChunksSizes(s, partSize);
    assert forall k :: 0 <= k < |parts| ==> parts[k].body == Bodies(parts)[k];
  }

  // ---------------------------------------------------------------- retried uploads

  /** How an upload call ended. */
  datatype Attempt = Ok | ClientFailure | OtherFailure

  /** The upload returned after some attempts, or raised the error of its last attempt. */
  datatype Retry = Returned(attempts: nat) | Reraised(attempts: nat)

  /**
   * _upload_with_retry of archivers/s32s3archiver.py from attempt k on: try, return
   * on success, re-raise on the last attempt, otherwise go on. Every exception is
   * retried. With no attempts allowed the loop does not run and the call returns.
   */
  function S32s3Retry(maxRetries: nat, attempt: nat -> Attempt, k: nat): (r: Retry)
    requires k <= maxRetries
    ensures k <= r.attempts <= maxRetries
    decreases maxRetries - k
  {
    if k == maxRetries then Returned(k)
    else if attempt(k).Ok? then Returned(k + 1)
    else if k == maxRetries - 1 then Reraised(maxRetries)
    else S32s3Retry(maxRetries, attempt, k + 1)
  }

  /**
   * _upload_with_retry of web_app/archivers/fs2s3archiver.py from attempt k on: only
   * a ClientError is retried; any other exception leaves at once.
   */
  function Fs2s3Retry(maxRetries: nat, attempt: nat -> Attempt, k: nat): (r: Retry)
    requires k <= maxRetries
    ensures k <= r.attempts <= maxRetries
    decreases maxRetries - k
  {
    if k == maxRetries then Returned(k)
    else if attempt(k).Ok? then Returned(k + 1)
    else if attempt(k).OtherFailure? || k == maxRetries - 1 then Reraised(k + 1)
    else Fs2s3Retry(maxRetries, attempt, k + 1)
  }

  /** The waits 2 ** k after each retried ClientError, from attempt k on. */
  function Fs2s3Waits(maxRetries: nat, attempt: nat -> Attempt, k: nat): seq<nat>
    requires k <= maxRetries
    decreases maxRetries - k
  {
    if k == maxRetries || attempt(k).Ok? || attempt(k).OtherFailure? || k == maxRetries - 1 then []
    else [Pow2(k)] + Fs2s3Waits(maxRetries, attempt, k + 1)
  }

  function Pow2(k: nat): (p: nat)
    ensures p >= 1
  {
    if k == 0 then 1 else 2 * Pow2(k - 1)
  }

  predicate FailedBefore(attempt: nat -> Attempt, n: nat)
  {
    forall j :: 0 <= j < n ==> !attempt(j).Ok?
  }

  /**
   * The s32s3 helper makes at most max_retries attempts and returns exactly when
   * some attempt succeeds before they run out (or none is allowed); it then made
   * one attempt more than the failures before the first success.
   */
  lemma {:induction false} S32s3RetryMeaning(maxRetries: nat, attempt: nat -> Attempt, k: nat)
    requires k <= maxRetries
    ensures var r := S32s3Retry(maxRetries, attempt, k);
      (r.Reraised? <==> k < maxRetries && forall j :: k <= j < maxRetries ==> !attempt(j).Ok?)
      && (r.Returned? && r.attempts > k ==>
            attempt(r.attempts - 1).Ok? && forall j :: k <= j < r.attempts - 1 ==> !attempt(j).Ok?)
      && (r.Reraised? ==> r.attempts == maxRetries)
    decreases maxRetries - k
  {
    if k < maxRetries && !attempt(k).Ok? && k != maxRetries - 1 {
      S32s3RetryMeaning(maxRetries, attempt, k + 1);
    }
  }

  /**
   * The fs2s3 helper re-raises after a non-ClientError at once, or after max_retries
   * ClientErrors in a row; it waited 2 ** j after each retried attempt j.
   */
  lemma {:induction false} Fs2s3RetryMeaning(maxRetries: nat, attempt: nat -> Attempt, k: nat)
    requires k <= maxRetries
    ensures var r := Fs2s3Retry(maxRetries, attempt, k);
      var w := Fs2s3Waits(maxRetries, attempt, k);
      (r.Reraised? ==>
         k < r.attempts && !attempt(r.attempts - 1).Ok?
         && (attempt(r.attempts - 1).ClientFailure? ==> r.attempts == maxRetries)
         && forall j :: k <= j < r.attempts - 1 ==> attempt(j).ClientFailure?)
      && (r.Returned? && r.attempts > k ==> attempt(r.attempts - 1).Ok?)
      && |w| + 1 == r.attempts - k + (if r.attempts == k then 1 else 0)
      && forall j :: 0 <= j < |w| ==> w[j] == Pow2(k + j)
    decreases maxRetries - k
  {
    if k < maxRetries && !attempt(k).Ok? && !attempt(k).OtherFailure? && k != maxRetries - 1 {
      Fs2s3RetryMeaning(maxRetries, attempt, k + 1);
      var w := Fs2s3Waits(maxRetries, attempt, k);
      assert forall j :: 1 <= j < |w| ==> w[j] == Fs2s3Waits(maxRetries, attempt, k + 1)[j - 1];
    }
  }

  /**
   * archivers/s32s3archiver.py _upload_with_retry: attempt k sends the buffer from
   * its position; a failed attempt leaves the position wherever the client stopped
   * reading (stop), and the buffer is rewound before the next one. sent lists what
   * each attempt was handed.
   */
  method S32s3UploadWithRetry(buf: Buffer, maxRetries: nat, attempt: nat -> Attempt, stop: nat -> nat)
    returns (r: Retry, sent: seq<seq<Byte>>)
    requires buf.Valid()
    modifies buf
    ensures buf.Valid() && buf.data == old(buf.data)
    ensures r == S32s3Retry(maxRetries, attempt, 0) && |sent| == r.attempts
    ensures |sent| > 0 ==> sent[0] == old(buf.data[buf.pos..])
    ensures forall k :: 1 <= k < |sent| ==> sent[k] == buf.data
  {
    sent := [];
    var k := 0;
    while k < maxRetries
      invariant 0 <= k <= maxRetries && |sent| == k
      invariant buf.Valid() && buf.data == old(buf.data)
      invariant S32s3Retry(maxRetries, attempt, 0) == S32s3Retry(maxRetries, attempt, k)
      invariant k > 0 ==> buf.pos == 0
      invariant k == 0 ==> buf.pos == old(buf.pos)
      invariant |sent| > 0 ==> sent[0] == old(buf.data[buf.pos..])
      invariant forall j :: 1 <= j < |sent| ==> sent[j] == buf.data
    {
      sent := sent + [buf.data[buf.pos..]];
      if attempt(k).Ok? {
        buf.pos := |buf.data|;
        return Returned(k + 1), sent;
      }
      buf.pos := if stop(k) <= |buf.data| then stop(k) else |buf.data|;
      if k == maxRetries - 1 {
        return Reraised(maxRetries), sent;
      }
      buf.Rewind();
      k := k + 1;
    }
    r := Returned(k);
  }

  /** One attempt of the fs2s3 helper: how it ends the call, or the wait before the next. */
  lemma Fs2s3Step(maxRetries: nat, attempt: nat -> Attempt, k: nat)
    requires k < maxRetries
    ensures var r, w := Fs2s3Retry(maxRetries, attempt, k), Fs2s3Waits(maxRetries, attempt, k);
      if attempt(k).Ok? then r == Returned(k + 1) && w == []
      else if attempt(k).OtherFailure? || k == maxRetries - 1 then r == Reraised(k + 1) && w == []
      else r == Fs2s3Retry(maxRetries, attempt, k + 1) && w == [Pow2(k)] + Fs2s3Waits(maxRetries, attempt, k + 1)
  {
  }

  /**
   * web_app/archivers/fs2s3archiver.py _upload_with_retry: rewind before every
   * attempt, sleep 2 ** k after a retried ClientError, and count one failed file
   * when the last attempt fails with a ClientError.
   */
  method Fs2s3UploadWithRetry(buf: Buffer, totals: Totals, maxRetries: nat, attempt: nat -> Attempt)
    returns (r: Retry, sent: seq<seq<Byte>>, waits: seq<nat>)
    requires buf.Valid()
    modifies buf, totals
    ensures buf.Valid() && buf.data == old(buf.data)
    ensures r == Fs2s3Retry(maxRetries, attempt, 0) && waits == Fs2s3Waits(maxRetries, attempt, 0)
    ensures |sent| == r.attempts && forall k :: 0 <= k < |sent| ==> sent[k] == buf.data
    ensures totals.failed == old(totals.failed) + (if r.Reraised? && attempt(r.attempts - 1).ClientFailure? then 1 else 0)
    ensures totals.files == old(totals.files) && totals.tars == old(totals.tars)
    ensures totals.manifests == old(totals.manifests)
  {
    sent, waits := [], [];
    var k := 0;
    while k < maxRetries
      invariant 0 <= k <= maxRetries && |sent| == k
      invariant buf.Valid() && buf.data == old(buf.data)
      invariant Fs2s3Retry(maxRetries, attempt, 0) == Fs2s3Retry(maxRetries, attempt, k)
      invariant Fs2s3Waits(maxRetries, attempt, 0) == waits + Fs2s3Waits(maxRetries, attempt, k)
      invariant forall j :: 0 <= j < |sent| ==> sent[j] == buf.data
      invariant totals.failed == old(totals.failed) && totals.files == old(totals.files)
      invariant totals.tars == old(totals.tars) && totals.manifests == old(totals.manifests)
    {
      Fs2s3Step(maxRetries, attempt, k);
      buf.Rewind();
      sent := sent + [buf.data[buf.pos..]];
      var outcome := attempt(k);
      if outcome.Ok? {
        buf.pos := |buf.data|;
        assert waits + [] == waits;
        return Returned(k + 1), sent, waits;
      }
      if outcome.OtherFailure? {
        assert waits + [] == waits;
        return Reraised(k + 1), sent, waits;
      }
      if k < maxRetries - 1 {
        assert waits + ([Pow2(k)] + Fs2s3Waits(maxRetries, attempt, k + 1))
            == (waits + [Pow2(k)]) + Fs2s3Waits(maxRetries, attempt, k + 1);
        waits := waits + [Pow2(k)];
      } else {
        totals.CountFailed(1);
        assert waits + [] == waits;
        return Reraised(k + 1), sent, waits;
      }
      k := k + 1;
    }
    r := Returned(k);
    assert waits + [] == waits;
  }
}
