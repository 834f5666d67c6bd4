/**
 * How the archivers cut a list of files into tar batches. Three policies occur:
 *
 *  (a) append, then test `len >= max_files` or `total >= max_size`, and send the
 *      batch right after the file that meets the test; the leftover is sent only
 *      if non-empty (the v2 archivers);
 *  (b) test before appending, flushing when the batch already holds `max`
 *      files or when `total + next > max`; the leftover is flushed only if
 *      non-empty (v1 and the `archivers` packages);
 *  (c) a running counter (1 + files, or 0 + bytes) is compared with `max < n`
 *      after appending, the batch is sent including the triggering file, the
 *      counter is reset, and the remainder is queued unconditionally (the
 *      single-file scripts).
 *
 * Each policy is a function over the sequence of files and a method with the
 * source's loop proved equal to it; the lemmas state the partition properties.
 */
module Batching {
  import opened Wrappers

  /** A file with its size in bytes, as the walk or listing reports it. */
  datatype Item = Item(name: string, size: nat)

  /** The sum of the sizes. */
  function Total(b: seq<Item>): nat
  {
    if |b| == 0 then 0 else Total(b[..|b| - 1]) + b[|b| - 1].size
  }

  lemma TotalAppend(b: seq<Item>, f: Item)
    ensures Total(b + [f]) == Total(b) + f.size
  {
    assert (b + [f])[..|b|] == b;
  }

  /** The batches concatenated. */
  function Flatten(bs: seq<seq<Item>>): seq<Item>
  {
    if |bs| == 0 then [] else bs[0] + Flatten(bs[1..])
  }

  /** The entries whose size lookup succeeded (None: the lookup raised and the file is skipped). */
  function Present(xs: seq<Option<Item>>): seq<Item>
  {
    if |xs| == 0 then []
    else (if xs[0].Some? then [xs[0].value] else []) + Present(xs[1..])
  }

  lemma {:induction false} PresentLength(xs: seq<Option<Item>>)
    ensures |Present(xs)| <= |xs|
  {
    if |xs| > 0 {
      PresentLength(xs[1..]);
    }
  }

  // ================================================================ (a) check after appending

  datatype Limit = MaxFiles(files: int) | MaxSize(bytes: int)

  datatype ConfigError = BothLimits | NoLimit

  /** The constructor's check: exactly one of --max-files and --max-size. */
  function ValidateLimit(maxFiles: Option<int>, maxSize: Option<int>): (r: Result<Limit, ConfigError>)
    ensures r.Success? <==> (maxFiles.Some? != maxSize.Some?)
    ensures r.Success? && maxFiles.Some? ==> r.value == MaxFiles(maxFiles.value)
    ensures r.Success? && maxSize.Some? ==> r.value == MaxSize(maxSize.value)
    ensures r == Failure(BothLimits) <==> maxFiles.Some? && maxSize.Some?
  {
    if maxFiles.Some? && maxSize.Some? then Failure(BothLimits)
    else if maxFiles.None? && maxSize.None? then Failure(NoLimit)
    else if maxFiles.Some? then Success(MaxFiles(maxFiles.value))
    else Success(MaxSize(maxSize.value))
  }

  /** _should_send_batch: the batch is complete. */
  predicate Full(limit: Limit, b: seq<Item>)
  {
    match limit
    case MaxFiles(n) => |b| >= n
    case MaxSize(n) => Total(b) >= n
  }

  /**
   * The s3s3 archiver tests `if self.max_files_per_tar:`, so a zero file limit
   * falls through to the size test; with no size limit that comparison raises
   * (None is returned).
   */
  function S3Limit(maxFiles: Option<int>, maxSize: Option<int>): (r: Option<Limit>)
    ensures maxFiles.Some? && maxFiles.value != 0 ==> r == Some(MaxFiles(maxFiles.value))
    ensures (maxFiles.None? || maxFiles.value == 0) ==>
      (r.Some? <==> maxSize.Some?) && (r.Some? ==> r.value == MaxSize(maxSize.value))
  {
    if maxFiles.Some? && maxFiles.value != 0 then Some(MaxFiles(maxFiles.value))
    else if maxSize.Some? then Some(MaxSize(maxSize.value))
    else None
  }

  /** Policy (a) from a partial batch `cur`. */
  function AfterAcc(limit: Limit, cur: seq<Item>, rest: seq<Item>): seq<seq<Item>>
    decreases |rest|
  {
    if |rest| == 0 then (if cur == [] then [] else [cur])
    else if Full(limit, cur + [rest[0]]) then [cur + [rest[0]]] + AfterAcc(limit, [], rest[1..])
    else AfterAcc(limit, cur + [rest[0]], rest[1..])
  }

  function BatchesAfter(limit: Limit, items: seq<Item>): seq<seq<Item>>
  {
    AfterAcc(limit, [], items)
  }

  /** FileBatch of the v2 archivers. */
  datatype FileBatch = FileBatch(files: seq<Item>, number: int, totalSize: nat, fileCount: nat)

  function Contents(bs: seq<FileBatch>): seq<seq<Item>>
  {
    if |bs| == 0 then [] else Contents(bs[..|bs| - 1]) + [bs[|bs| - 1].files]
  }

  lemma ContentsAppend(bs: seq<FileBatch>, b: FileBatch)
    ensures Contents(bs + [b]) == Contents(bs) + [b.files]
  {
    assert (bs + [b])[..|bs|] == bs;
  }

  /** Batch numbers run first, first+1, ...; size and count describe the files. */
  predicate Numbered(bs: seq<FileBatch>, first: int)
  {
    forall k :: 0 <= k < |bs| ==>
      bs[k].number == first + k && bs[k].totalSize == Total(bs[k].files) && bs[k].fileCount == |bs[k].files|
  }

  /**
   * One file through the producer: append, test, maybe send. `rest` and
   * `first` are the files still to come and the first batch number, for the
   * loop's invariants.
   */
  method SendIfFull(limit: Limit, batches: seq<FileBatch>, current: seq<Item>, currentSize: nat,
                    number: int, f: Item, ghost rest: seq<Item>, ghost first: int)
      returns (batches': seq<FileBatch>, current': seq<Item>, currentSize': nat, number': int)
    requires currentSize == Total(current)
    requires Numbered(batches, first) && number == first + |batches|
    ensures Contents(batches') + AfterAcc(limit, current', rest)
         == Contents(batches) + AfterAcc(limit, current, [f] + rest)
    ensures Numbered(batches', first) && number' == first + |batches'|
    ensures currentSize' == Total(current')
  {
    AfterStep(limit, current, f, rest);
    current' := current + [f];
    currentSize' := currentSize + f.size;
    TotalAppend(current, f);
    number' := number;
    batches' := batches;
    if Full(limit, current') {
      var b := FileBatch(current', number, currentSize', |current'|);
      batches' := batches + [b];
      ContentsAppend(batches, b);
      assert Contents(batches') + AfterAcc(limit, [], rest)
          == Contents(batches) + ([current'] + AfterAcc(limit, [], rest));
      number' := number + 1;
      current' := [];
      currentSize' := 0;
    }
  }

  /** AfterAcc over a non-empty rest is one step followed by the rest. */
  lemma AfterStep(limit: Limit, cur: seq<Item>, f: Item, rest: seq<Item>)
    ensures AfterAcc(limit, cur, [f] + rest) ==
      if Full(limit, cur + [f]) then [cur + [f]] + AfterAcc(limit, [], rest)
      else AfterAcc(limit, cur + [f], rest)
  {
    assert ([f] + rest)[0] == f;
    assert ([f] + rest)[1..] == rest;
  }

  lemma PresentStep(xs: seq<Option<Item>>, i: nat)
    requires i < |xs|
    ensures Present(xs[i..]) == (if xs[i].Some? then [xs[i].value] else []) + Present(xs[i + 1..])
  {
    assert xs[i..][0] == xs[i];
    assert xs[i..][1..] == xs[i + 1..];
  }

  /**
   * _file_list_producer of the v2 archivers, with send_batch. Entries whose
   * size lookup fails are skipped (fss3 counts them as failed, fsfs drops
   * them); `found` counts the others.
   */
  method ProduceAfter(limit: Limit, entries: seq<Option<Item>>, first: int)
      returns (batches: seq<FileBatch>, found: nat, skipped: nat)
    ensures Contents(batches) == BatchesAfter(limit, Present(entries))
    ensures Numbered(batches, first)
    ensures found == |Present(entries)| && found + skipped == |entries|
  {
    batches := [];
    var current: seq<Item> := [];
    var currentSize: nat := 0;
    var number := first;
    found, skipped := 0, 0;
    PresentLength(entries);
    for i := 0 to |entries|
      invariant Contents(batches) + AfterAcc(limit, current, Present(entries[i..]))
             == BatchesAfter(limit, Present(entries))
      invariant Numbered(batches, first) && number == first + |batches|
      invariant currentSize == Total(current)
      invariant found + |Present(entries[i..])| == |Present(entries)| && found + skipped == i
    {
      PresentStep(entries, i);
      ghost var rest := Present(entries[i + 1..]);
      if entries[i].None? {
        assert Present(entries[i..]) == rest;
        skipped := skipped + 1;
      } else {
        var f := entries[i].value;
        assert Present(entries[i..]) == [f] + rest;
        var batches', current', currentSize', number' :=
          SendIfFull(limit, batches, current, currentSize, number, f, rest, first);
        batches, current, currentSize, number := batches', current', currentSize', number';
        found := found + 1;
      }
    }
    assert entries[|entries|..] == [];
    if current != [] {
      ContentsAppend(batches, FileBatch(current, number, currentSize, |current|));
      batches := batches + [FileBatch(current, number, currentSize, |current|)];
    }
  }

  /**
   * The s3s3 producer: numbers start at 1; when the size test raises, the
   * first object ends the producer with nothing queued.
   */
  method ProduceS3(maxFiles: Option<int>, maxSize: Option<int>, objects: seq<Item>)
      returns (batches: seq<FileBatch>, raised: bool)
    ensures S3Limit(maxFiles, maxSize).None? ==> batches == [] && (raised <==> |objects| > 0)
    ensures S3Limit(maxFiles, maxSize).Some? ==>
      !raised && Contents(batches) == BatchesAfter(S3Limit(maxFiles, maxSize).value, objects) &&
      Numbered(batches, 1)
  {
    var limit := S3Limit(maxFiles, maxSize);
    if limit.None? {
      batches := [];
      raised := |objects| > 0;
      return;
    }
    var entries := SomeAll(objects);
    var found, skipped;
    batches, found, skipped := ProduceAfter(limit.value, entries, 1);
    raised := false;
  }

  function SomeAll(xs: seq<Item>): (r: seq<Option<Item>>)
    ensures Present(r) == xs
  {
    if |xs| == 0 then [] else [Some(xs[0])] + SomeAll(xs[1..])
  }

  // ---------------------------------------------------------------- properties of (a)

  lemma {:induction false} AfterAccFlatten(limit: Limit, cur: seq<Item>, rest: seq<Item>)
    ensures Flatten(AfterAcc(limit, cur, rest)) == cur + rest
    decreases |rest|
  {
    if |rest| == 0 {
      assert cur + rest == cur;
    } else {
      var c := cur + [rest[0]];
      assert c + rest[1..] == cur + rest;
      if Full(limit, c) {
        AfterAccFlatten(limit, [], rest[1..]);
        assert ([c] + AfterAcc(limit, [], rest[1..]))[1..] == AfterAcc(limit, [], rest[1..]);
      } else {
        AfterAccFlatten(limit, c, rest[1..]);
      }
    }
  }

  /** The v2 batches concatenate to the input, in order. */
  lemma AfterFlatten(limit: Limit, items: seq<Item>)
    ensures Flatten(BatchesAfter(limit, items)) == items
  {
    AfterAccFlatten(limit, [], items);
  }

  /** No non-empty prefix of `b` up to length `n` meets the criterion. */
  predicate NoFullPrefix(limit: Limit, b: seq<Item>, n: int)
  {
    forall j :: 1 <= j <= n && j <= |b| ==> !Full(limit, b[..j])
  }

  /**
   * Policy (a)'s partition: no batch is empty, no proper prefix of a batch meets
   * the criterion, and every batch but the last does: each batch is the
   * shortest prefix of what remains that is complete.
   */
  predicate ShortestComplete(limit: Limit, r: seq<seq<Item>>)
  {
    forall k :: 0 <= k < |r| ==>
      r[k] != [] && NoFullPrefix(limit, r[k], |r[k]| - 1) && (k < |r| - 1 ==> Full(limit, r[k]))
  }

  lemma {:induction false} AfterAccShape(limit: Limit, cur: seq<Item>, rest: seq<Item>)
    requires NoFullPrefix(limit, cur, |cur|)
    ensures ShortestComplete(limit, AfterAcc(limit, cur, rest))
    decreases |rest|
  {
    if |rest| > 0 {
      var c := cur + [rest[0]];
      forall j | 1 <= j <= |cur| ensures c[..j] == cur[..j] {
      }
      if Full(limit, c) {
        AfterAccShape(limit, [], rest[1..]);
        var tail := AfterAcc(limit, [], rest[1..]);
        var r := [c] + tail;
        assert r == AfterAcc(limit, cur, rest);
        forall k | 0 <= k < |r|
          ensures r[k] != [] && NoFullPrefix(limit, r[k], |r[k]| - 1) && (k < |r| - 1 ==> Full(limit, r[k]))
        {
          if k > 0 {
            assert r[k] == tail[k - 1];
          }
        }
      } else {
        assert c[..|c|] == c;
        AfterAccShape(limit, c, rest[1..]);
      }
    }
  }

  lemma AfterShape(limit: Limit, items: seq<Item>)
    ensures ShortestComplete(limit, BatchesAfter(limit, items))
  {
    AfterAccShape(limit, [], items);
  }

  /** Count mode: every batch but the last has exactly max_files files, the last at most that. */
  lemma AfterCountExact(n: int, items: seq<Item>)
    requires n >= 1
    ensures var r := BatchesAfter(MaxFiles(n), items);
      (forall k :: 0 <= k < |r| - 1 ==> |r[k]| == n) &&
      (|r| > 0 ==> 1 <= |r[|r| - 1]| <= n)
  {
    var r := BatchesAfter(MaxFiles(n), items);
    AfterShape(MaxFiles(n), items);
    forall k | 0 <= k < |r| ensures 1 <= |r[k]| <= n {
      if |r[k]| >= 2 {
        assert |r[k][..|r[k]| - 1]| == |r[k]| - 1;
      }
    }
  }

  // ================================================================ (b) check before appending

  /** The combine option of v1 and of the archivers package, with its limit. */
  datatype Combine = ByCount(maxFiles: int) | BySize(maxSize: int)

  /** The flush test made before a file of `size` bytes is appended to `cur`. */
  predicate FlushBefore(comb: Combine, cur: seq<Item>, size: nat)
  {
    match comb
    case ByCount(m) => |cur| >= m
    case BySize(m) => Total(cur) + size > m
  }

  function BeforeAcc(comb: Combine, cur: seq<Item>, rest: seq<Item>): seq<seq<Item>>
    decreases |rest|
  {
    if |rest| == 0 then (if cur == [] then [] else [cur])
    else if FlushBefore(comb, cur, rest[0].size) then [cur] + BeforeAcc(comb, [rest[0]], rest[1..])
    else BeforeAcc(comb, cur + [rest[0]], rest[1..])
  }

  function BatchesBefore(comb: Combine, items: seq<Item>): seq<seq<Item>>
  {
    BeforeAcc(comb, [], items)
  }

  lemma BeforeStep(comb: Combine, cur: seq<Item>, rest: seq<Item>)
    requires |rest| > 0
    ensures BeforeAcc(comb, cur, rest) ==
      if FlushBefore(comb, cur, rest[0].size) then [cur] + BeforeAcc(comb, [rest[0]], rest[1..])
      else BeforeAcc(comb, cur + [rest[0]], rest[1..])
  {
  }

  /**
   * process_files (v1 s3archiver) and the batching loop of `run` in the
   * archivers package. v1 does not reset the running size in the count branch;
   * the size is read only in size mode, so the batches are the same.
   */
  method ProcessBefore(comb: Combine, files: seq<Item>) returns (batches: seq<seq<Item>>)
    ensures batches == BatchesBefore(comb, files)
  {
    batches := [];
    var current: seq<Item> := [];
    var currentSize: nat := 0;
    for i := 0 to |files|
      invariant batches + BeforeAcc(comb, current, files[i..]) == BatchesBefore(comb, files)
      invariant comb.BySize? ==> currentSize == Total(current)
    {
      var f := files[i];
      assert files[i..][0] == f && files[i..][1..] == files[i + 1..];
      BeforeStep(comb, current, files[i..]);
      if comb.ByCount? && |current| >= comb.maxFiles {
        batches := batches + [current];
        current := [];
      } else if comb.BySize? && currentSize + f.size > comb.maxSize {
        batches := batches + [current];
        current := [];
        currentSize := 0;
      }
      TotalAppend(current, f);
      current := current + [f];
      currentSize := currentSize + f.size;
    }
    assert files[|files|..] == [];
    if current != [] {
      batches := batches + [current];
    }
  }

  // ---------------------------------------------------------------- properties of (b)

  lemma {:induction false} BeforeAccFlatten(comb: Combine, cur: seq<Item>, rest: seq<Item>)
    ensures Flatten(BeforeAcc(comb, cur, rest)) == cur + rest
    decreases |rest|
  {
    if |rest| == 0 {
      assert cur + rest == cur;
    } else if FlushBefore(comb, cur, rest[0].size) {
      BeforeAccFlatten(comb, [rest[0]], rest[1..]);
      assert ([cur] + BeforeAcc(comb, [rest[0]], rest[1..]))[1..] == BeforeAcc(comb, [rest[0]], rest[1..]);
      assert [rest[0]] + rest[1..] == rest;
    } else {
      BeforeAccFlatten(comb, cur + [rest[0]], rest[1..]);
      assert cur + [rest[0]] + rest[1..] == cur + rest;
    }
  }

  /** The batches concatenate to the file list, in order (an empty batch adds nothing). */
  lemma BeforeFlatten(comb: Combine, items: seq<Item>)
    ensures Flatten(BatchesBefore(comb, items)) == items
  {
    BeforeAccFlatten(comb, [], items);
  }

  predicate NonEmptyFrom(r: seq<seq<Item>>, start: nat)
  {
    forall k :: start <= k < |r| ==> r[k] != []
  }

  /** The first batch starts with a non-empty partial batch. */
  lemma {:induction false} BeforeAccHead(comb: Combine, cur: seq<Item>, rest: seq<Item>)
    requires cur != []
    ensures |BeforeAcc(comb, cur, rest)| > 0
    ensures var r0 := BeforeAcc(comb, cur, rest)[0]; |r0| >= |cur| && r0[..|cur|] == cur
    decreases |rest|
  {
    if |rest| > 0 && !FlushBefore(comb, cur, rest[0].size) {
      var c := cur + [rest[0]];
      BeforeAccHead(comb, c, rest[1..]);
      var r0 := BeforeAcc(comb, c, rest[1..])[0];
      assert r0[..|cur|] == r0[..|c|][..|cur|];
    }
  }

  /** A non-empty partial batch keeps every later batch non-empty. */
  lemma {:induction false} BeforeAccNonEmpty(comb: Combine, cur: seq<Item>, rest: seq<Item>)
    requires cur != []
    ensures NonEmptyFrom(BeforeAcc(comb, cur, rest), 0)
    decreases |rest|
  {
    if |rest| > 0 {
      if FlushBefore(comb, cur, rest[0].size) {
        BeforeAccNonEmpty(comb, [rest[0]], rest[1..]);
        var tail := BeforeAcc(comb, [rest[0]], rest[1..]);
        var r := [cur] + tail;
        forall k | 0 <= k < |r| ensures r[k] != [] {
          if k > 0 {
            assert r[k] == tail[k - 1];
          }
        }
      } else {
        BeforeAccNonEmpty(comb, cur + [rest[0]], rest[1..]);
      }
    }
  }

  /**
   * Only the first batch can be empty, and it is exactly when the very first
   * file already triggers a flush (count mode with a limit of at most zero, or
   * size mode with a first file larger than the limit): an empty tar is made.
   */
  lemma BeforeEmptyBatches(comb: Combine, items: seq<Item>)
    ensures NonEmptyFrom(BatchesBefore(comb, items), 1)
    ensures var r := BatchesBefore(comb, items);
      (|r| > 0 && r[0] == []) <==> (|items| > 0 && FlushBefore(comb, [], items[0].size))
  {
    var r := BatchesBefore(comb, items);
    if |items| > 0 {
      var f := items[0];
      if FlushBefore(comb, [], f.size) {
        BeforeAccNonEmpty(comb, [f], items[1..]);
        var tail := BeforeAcc(comb, [f], items[1..]);
        assert r == [[]] + tail;
        forall k | 1 <= k < |r| ensures r[k] != [] {
          assert r[k] == tail[k - 1];
        }
      } else {
        assert [] + [f] == [f];
        assert r == BeforeAcc(comb, [f], items[1..]);
        BeforeAccNonEmpty(comb, [f], items[1..]);
      }
    }
  }

  /** Count mode: every batch but the last holds exactly `m` files, the last 1 to `m`. */
  predicate CountExact(m: int, r: seq<seq<Item>>)
  {
    |r| > 0 && (forall k :: 0 <= k < |r| - 1 ==> |r[k]| == m) && 1 <= |r[|r| - 1]| <= m
  }

  lemma {:induction false} BeforeAccCount(m: int, cur: seq<Item>, rest: seq<Item>)
    requires m >= 1 && 1 <= |cur| <= m
    ensures CountExact(m, BeforeAcc(ByCount(m), cur, rest))
    decreases |rest|
  {
    if |rest| > 0 {
      if |cur| >= m {
        BeforeAccCount(m, [rest[0]], rest[1..]);
        var tail := BeforeAcc(ByCount(m), [rest[0]], rest[1..]);
        var r := [cur] + tail;
        forall k | 0 <= k < |r| - 1 ensures |r[k]| == m {
          if k > 0 {
            assert r[k] == tail[k - 1];
          }
        }
        assert r[|r| - 1] == tail[|tail| - 1];
      } else {
        BeforeAccCount(m, cur + [rest[0]], rest[1..]);
      }
    }
  }

  /** Count mode: every batch but the last holds exactly max_file_number files. */
  lemma BeforeCountExact(m: int, items: seq<Item>)
    requires m >= 1
    ensures |items| > 0 ==> CountExact(m, BatchesBefore(ByCount(m), items))
    ensures |items| == 0 ==> BatchesBefore(ByCount(m), items) == []
  {
    if |items| > 0 {
      assert !FlushBefore(ByCount(m), [], items[0].size);
      assert [] + [items[0]] == [items[0]];
      BeforeAccCount(m, [items[0]], items[1..]);
    }
  }

  /**
   * Size mode: every batch of two files or more fits in the limit, and each
   * batch after the first was opened because its first file did not fit in
   * the one before.
   */
  predicate SizeBounded(m: int, r: seq<seq<Item>>)
  {
    (forall k :: 0 <= k < |r| ==> |r[k]| <= 1 || Total(r[k]) <= m) &&
    (forall k :: 1 <= k < |r| ==> r[k] != [] && Total(r[k - 1]) + r[k][0].size > m)
  }

  lemma {:induction false} BeforeAccSize(m: int, cur: seq<Item>, rest: seq<Item>)
    requires |cur| <= 1 || Total(cur) <= m
    ensures SizeBounded(m, BeforeAcc(BySize(m), cur, rest))
    decreases |rest|
  {
    if |rest| > 0 {
      var f := rest[0];
      if Total(cur) + f.size > m {
        BeforeAccSize(m, [f], rest[1..]);
        BeforeAccHead(BySize(m), [f], rest[1..]);
        var tail := BeforeAcc(BySize(m), [f], rest[1..]);
        var r := [cur] + tail;
        assert tail[0][..1] == [f];
        forall k | 1 <= k < |r| ensures r[k] == tail[k - 1] {
        }
        assert r[1][0] == f;
      } else {
        TotalAppend(cur, f);
        BeforeAccSize(m, cur + [f], rest[1..]);
      }
    }
  }

  lemma BeforeSizeBounds(m: int, items: seq<Item>)
    ensures SizeBounded(m, BatchesBefore(BySize(m), items))
  {
    BeforeAccSize(m, [], items);
  }

  // ================================================================ (c) running counter

  /**
   * The counter of get_files / upload_get_files: its threshold, its initial
   * value, the value it is reset to after a batch, and whether a file adds its
   * size or 1.
   */
  datatype Counter = Counter(max: int, init: int, reset: int, bySize: bool)

  /** What one file adds to the counter. */
  function Step(c: Counter, f: Item): nat
  {
    if c.bySize then f.size else 1
  }

  /** What a batch adds to the counter. */
  function Weight(c: Counter, b: seq<Item>): nat
  {
    if c.bySize then Total(b) else |b|
  }

  lemma WeightAppend(c: Counter, b: seq<Item>, f: Item)
    ensures Weight(c, b + [f]) == Weight(c, b) + Step(c, f)
  {
    TotalAppend(b, f);
  }

  /**
   * The counters of s3archiver.py and small-file-archiver.py for a combine
   * option: count starts at 1, size at 0, and both reset to 1; any other
   * combine exits (None).
   */
  function ScriptCounter(combine: string, maxFiles: int, maxSize: int): (r: Option<Counter>)
    ensures r.Some? <==> combine == "size" || combine == "count"
    ensures r.Some? ==> r.value.reset == 1 && r.value.bySize == (combine == "size")
    ensures r.Some? ==> r.value.init == (if combine == "size" then 0 else 1)
    ensures r.Some? ==> r.value.max == (if combine == "size" then maxSize else maxFiles)
  {
    if combine == "size" then Some(Counter(maxSize, 0, 1, true))
    else if combine == "count" then Some(Counter(maxFiles, 1, 1, false))
    else None
  }

  /** The counter of small-file-archiver-0.2.4.py: size only, reset to 0. */
  function SnowballCounter(maxSize: int): (r: Counter)
    ensures r.bySize && r.init == 0 && r.reset == 0 && r.max == maxSize
  {
    Counter(maxSize, 0, 0, true)
  }

  function CounterAcc(c: Counter, counter: int, cur: seq<Item>, rest: seq<Item>): seq<seq<Item>>
    decreases |rest|
  {
    if |rest| == 0 then [cur]
    else
      var n := counter + Step(c, rest[0]);
      if c.max < n then [cur + [rest[0]]] + CounterAcc(c, c.reset, [], rest[1..])
      else CounterAcc(c, n, cur + [rest[0]], rest[1..])
  }

  function BatchesCounter(c: Counter, items: seq<Item>): seq<seq<Item>>
  {
    CounterAcc(c, c.init, [], items)
  }

  lemma CounterStep(c: Counter, counter: int, cur: seq<Item>, f: Item, rest: seq<Item>)
    ensures CounterAcc(c, counter, cur, [f] + rest) ==
      if c.max < counter + Step(c, f) then [cur + [f]] + CounterAcc(c, c.reset, [], rest)
      else CounterAcc(c, counter + Step(c, f), cur + [f], rest)
  {
    assert ([f] + rest)[0] == f;
    assert ([f] + rest)[1..] == rest;
  }

  /**
   * get_files / upload_get_files: walk order, failed entries skipped before
   * they touch the counter; returns the queued lists and num_obj. An absent
   * entry is a file whose conv_obj_name or os.stat raised; upload_get_files
   * calls os.stat only in size mode.
   */
  method GetFiles(c: Counter, entries: seq<Option<Item>>) returns (queued: seq<seq<Item>>, numObj: nat)
    ensures queued == BatchesCounter(c, Present(entries))
    ensures numObj == |Present(entries)|
  {
    queued := [];
    var current: seq<Item> := [];
    var sizeOrNum := c.init;
    numObj := 0;
    PresentLength(entries);
    for i := 0 to |entries|
      invariant queued + CounterAcc(c, sizeOrNum, current, Present(entries[i..]))
             == BatchesCounter(c, Present(entries))
      invariant numObj + |Present(entries[i..])| == |Present(entries)|
    {
      PresentStep(entries, i);
      ghost var rest := Present(entries[i + 1..]);
      if entries[i].Some? {
        var f := entries[i].value;
        assert Present(entries[i..]) == [f] + rest;
        CounterStep(c, sizeOrNum, current, f, rest);
        ghost var before := queued;
        sizeOrNum := sizeOrNum + Step(c, f);
        current := current + [f];
        if c.max < sizeOrNum {
          sizeOrNum := c.reset;
          queued := queued + [current];
          assert queued + CounterAcc(c, c.reset, [], rest) == before + ([current] + CounterAcc(c, c.reset, [], rest));
          current := [];
        }
        numObj := numObj + 1;
      } else {
        assert Present(entries[i..]) == rest;
      }
    }
    assert entries[|entries|..] == [];
    queued := queued + [current];
  }

  // ---------------------------------------------------------------- properties of (c)

  lemma {:induction false} CounterAccFlatten(c: Counter, counter: int, cur: seq<Item>, rest: seq<Item>)
    ensures Flatten(CounterAcc(c, counter, cur, rest)) == cur + rest
    decreases |rest|
  {
    if |rest| == 0 {
      assert cur + rest == cur;
      assert [cur][1..] == [];
    } else {
      var b := cur + [rest[0]];
      assert b + rest[1..] == cur + rest;
      var n := counter + Step(c, rest[0]);
      if c.max < n {
        CounterAccFlatten(c, c.reset, [], rest[1..]);
        assert ([b] + CounterAcc(c, c.reset, [], rest[1..]))[1..] == CounterAcc(c, c.reset, [], rest[1..]);
      } else {
        CounterAccFlatten(c, n, b, rest[1..]);
      }
    }
  }

  /** The queued lists concatenate to the files, in walk order. */
  lemma CounterFlatten(c: Counter, items: seq<Item>)
    ensures Flatten(BatchesCounter(c, items)) == items
  {
    CounterAccFlatten(c, c.init, [], items);
  }

  /** The counter's base for batch k: the initial value for the first, the reset value after. */
  function Base(c: Counter, first: int, k: int): int
  {
    if k == 0 then first else c.reset
  }

  /** Starting from `base`, the first `n` files of `b` never pass the threshold. */
  predicate CounterKept(c: Counter, base: int, b: seq<Item>, n: int)
  {
    forall j :: 1 <= j <= n && j <= |b| ==> base + Weight(c, b[..j]) <= c.max
  }

  /**
   * The counter policy exactly: a remainder is always queued (possibly
   * empty); every batch but the last is non-empty and its last file pushed the
   * counter past max, which no earlier file of it did; the remainder never did.
   */
  predicate CounterShaped(c: Counter, first: int, r: seq<seq<Item>>)
  {
    |r| >= 1 &&
    (forall k :: 0 <= k < |r| - 1 ==>
      r[k] != [] && c.max < Base(c, first, k) + Weight(c, r[k]) &&
      CounterKept(c, Base(c, first, k), r[k], |r[k]| - 1)) &&
    CounterKept(c, Base(c, first, |r| - 1), r[|r| - 1], |r[|r| - 1]|)
  }

  /** A batch that passed the threshold only at its last file, then batches shaped from the reset value. */
  lemma ShapedCons(c: Counter, base: int, b: seq<Item>, tail: seq<seq<Item>>)
    requires b != [] && c.max < base + Weight(c, b) && CounterKept(c, base, b, |b| - 1)
    requires CounterShaped(c, c.reset, tail)
    ensures CounterShaped(c, base, [b] + tail)
  {
    var r := [b] + tail;
    forall k | 1 <= k < |r| ensures r[k] == tail[k - 1] && Base(c, base, k) == Base(c, c.reset, k - 1) {
    }
  }

  lemma {:induction false} CounterAccShape(c: Counter, base: int, cur: seq<Item>, rest: seq<Item>)
    requires CounterKept(c, base, cur, |cur|)
    ensures CounterShaped(c, base, CounterAcc(c, base + Weight(c, cur), cur, rest))
    decreases |rest|
  {
    var counter := base + Weight(c, cur);
    if |rest| == 0 {
      assert CounterAcc(c, counter, cur, rest) == [cur];
    } else {
      var f := rest[0];
      var b := cur + [f];
      WeightAppend(c, cur, f);
      assert CounterKept(c, base, b, |cur|) by {
        forall j | 1 <= j <= |cur| ensures b[..j] == cur[..j] {
        }
      }
      assert b[..|b|] == b;
      if c.max < counter + Step(c, f) {
        assert Weight(c, []) == 0;
        CounterAccShape(c, c.reset, [], rest[1..]);
        var tail := CounterAcc(c, c.reset, [], rest[1..]);
        assert [b] + tail == CounterAcc(c, counter, cur, rest);
        ShapedCons(c, base, b, tail);
      } else {
        CounterAccShape(c, base, b, rest[1..]);
      }
    }
  }

  lemma CounterShape(c: Counter, items: seq<Item>)
    ensures CounterShaped(c, c.init, BatchesCounter(c, items))
  {
    assert Weight(c, []) == 0;
    CounterAccShape(c, c.init, [], items);
  }

  /**
   * Count mode (counter from 1, reset to 1): every queued list but the
   * remainder has exactly max_file_number files, and the remainder has fewer.
   */
  lemma CounterCountExact(m: int, items: seq<Item>)
    requires m >= 1
    ensures var r := BatchesCounter(Counter(m, 1, 1, false), items);
      |r| >= 1 && (forall k :: 0 <= k < |r| - 1 ==> |r[k]| == m) && |r[|r| - 1]| < m
  {
    var c := Counter(m, 1, 1, false);
    var r := BatchesCounter(c, items);
    CounterShape(c, items);
    forall k | 0 <= k < |r| - 1 ensures |r[k]| == m {
      assert Base(c, c.init, k) == 1;
      if |r[k]| >= 2 {
        assert |r[k][..|r[k]| - 1]| == |r[k]| - 1;
      }
    }
    var last := r[|r| - 1];
    assert Base(c, c.init, |r| - 1) == 1;
    if |last| > 0 {
      assert last[..|last|] == last;
    }
  }

  /**
   * Size mode with the counter reset to 0 (small-file-archiver-0.2.4.py):
   * every queued list but the remainder exceeds max_tarfile_size, only through
   * its last file, and a non-empty remainder does not exceed it.
   */
  lemma CounterSizeBounds(m: int, items: seq<Item>)
    ensures var r := BatchesCounter(SnowballCounter(m), items);
      |r| >= 1 &&
      (forall k :: 0 <= k < |r| - 1 ==>
         r[k] != [] && m < Total(r[k]) && (forall j :: 1 <= j < |r[k]| ==> Total(r[k][..j]) <= m)) &&
      (r[|r| - 1] == [] || Total(r[|r| - 1]) <= m)
  {
    var c := SnowballCounter(m);
    var r := BatchesCounter(c, items);
    CounterShape(c, items);
    forall k | 0 <= k < |r| - 1 ensures forall j :: 1 <= j < |r[k]| ==> Total(r[k][..j]) <= m {
      assert Base(c, c.init, k) == 0;
      forall j | 1 <= j < |r[k]| ensures Total(r[k][..j]) <= m {
        assert Weight(c, r[k][..j]) == Total(r[k][..j]);
      }
    }
    assert Base(c, c.init, |r| - 1) == 0;
    var last := r[|r| - 1];
    if |last| > 0 {
      assert last[..|last|] == last;
    }
  }

  /** Four files of ten bytes. */
  function TenByteFiles(): (r: seq<Item>)
    ensures |r| == 4 && forall i :: 0 <= i < 4 ==> r[i].size == 10
  {
    [Item("a", 10), Item("b", 10), Item("c", 10), Item("d", 10)]
  }

  /**
   * As written, size mode resets the counter to 1 (s3archiver.py:367,
   * small-file-archiver.py:240): with max_tarfile_size 10 and four 10-byte
   * files the first list holds two files and the next ones a single file each,
   * because 1 + 10 > 10; the middle lists do not exceed the limit.
   */
  lemma ResetOneSplitsEarly()
    ensures ScriptCounter("size", 0, 10) == Some(Counter(10, 0, 1, true))
    ensures var items := TenByteFiles();
      var r := BatchesCounter(Counter(10, 0, 1, true), items);
      r == [items[..2], [items[2]], [items[3]], []] && Total(r[1]) == 10
  {
    var items := TenByteFiles();
    var c := Counter(10, 0, 1, true);
    assert items[2..][1..] == [items[3]];
    assert [] + [items[2]] == [items[2]] && [] + [items[3]] == [items[3]] && [] + [items[0]] == [items[0]];
    assert [items[3]][1..] == [];
    assert CounterAcc(c, 1, [], [items[3]]) == [[items[3]]] + CounterAcc(c, 1, [], []);
    assert CounterAcc(c, 1, [], items[2..]) == [[items[2]]] + CounterAcc(c, 1, [], [items[3]]);
    assert CounterAcc(c, 0, [], items) == CounterAcc(c, 10, [items[0]], items[1..]);
    assert items[1..][1..] == items[2..];
    assert Total([items[0]] + [items[1]]) == 20 by {
      TotalAppend([items[0]], items[1]);
    }
    assert CounterAcc(c, 10, [items[0]], items[1..])
        == [[items[0]] + [items[1]]] + CounterAcc(c, 1, [], items[2..]);
    assert [items[0]] + [items[1]] == items[..2];
    assert Total([items[2]]) == 10 by {
      TotalAppend([], items[2]);
    }
  }

  /** With the reset at 0, the same files make two lists of two and an empty remainder. */
  lemma ResetZeroKeepsPairs()
    ensures var items := TenByteFiles();
      BatchesCounter(SnowballCounter(10), items) == [items[..2], items[2..], []]
  {
    var items := TenByteFiles();
    var c := SnowballCounter(10);
    assert [] + [items[2]] == [items[2]] && [] + [items[0]] == [items[0]];
    assert [items[3]][1..] == [];
    assert CounterAcc(c, 0, [], items) == CounterAcc(c, 10, [items[0]], items[1..]);
    assert CounterAcc(c, 0, [], items[2..]) == CounterAcc(c, 10, [items[2]], [items[3]]);
    assert items[2..][1..] == [items[3]];
    assert CounterAcc(c, 10, [items[2]], [items[3]]) == [[items[2]] + [items[3]]] + CounterAcc(c, 0, [], []);
    assert [items[2]] + [items[3]] == items[2..];
    assert items[1..][1..] == items[2..];
    assert CounterAcc(c, 10, [items[0]], items[1..])
        == [[items[0]] + [items[1]]] + CounterAcc(c, 0, [], items[2..]);
    assert [items[0]] + [items[1]] == items[..2];
  }
}
