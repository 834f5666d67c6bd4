# Small-files archiving: a verified model of the sequential core

The small-files archiving solution packs many small files into tar archives. Each archive gets a manifest that records where every member lies inside it, and the archives go to a file system or to S3. The repository holds several generations of archivers:

- the stand-alone snowball scripts (`s3archiver.py`, `small-file-archiver.py`, `small-file-archiver-0.2.4.py`);
- the v1 archiver;
- the `archivers` and `web_app/archivers` packages behind `archiver.py`;
- the threaded v2 apps;
- two search front ends;
- a Go program that fills a directory tree with test files.

This project models, in Dafny, the parts of these programs that are sequential and deterministic once the clock, the file system, S3, MD5 and the tar library are taken as inputs:

- the shard-addressed test-file generator;
- the three batch-cutting policies;
- size and duration parsing;
- manifest byte ranges and manifest text;
- archive names and paths;
- input-file and listing parsing;
- the statistics counters and the failure accounting;
- multipart upload and retry;
- search-output parsing and the argv builders;
- the job report and the archiver dispatch.

Modules follow the program's structure:

| file | module | what it models |
|---|---|---|
| `wrappers.dfy` | `Wrappers` | `Option` and `Result` |
| `text.dfy` | `Text` | the Python string operations the sources use: `strip`, `split`, `join`, `str(int)`, zero padding |
| `filegen.dfy` | `FileGen` | `scripts/filegen-50KB.go`, with a `Disk` class for the file system it writes |
| `batching.dfy` | `Batching` | the three batch policies, each as a function with a loop method proved equal to it |
| `floats.dfy` | `Binary64` | Python's float as `parse_size` uses it: a decimal rounded to binary64, scaled by a power of two, and truncated by `int()` |
| `sizes.dfy` | `SizeUnits` | `parse_size` and `format_duration` |
| `naming.dfy` | `Naming` | sequence names, dated keys, prefixes, posix path joins, v1 arguments and directories, date directories, and the `tar_sequence` counter (a class) |
| `inputs.dfy` | `Inputs` | input files, S3 listings and the directory walk |
| `manifests.dfy` | `Manifests` | fsfs byte ranges, s3s3 block positions, and the manifest lines of every archiver |
| `stats.dfy` | `Stats` | the v2 statistics block and the archivers' totals (classes) and the run loop's failure accounting |
| `transfer.dfy` | `Transfer` | the multipart upload over a rewindable buffer (a class) and the two retry loops |
| `scripts.dfy` | `Scripts` | the snowball scripts' path helpers, random suffixes, archive names and worker loops |
| `search.dfy` | `Search` | `parse_output` and the argv builders of both search front ends |
| `report.dfy` | `Report` | `generate_report` and the dispatch in `archiver.py` |

The clock, random draws, file-system lookups, S3 responses, MD5 digests and tar positions are parameters: either functions from a path or an attempt number to an outcome, or plain values.

Some behaviour of the generator's Go code is easy to miss. The model follows it as written:

- Alphabet: `randInt(97, 122)` draws from [97, 122), so the letters run from 'a' to 'y' and 'z' never occurs (`FileGen.Letter`).
- Shard width: index i is written under `dir<i/10000>`, so a shard holds 10000 indices.
- `dir0`: `copyFile` makes a shard only at an index divisible by 10000, so a range that starts at 1 never makes `dir0` itself. Indices 1 to 9999 land in the `dir0` that `createDirStruc` made (`FileGen.PreparedShardZero`, `FileGen.NoShardZeroMade`).
- Return value: `copyFile` returns 0 on every path, whatever it wrote (`FileGen.CopyFile`).
- Mkdir errors: the error of `os.Mkdir` is dropped. When it fails, `FileGen.Disk.Mkdir` leaves the directory set unchanged and reports nothing; the failure shows up only when the write into that shard fails.
- Seeding: `rand.Seed` is called with the clock before every `randomString` call, so each index draws from a fresh seed. This is modelled as a clock function of the index.

A difference between the Python scripts: `small-file-archiver.py`'s `archive_to_fs` writes a manifest line for every pair before building the tar, and returns the number of pairs `tar.add` took (`Manifests.ArchiveToFs`); its caller ignores that number. `copy_to_snowball` in 0.2.4 writes a line only for a file `tar.add` took, and returns the same kind of count (`Manifests.SnowballCount`).

## Model

| member | source | states |
|---|---|---|
| FileGen.RandInt | scripts/filegen-50KB.go:21-23 | `min + rand.Intn(max-min)` lies in [min, max) whenever min < max |
| FileGen.Letter | scripts/filegen-50KB.go:13-23 | every generated byte is a letter from 'a' to 'y'; 'z' is never produced |
| FileGen.RandomLetters | scripts/filegen-50KB.go:13-19 | the random string has exactly the requested length and only letters 'a'..'y' |
| FileGen.RandomLettersAt | scripts/filegen-50KB.go:15-17 | position k of the string is the letter of the k-th draw of that call's generator |
| FileGen.RandomString | scripts/filegen-50KB.go:13-19 | the byte-filling loop yields exactly `RandomLetters`, the letters drawn for positions 0..n-1 |
| FileGen.FileName | scripts/filegen-50KB.go:46-49 | the name starts with the decimal index, has 17 characters after it (dash, 12 letters, ".jpg") and contains no '/' |
| FileGen.Disk.constructor | scripts/filegen-50KB.go:33-37 | the model file system starts with the given directories, files, readable sources and refused paths |
| FileGen.Disk.ReadFile | scripts/filegen-50KB.go:34-37 | reading gives the source's bytes when it exists and an error otherwise, and changes nothing |
| FileGen.Disk.MkdirAll | scripts/filegen-50KB.go:25-31 | `os.MkdirAll` adds the named directory unless the path is refused; the missing parent directories it also creates are not tracked, and no other state changes |
| FileGen.Disk.Mkdir | scripts/filegen-50KB.go:42-45 | `os.Mkdir` adds the directory only when its parent exists and the path is not refused; otherwise nothing changes and the error is dropped |
| FileGen.Disk.WriteFile | scripts/filegen-50KB.go:51-55 | a write succeeds exactly when the parent directory exists and the path is not refused, and then stores the data at that path only |
| FileGen.CreateDirStruc | scripts/filegen-50KB.go:25-31 | for every root, the root and root+"dir0" are created with `MkdirAll` (unless refused) |
| FileGen.CopyIndex | scripts/filegen-50KB.go:39-55 | one index: its shard directory is made exactly when i%10000 == 0 and the parent exists, then the copy is written to root + shard + name |
| FileGen.CopyFile | scripts/filegen-50KB.go:33-58 | returns 0 always. A failed read returns before anything is made. Otherwise, without an error, exactly the indices start..end are written, in order; an error is returned iff some write fails, it names the first failing path, and only the indices before it were written. The new state is exactly the shards opened and the files written up to that point |
| FileGen.ShardOfIndex | scripts/filegen-50KB.go:40-41 | index q*10000+r (r < 10000) lies in shard q, and opens a shard iff r == 0; so i and i+10000 are one shard apart |
| FileGen.DestFileInjective | scripts/filegen-50KB.go:46-49 | distinct indices get distinct destination paths |
| FileGen.ParentOfDest | scripts/filegen-50KB.go:46-49 | the file lands directly in root + "dir" + i/10000 |
| FileGen.PreparedShardZero | scripts/filegen-50KB.go:28 | the "dir0" made by createDirStruc is exactly the shard of every index whose absolute value is below 10000 |
| FileGen.ParentOfRoot | scripts/filegen-50KB.go:25-31 | for a root ending in '/', the parent that Mkdir requires for a shard is the directory MkdirAll made for the root |
| FileGen.NoShardZeroMade | scripts/filegen-50KB.go:42-45 | a range starting at 1 or later never creates dir0 itself |
| FileGen.PreparedRootWritesAll | scripts/filegen-50KB.go:25-58 | after createDirStruc on a root (and with nothing refused), every write of a range starting in the first shard succeeds |
| FileGen.PreparedShardExists | scripts/filegen-50KB.go:38-45 | in that situation the shard of each index exists by the time its file is written |
| Batching.ValidateLimit | v2/apps/fss3-archiver.py:145-148 | the configuration is accepted iff exactly one of max_files and max_size is set; setting both is reported as such |
| Batching.S3Limit | v2/apps/s3s3-archiver.py:198-202 | a nonzero file limit wins; a zero or missing file limit falls through to the size limit; with neither, the test raises |
| Batching.SendIfFull | v2/apps/fss3-archiver.py:378-390 | one file through the producer keeps the batches numbered consecutively with their size and count, and keeps the partition equal to policy (a) |
| Batching.ProduceAfter | v2/apps/fss3-archiver.py:371-428 | the batches are policy (a) over the files whose lookup succeeded; numbers run from the first number on; each batch records its total size and count; found + skipped equals the input length; the producer of v2/apps/fsfs-archiver.py:261-358 is the same, with files whose size lookup fails skipped and not counted as found |
| Batching.ProduceS3 | v2/apps/s3s3-archiver.py:214-253 | with a usable limit, the batches are policy (a) over the listing, numbered from 1; with no limit, nothing is queued and the first object raises |
| Batching.AfterFlatten | v2/apps/fss3-archiver.py:378-400 | the batches of policy (a), concatenated, are the input in order |
| Batching.AfterShape | v2/apps/fss3-archiver.py:438-443 | under policy (a) no batch is empty. Every batch but the last meets the criterion, and no proper prefix of any batch does. A non-empty leftover is the last batch |
| Batching.AfterCountExact | v2/apps/fss3-archiver.py:438-441 | in count mode every batch but the last has exactly max_files files, and the last 1 to max_files |
| Batching.ProcessBefore | v1/s3archiver.py:173-194 | process_files' loop yields exactly policy (b): flush before appending, leftover only if non-empty; archivers/s32s3archiver.py:157-173 has the same before-append loop |
| Batching.BeforeFlatten | v1/s3archiver.py:178-194 | the batches of policy (b), concatenated, are the file list in order |
| Batching.BeforeEmptyBatches | v1/s3archiver.py:185-188 | only the first batch can be empty, and it is empty iff the very first file already triggers a flush (size mode: that file alone exceeds the max) |
| Batching.BeforeCountExact | v1/s3archiver.py:182-184 | in count mode every batch but the last has exactly max_file_number files, and the last 1 to max_file_number; no files, no batches |
| Batching.BeforeSizeBounds | archivers/s32fsarchiver.py:135-151 | in size mode every batch of two or more files fits within max_tarfile_size, and each batch was closed because the next file would have pushed it over |
| Batching.ScriptCounter | s3archiver.py:328-339 | count mode starts the counter at 1 and size mode at 0; both reset to 1; any other combine value exits |
| Batching.SnowballCounter | small-file-archiver-0.2.4.py:267-279 | the 0.2.4 counter adds sizes from 0 and resets to 0 |
| Batching.GetFiles | s3archiver.py:327-392 | the queued lists are policy (c) over the present entries, in walk order, and num_obj is their number. In s3archiver.py an absent entry is a file whose os.stat or conv_obj_name failed. upload_get_files in small-file-archiver.py:208-265 is the same loop; its count mode calls no os.stat, so there an absent entry is only a failed conv_obj_name |
| Batching.CounterFlatten | s3archiver.py:383-386 | the queued lists, remainder included, concatenate to the input |
| Batching.CounterShape | s3archiver.py:349-369 | policy (c) exactly: a remainder is always queued, possibly empty. Every other list is non-empty, and its last file pushed the counter past max where no earlier file did. The remainder never passed it |
| Batching.CounterCountExact | s3archiver.py:352-354 | in count mode every queued list but the remainder has exactly max_file_number files, and the remainder fewer |
| Batching.CounterSizeBounds | small-file-archiver-0.2.4.py:267-291 | with the counter reset to 0, every full list exceeds the max, every proper prefix of it does not, and the remainder fits |
| Batching.ResetOneSplitsEarly | s3archiver.py:366-367 | as written (reset to 1), max 10 and four 10-byte files give [f1 f2], [f3], [f4], []: a lone 10-byte file already closes a batch |
| Batching.ResetZeroKeepsPairs | small-file-archiver-0.2.4.py:272 | with reset 0 the same input gives [f1 f2], [f3 f4], [] |
| SizeUnits.ParseSizePlain | v2/apps/fss3-archiver.py:45-46 | an all-digit string of at most 4300 digits parses to its decimal value; a longer one makes int() raise ValueError (CPython's default int_max_str_digits) |
| SizeUnits.UnitTable | v2/apps/fss3-archiver.py:33-43 | every multiplier of the unit table is a power of two, 2^0 for B up to 2^40 for T and TB, and the same units are known |
| SizeUnits.ParseSizeUnit | v2/apps/fss3-archiver.py:31-70 | a count followed by a unit in any letter case is read as int(float(count) * multiplier) |
| SizeUnits.ParseSizeUnitExact | v2/apps/fss3-archiver.py:68-70 | below 2^53 the count survives float(), so the result is exactly count times the multiplier |
| SizeUnits.ParseSizeUnitRounded | v2/apps/fss3-archiver.py:68-70 | "9007199254740993B" (2^53 + 1) is read as 2^53 bytes: float() keeps only 53 bits |
| SizeUnits.ParseSizeUnitOverflow | v2/apps/fss3-archiver.py:68-72 | a count from 2^1024 on is an infinite float, so int() raises OverflowError, which the `except ValueError` does not turn into an ArgumentTypeError |
| SizeUnits.ParseSizeFraction | v2/apps/fss3-archiver.py:63-70 | a decimal number with one point and a known unit is read as int(float(number) * multiplier), with float() rounding the exact decimal value |
| Binary64.RoundNearest | v2/apps/fss3-archiver.py:69 | float() keeps, at its last kept bit 2^e, the integer nearest to the exact value: within half of 2^e; it is infinite only when that integer reaches 2^1024 |
| Binary64.HalfEvenNearest | v2/apps/fss3-archiver.py:69 | the kept integer is the quotient or one more, within half a unit of the exact quotient |
| Binary64.ExactInt | v2/apps/fss3-archiver.py:69-70 | an integer below 2^53, scaled by a power of two that stays below 2^1024, comes back from int() unchanged times that power |
| Binary64.RoundTie | v2/apps/fss3-archiver.py:69 | 2^53 + 1 lies halfway between two doubles and goes to the even one, 2^53 |
| Binary64.RoundHuge | v2/apps/fss3-archiver.py:69-70 | every integer from 2^1024 on becomes infinity |
| SizeUnits.ParseSizeNoNumber | v2/apps/fss3-archiver.py:56-58 | input with no digit or '.' is a format error |
| SizeUnits.ParseSizeNoUnit | v2/apps/fss3-archiver.py:59-61 | a decimal number with a point and no unit is a format error |
| SizeUnits.ParseSizeUnknownUnit | v2/apps/fss3-archiver.py:63-66 | a count followed by letters outside the table is an invalid-unit error |
| SizeUnits.ParseSizeTwoPoints | v2/apps/fss3-archiver.py:67-70 | a number with two points fails float conversion |
| SizeUnits.DurationPartsShape | v2/apps/fss3-archiver.py:232-245 | the duration has three parts from one hour on, two from one minute on, else one, and no part holds a space |
| SizeUnits.DurationRoundTrip | v2/apps/s3s3-archiver.py:437-450 | reading the h/m/s parts back gives exactly the seconds formatted |
| SizeUnits.DurationPartsPresent | v2/apps/fss3-archiver.py:239-245 | the formatted text splits on spaces into 3, 2 or 1 parts by the same thresholds |
| Naming.TarExt | v2/apps/fsfs-archiver.py:390-395 | the extension ends in ".tar" iff not compressing, and is ".tar.gz" when compressing |
| Naming.ReadNumber | v2/apps/fsfs-archiver.py:413-414 | a number is read back only from a name with the expected prefix and suffix |
| Naming.ArchiveNameRoundTrip | v2/apps/fsfs-archiver.py:413 | the sequence number is recovered from the archive name, whatever the padding width |
| Naming.ManifestNameRoundTrip | v2/apps/fsfs-archiver.py:414 | the sequence number is recovered from the manifest name |
| Naming.SequenceNamesInjective | archivers/s32s3archiver.py:81-82 | distinct sequence numbers give distinct archive names and distinct manifest names |
| Naming.PaddedWidth | web_app/archivers/fs2s3archiver.py:92-93 | a number that fits the width (4 or 8 digits) gives a name of fixed length |
| Naming.MidPrefixOfStamp | v2/apps/fss3-archiver.py:503 | the date directory is the part of the clock stamp before '_' |
| Naming.Fss3PathLayout | v2/apps/fss3-archiver.py:505-506 | the tar and manifest keys are the destination's components, then archives (manifests), the date, and the name |
| Naming.S3s3KeyLayout | v2/apps/s3s3-archiver.py:309-312 | tar_key and manifest_key are dst_prefix, archives or manifests, the date part of the stamp, and the unpadded batch name |
| Naming.S3s3TarNameInjective | v2/apps/s3s3-archiver.py:310-312 | distinct batch numbers give distinct tar names |
| Naming.NormalizePrefixShape | archivers/s32s3archiver.py:26-27 | the prefix is empty iff none is given, and otherwise ends in exactly one '/' after the given path with trailing slashes removed |
| Naming.NormalizePrefixIdempotent | web_app/archivers/fs2s3archiver.py:33 | normalising a normalised prefix changes nothing |
| Naming.PrefixedKeyOneSlash | web_app/archivers/fs2s3archiver.py:117-121 | the upload key is the destination, one '/', archives or manifests, '/', the name; with no destination, just archives/name |
| Naming.PathJoin | web_app/archivers/fs2fsarchiver.py:76-77 | os.path.join: an absolute second part replaces the first |
| Naming.DirnameOfJoin | archivers/s32fsarchiver.py:95-96 | the directory of join(d, name) is d |
| Naming.FolderPathParent | archivers/s32fsarchiver.py:92-96 | the directory made before writing is join(dst, archives) (or manifests), one level under the destination; the directories v2/apps/fsfs-archiver.py:157-158 makes up front are likewise the parents of the tar and manifest paths |
| Naming.NoSlashInArchiveName | v2/apps/fsfs-archiver.py:413-417 | archive and manifest names add no directory level to their paths |
| Naming.V1DirsUnderFs | v1/s3archiver.py:290-295 | with fs the dirs are fs_dir/prefix (an absolute prefix replaces fs_dir); with s3 they are the bare prefixes |
| Naming.ValidateV1Args | v1/s3archiver.py:214-218 | s3 without a bucket fails first; then no src_dir and no input_file fails; otherwise the arguments pass (each case an iff) |
| Naming.ContentsDirLayout | small-file-archiver.py:64-66 | contents_dir is nfs_dir followed by year, month, day |
| Naming.ContentsLogDirLayout | small-file-archiver-0.2.4.py:118-119 | the log dir is contents_dir followed by list |
| Naming.DateDirs | small-file-archiver-0.2.4.py:115-116 | the date parts come from the second-to-last '/' segment split on '-', and fail unless there are three |
| Naming.DateDirsOf | small-file-archiver-0.2.4.py:115-116 | a source dir .../Y-M-D/last yields exactly (Y, M, D) |
| Naming.Sequencer.constructor | v1/s3archiver.py:35 | the counter starts at the given value (1 in v1 and the archivers, 0 in v2) with nothing issued |
| Naming.Sequencer.Take | v2/apps/fsfs-archiver.py:411-414 | the number is taken after the increment (v2) or before it (v1, archivers); the counter grows by one and the number is recorded |
| Naming.Sequencer.AllocateNames | archivers/s32s3archiver.py:79-83 | the archive and manifest names of one batch share the next number in sequence |
| Naming.Sequencer.TarFilesCreated | v1/s3archiver.py:244 | tar_sequence - 1 equals the number of names handed out when counting starts at 1 |
| Naming.IssuedIncreasing | archivers/s32s3archiver.py:80-83 | the numbers handed out increase strictly, so no two batches share a name |
| Naming.BothSchemesFromOne | v2/apps/fss3-archiver.py:172 | starting at 0 with pre-increment and at 1 with post-increment hand out the same numbers |
| Inputs.ParseLine | v1/s3archiver.py:135-149 | a stripped blank or '#' line gives nothing; otherwise the first two comma fields, or the path and its base name |
| Inputs.ParseFields | archivers/s32s3archiver.py:49-51 | a line of two or more comma-free fields gives back its first two fields |
| Inputs.ParseSinglePath | archivers/s32s3archiver.py:52-54 | a single path gives the path and its last '/' component |
| Inputs.ReadInputFile | v1/s3archiver.py:131-160 | the loop yields one entry per line that parses and whose path exists, in line order; web_app/archivers/fs2fsarchiver.py:32-50 has the same loop |
| Inputs.InputEntriesAppend | archivers/s32s3archiver.py:43-62 | the entries of two concatenated files are the entries of each, in order |
| Inputs.InputEntriesSound | web_app/archivers/fs2s3archiver.py:53-71 | no more entries than lines, and every entry's size is the one its lookup gave |
| Inputs.InputFileRoundTrip | v1/s3archiver.py:139-156 | writing entries as path,name lines and reading them back gives the same entries |
| Inputs.S32fsInputEntries | archivers/s32fsarchiver.py:52-69 | reading succeeds (with no files) iff every line is skipped; otherwise the first unskipped line raises NameError |
| Inputs.RelPath | v2/apps/fss3-archiver.py:309-311 | a path under src loses src and the separators after it; any other path is unchanged |
| Inputs.RelPathUnder | v2/apps/fss3-archiver.py:309-311 | src + "/" + rel and src + rel both give rel |
| Inputs.Fss3ReadInputFile | v2/apps/fss3-archiver.py:295-328 | the loop yields exactly `Fss3Files` and `Fss3Failed` of the lines |
| Inputs.Fss3Accounted | v2/apps/fss3-archiver.py:300-323 | every unskipped line is either listed or counted failed, and every listed size is its lookup's |
| Inputs.ListingName | archivers/s32s3archiver.py:70 | the name is the key with the prefix's length cut off; prefix + name is the key when the key starts with it |
| Inputs.ListS3 | archivers/s32fsarchiver.py:71-80 | every listed object gives one entry with its key, its name below the prefix and its size, in order |
| Inputs.ListingUnderPrefix | archivers/s32s3archiver.py:67-70 | under a normalised prefix the name of prefix + rest is rest |
| Inputs.RelpathOfJoin | web_app/archivers/fs2fsarchiver.py:54-59 | os.path.relpath(os.path.join(src, sub), src) is sub |
| Inputs.WalkedName | web_app/archivers/fs2s3archiver.py:73-81 | a file found in src/sub is named sub/file |
| Inputs.ScanDirectory | web_app/archivers/fs2fsarchiver.py:52-60 | the walk gives one entry per file, with its joined path, its path relative to src and its size |
| Manifests.ManifestLines | v2/apps/s3s3-archiver.py:393-394 | a header and newline-free lines joined by '\n' split back into the same lines |
| Manifests.HeadersClean | v2/apps/fsfs-archiver.py:423-425 | each header is one line of seven columns separated by the delimiter |
| Manifests.FirstPass | v2/apps/fsfs-archiver.py:428-437 | the MD5 pass lists exactly the files whose digest failed |
| Manifests.FsfsHashPass | v2/apps/fsfs-archiver.py:428-436 | the MD5 pass fails exactly the files without a digest, in batch order, and every other file's digest is recorded |
| Manifests.FsfsAddOne | v2/apps/fsfs-archiver.py:441-466 | one turn of the second pass keeps the ranges and failures equal to `SecondPass` over the files seen so far |
| Manifests.FsfsPack | v2/apps/fsfs-archiver.py:423-470 | the two loops yield exactly `FirstPass` and `SecondPass`, and the manifest of those ranges |
| Manifests.SecondPassContiguous | v2/apps/fsfs-archiver.py:443-461 | the ranges start at the offset and each starts where the previous ended plus one, spanning exactly its size |
| Manifests.FsfsContiguous | v2/apps/fsfs-archiver.py:443 | from offset 0 the archived files get contiguous, non-overlapping ranges |
| Manifests.FsfsFailedBound | v2/apps/fsfs-archiver.py:441-466 | archived plus failed files never exceed the batch |
| Manifests.FsfsAccounting | v2/apps/fsfs-archiver.py:428-466 | with distinct paths, every file is archived or failed, exactly once |
| Manifests.SecondPassHashes | v2/apps/fsfs-archiver.py:452-464 | every range belongs to a file of the batch with its added size and digest, and that file passed the MD5 pass |
| Manifests.FsfsLineFields | v2/apps/fsfs-archiver.py:464-468 | a line splits into tar, rel_path, date, size, start, end, md5 |
| Manifests.FsfsManifestLines | v2/apps/fsfs-archiver.py:469-470 | the manifest is the header line followed by one such line per archived file |
| Manifests.Padding | v2/apps/s3s3-archiver.py:346-352 | the padding is below 512 and rounds the content up to a multiple of 512, zero iff already aligned |
| Manifests.PaddingLeast | v2/apps/s3s3-archiver.py:346-352 | no smaller padding aligns the content |
| Manifests.Span | v2/apps/s3s3-archiver.py:336-352 | an entry spans a multiple of 512 bytes: a 512-byte header plus the padded content |
| Manifests.S3s3Upload | v2/apps/s3s3-archiver.py:370-372 | nothing is uploaded for a batch with no entries |
| Manifests.S3s3AddOne | v2/apps/s3s3-archiver.py:316-361 | one object keeps members, entries and failed count equal to `S3s3Members` over the objects seen so far |
| Manifests.S3s3Pack | v2/apps/s3s3-archiver.py:301-373 | the loop yields exactly `S3s3Members` and its failures, one entry per member, and the upload text |
| Manifests.S3s3Blocked | v2/apps/s3s3-archiver.py:326-352 | members follow one another block by block from the start position; each object is a member or a failure |
| Manifests.S3s3Aligned | v2/apps/s3s3-archiver.py:336-352 | every start and end position stays a multiple of 512 |
| Manifests.S3s3ManifestLines | v2/apps/s3s3-archiver.py:375-406 | the uploaded manifest splits into the header and the entries |
| Manifests.V1LineFields | v1/s3archiver.py:87-90 | a v1 record is tar_prefix + tar_name, file, year, month, day, size, start, end, md5 and one newline |
| Manifests.ArchiverLineFields | archivers/s32fsarchiver.py:114-119 | a line is location, key, year, month, day, size, start, end, md5 and one newline |
| Manifests.RecordsSplit | v1/s3archiver.py:87-92 | newline-terminated records split back into the lines followed by an empty tail |
| Manifests.ScriptTextFixedLines | s3archiver.py:208-224 | with the record written only after a successful add, the text splits into one record per added file |
| Manifests.ScriptTextGluesRecords | s3archiver.py:208-224 | as written, a failed add leaves its head unterminated, and the next record is glued onto it |
| Manifests.ScriptTextAllAdded | s3archiver.py:216-224 | when every add succeeds, as-written and corrected text agree |
| Manifests.CreateManifestLines | small-file-archiver.py:117-129 | one tar, file, year, month, day line per pair, added or not |
| Manifests.ArchiveToFs | small-file-archiver.py:132-164 | the manifest is create_manifest's, one line per pair; the returned count is the number of pairs tar.add took, at most the batch length, and equals it iff every add succeeded |
| Manifests.CountAll | small-file-archiver.py:145-151 | the count of successful adds is the batch length iff every add succeeded |
| Manifests.SnowballCount | small-file-archiver-0.2.4.py:193-211 | the count returned equals the lines written, one per file tar.add took, and at most the batch length |
| Stats.Stats.constructor | v2/apps/fss3-archiver.py:162-166 | all counters start at zero |
| Stats.Stats.Update | v2/apps/fss3-archiver.py:203-210 | each counter grows by its argument and by nothing else |
| Stats.FsfsConsumeBatch | v2/apps/fsfs-archiver.py:420-500 | when the tar and the manifest are both written: files += len(batch) - len(failed), failed += len(failed), one tar, one manifest, bytes += the batch's size, and the manifest of the packed ranges; when either raises, no counter moves and no manifest is kept |
| Stats.FsfsCountsLines | v2/apps/fsfs-archiver.py:464-479 | with distinct paths the files counted equal the manifest lines written |
| Stats.S3s3ConsumeBatch | v2/apps/s3s3-archiver.py:326-406 | each added object counts a file and its size, each failed one a failure; with something to upload, the tar counts once upload_fileobj returns and the manifest once put_object returns after it; a failed upload counts nothing |
| Stats.S3s3EveryObjectCounted | v2/apps/s3s3-archiver.py:316-361 | every object is counted once, as a file or as a failure |
| Stats.Totals.constructor | archivers/s32s3archiver.py:109-111 | all totals start at zero |
| Stats.Totals.CountBatch | archivers/s32s3archiver.py:109-111 | a built batch adds its length to total files and one tar and one manifest, before upload |
| Stats.Totals.CountFailed | archivers/s32s3archiver.py:175-182 | failed_files grows by the given count, other totals unchanged |
| Stats.BatchDelta | web_app/archivers/fs2s3archiver.py:112-179 | a batch whose tar fails adds only failures; an upload failure counts files and a tar plus n (+1 from the helper) failures; success counts files and a tar |
| Stats.Run | archivers/s32s3archiver.py:149-182 | the run's totals are the sum of the batches' deltas |
| Stats.RunTotalsCountBuilt | web_app/archivers/fs2s3archiver.py:112-121 | total_files counts every built batch, uploaded or not, and failed_files covers every batch that failed |
| Stats.RunAllUploaded | web_app/archivers/fs2fsarchiver.py:97-144 | when every batch succeeds, all files and batches are counted and no failure |
| Stats.UploadFailureCountedTwice | web_app/archivers/fs2s3archiver.py:143 | a batch of n whose last upload fails with ClientError counts n files and n + 1 failures |
| Transfer.Buffer.constructor | archivers/s32s3archiver.py:123-136 | a buffer holds the archive bytes with its position at the start |
| Transfer.Buffer.Read | archivers/s32s3archiver.py:129 | read(n) returns up to n bytes from the position and advances past them |
| Transfer.Buffer.Rewind | web_app/archivers/fs2s3archiver.py:128 | seek(0) returns to the start |
| Transfer.MultipartUpload | archivers/s32s3archiver.py:123-136 | parts are numbered 1..n with their etags; their bodies are the stream's chunks of part_size, the read stops at the first empty chunk |
| Transfer.ChunksConcat | archivers/s32s3archiver.py:126-133 | the chunks concatenate to the stream |
| Transfer.ChunksSizes | archivers/s32s3archiver.py:126-133 | every chunk is non-empty and at most part_size, all but the last exactly part_size |
| Transfer.MultipartComplete | archivers/s32s3archiver.py:134-136 | the completed parts reassemble the archive in order |
| Transfer.S32s3Retry | archivers/s32s3archiver.py:138-147 | the number of attempts never exceeds max_retries |
| Transfer.S32s3RetryMeaning | archivers/s32s3archiver.py:138-147 | it re-raises iff every attempt fails, after exactly max_retries; otherwise it returns at the first success |
| Transfer.S32s3UploadWithRetry | archivers/s32s3archiver.py:138-147 | the loop makes the attempts `S32s3Retry` describes; the first sends from the current position, later ones the whole buffer after a rewind |
| Transfer.Fs2s3Retry | web_app/archivers/fs2s3archiver.py:125-144 | the number of attempts never exceeds max_retries |
| Transfer.Fs2s3RetryMeaning | web_app/archivers/fs2s3archiver.py:125-144 | only ClientError is retried. A failure re-raises after max_retries ClientErrors or at the first other error. Waits are 2^k seconds between attempts |
| Transfer.Fs2s3UploadWithRetry | web_app/archivers/fs2s3archiver.py:125-144 | every attempt sends the whole rewound buffer; failed_files grows by one iff the last attempt re-raised a ClientError |
| Scripts.BucketPathParsing | s3archiver.py:81-90 | '' unchanged; a trailing '/' drops the last two characters; else a leading '/' drops the first; else the variable is unbound |
| Scripts.BucketPathDropsLastChar | s3archiver.py:86-87 | as written, "bucket/"-style paths lose a real character |
| Scripts.BucketPathUnbound | s3archiver.py:81-90 | a path without a leading or trailing '/' raises |
| Scripts.StripBucketPathRecovers | s3archiver.py:81-90 | the corrected parser returns the bare path for all four slash variants |
| Scripts.StripBucketPathAgrees | s3archiver.py:84-85 | on a leading-slash-only path the corrected and as-written parsers agree |
| Scripts.RootSlash | s3archiver.py:312-317 | a non-empty root ends in '/', an empty root stays empty, and a root that already ends in '/' is kept |
| Scripts.RootSlashIdempotent | s3archiver.py:312-317 | adding the trailing slash twice changes nothing |
| Scripts.ConvObjName | s3archiver.py:311-324 | the call fails iff sub_prefix is empty |
| Scripts.ConvObjNameUnder | small-file-archiver.py:192-205 | a file under sub_prefix becomes prefix_root + its relative path, with '\\' mapped to '/' on nt |
| Scripts.ConvObjNameSlashed | small-file-archiver-0.2.4.py:239-252 | a sub_prefix already ending in '/' is used as is |
| Scripts.GenRandChar | s3archiver.py:292-294 | six characters, each an upper-case letter or a digit |
| Scripts.GenRandCharCovers | s3archiver.py:292-294 | every six-character string over that alphabet can be drawn |
| Scripts.SnowballTarName | small-file-archiver-0.2.4.py:305-308 | '' gives .tar, 'gz' gives .tgz, any other compression is unbound |
| Scripts.TarNamesDistinct | s3archiver.py:403 | two names with equal-length suffixes are equal iff the suffixes are |
| Scripts.NoExtractCaseSensitive | small-file-archiver-0.2.4.py:104-107 | only the exact string 'yes' sets no_extract |
| Scripts.FirstQuit | s3archiver.py:406-407 | the worker handles the messages before the first quit flag |
| Scripts.S3ArchiverWorker | s3archiver.py:394-407 | the worker names one archive per message up to the first quit, consuming that quit too |
| Scripts.SnowballWorker | small-file-archiver-0.2.4.py:299-319 | the same loop with the 0.2.4 names; with an unknown compression the worker raises exactly when a batch comes before the first quit flag, and a quit flag first ends it normally with nothing archived |
| Search.RowOf | v2/apps/search-web.py:49-57 | a line gives a row iff it has at least six fields when split on the delimiter |
| Search.Rows | web_app/restore/search-web.py:36-70 | the rows never outnumber the lines |
| Search.ParseOutput | v2/apps/search-web.py:36-70 | the six columns are, field by field, the rows of the stripped output split on newlines, in line order |
| Search.CollectColumns | v2/apps/search-web.py:49-57 | one pass over the lines appends each kept line's six fields to the six lists, so each list is that field of every row, in order |
| Search.RowsAppend | web_app/restore/search-web.py:49-57 | rows are kept in order, line by line |
| Search.BlankOutputNoRows | v2/apps/search-web.py:38 | blank output yields no rows |
| Search.LineFields | v2/apps/search-web.py:52-57 | the first six fields make the row; extra fields are ignored; fewer than six drop the line |
| Search.RowsRendered | v2/apps/search-web.py:49-57 | rendering rows as lines and parsing them back gives the same rows |
| Search.ParseRendered | v2/apps/search-web.py:36-70 | the whole search output round-trips through parse_output |
| Search.V2SearchArgvRecovers | v2/apps/search-web.py:21-31 | the argv is 12 items starting python3 apps/search.py, and, when no value begins with '-', each option reads back the given value |
| Search.RestoreSearchArgvRecovers | web_app/restore/search-web.py:19-34 | the argv starts python3 search_item.py; --end_value appears (12 items) iff end_value is truthy, else 10 items; when no value begins with '-', each option reads back the given value |
| Search.RestoreArgvRecovers | web_app/restore/search-web.py:72-80 | the restore argv is 10 items, and when no value begins with '-' each of the four options reads back the given value |
| Search.Options | v2/apps/search-web.py:24-31 | after a fixed head, distinct options written as flag/value pairs are each found with their own value |
| Report.DispatchInverse | archiver.py:76-86 | the dispatch picks an archiver iff that archiver's endpoints are the type pair |
| Report.DispatchCovers | archiver.py:84-86 | an archiver runs iff both types are fs or s3 |
| Report.LocationParts | archiver.py:38-46 | fs gives fs:// and the path or N/A; s3 gives s3:// then the bucket or N/A then the path's segments |
| Report.ReportSplits | archiver.py:48-68 | the report has 16 lines with the source, destination and limit lines in place |
| Report.ReportLinesClean | archiver.py:48-62 | with newline-free inputs no report line holds a newline |
| Report.LimitLineChoice | archiver.py:63-66 | count gives the max-files line; anything else gives the max-size line |

## Left out

- Concurrency: threads, queues, locks, stop events, the consumer loops, multiprocessing, and the Go goroutines with their WaitGroup. Only the sequential policies they feed are modelled, and the lock is taken as mutual exclusion.
- S3 and boto3, os.walk, os.path and file I/O, tarfile, hashlib.md5: all are parameters. Tar positions from tell() and tar.offset are inputs, not derived.
- Compression and gzip, and ustar long names: left out, because the tar library is not modelled.
- The clock and the random source: plain values or functions of an index. FileGen.RandomLetters draws through a generator function with the clock as seed.
- time.sleep in the retry loops: the waits are recorded, not slept.
- Floating point: get_size_display, rates, elapsed times.
- Binary64: models only the floats parse_size can make: non-negative decimals of digits and at most one point, times the table's powers of two. Negative numbers, exponents and NaN do not arise there.
- Text.Upper: maps only the ASCII letters a-z. Python's str.upper() also maps other letters, some into more than one character (ß gives SS), which can change a unit's length.
- Text.IsDigit: the ASCII digits only. Python's str.isdigit() also accepts other Unicode digits, such as '²' or the Arabic-Indic digits, in parse_size.
- Logging, printing, argparse wiring and the Streamlit pages: left out, as output and configuration only.
- The datetime strings in the report: taken as inputs. The v1 report writer is left out except for its tar_sequence - 1 count.
- The search back ends (Athena and awswrangler), get_file_from_athena.py, the restore scripts and the sandbox tar reader: left out, as network clients.
- The logs directory of _create_directories and its RuntimeError: left out, because directory creation on the host is not modelled.
- The upload_file loop of small-file-archiver.py: the same loop as Scripts.S3ArchiverWorker, with Scripts.SmallFileTarName as its name; it is not modelled separately.
- Duplicate copies are modelled once: parse_size in three apps, format_duration in two, parse_output in two, gen_rand_char and conv_obj_name in three scripts.
- FileGen.CopyFile: writes the same source bytes for every index and does not model short writes.
- FileGen.CopyFile: Go's int is 64-bit; the wrap of i++ at end = MaxInt64 (the loop would go on at MinInt64 into a shard nobody made, and fail) is not modelled, since the indices are unbounded integers. The program passes end of at most 5000000.
- SizeUnits.ParseSizePlain: the 4300-digit limit is CPython's default from 3.11 and the 3.7.14, 3.8.14, 3.9.14 and 3.10.7 releases; earlier interpreters convert any length, which the model does not follow.

## Findings

| source | as written | input that shows it | evidently intended | confidence | as-written member | corrected member |
|---|---|---|---|---|---|---|
| s3archiver.py:366-367 | in size mode the counter is reset to 1 after a batch | max_tarfile_size 10, four 10-byte files: the third file alone closes a batch, giving [f1 f2], [f3], [f4], [] | reset to 0, as small-file-archiver-0.2.4.py:272 does, giving [f1 f2], [f3 f4], [] | not executed | Batching.ResetOneSplitsEarly | Batching.CounterSizeBounds |
| s3archiver.py:81-90 | a trailing '/' drops two characters, and a path with no leading or trailing '/' leaves new_path unbound | "bucket/" gives "bucke"; "a" raises UnboundLocalError | strip one leading and one trailing '/' and return the rest | not executed | Scripts.BucketPathDropsLastChar | Scripts.StripBucketPathRecovers |
| s3archiver.py:208-224 | the record's head is written before tar.add and its newline only after, so a failed add leaves an unterminated head | two files, the first failing tar.add: the manifest holds one line with both heads glued together | write a file's record only after its add succeeds | not executed | Manifests.ScriptTextGluesRecords | Manifests.ScriptTextFixedLines |
