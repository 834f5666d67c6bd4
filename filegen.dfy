/**
 * The test-data generator: every destination root gets a "dir0" shard, and each
 * index i in [start, end] becomes a copy of one source file named
 * "<i>-<12 random letters>.jpg" inside the shard "dir<i/10000>", a shard being
 * created when its index is a multiple of 10000.
 *
 * The filesystem is a `Disk` object: the directories that exist (named without a
 * trailing '/'), the files written, the files that can be read, and the paths
 * whose creation the device refuses. Go's random generator is the function
 * `gen(seed, k)`: the raw value behind the k-th `rand.Intn` after `rand.Seed(seed)`;
 * `clock(i)` is the nanosecond clock read while naming index i.
 */
module FileGen {
  import opened Wrappers
  import opened Text

  const ShardWidth: int := 10000

  /** Go's `/` on int: the quotient truncated toward zero. */
  function GoQuo(a: int, b: int): int
    requires b > 0
  {
    if a >= 0 then a / b else -((-a) / b)
  }

  /** Go's `%` on int: the remainder takes the sign of the dividend. */
  function GoRem(a: int, b: int): int
    requires b > 0
  {
    a - b * GoQuo(a, b)
  }

  /** The shard directory of index i, without its trailing '/'. */
  function ShardName(i: int): string
  {
    "dir" + IntToString(GoQuo(i, ShardWidth))
  }

  /** Index i creates its shard before writing. */
  predicate OpensShard(i: int)
  {
    GoRem(i, ShardWidth) == 0
  }

  /** randInt(min, max) = min + rand.Intn(max - min), where raw is the generator's draw. */
  function RandInt(lo: int, hi: int, raw: nat): (r: int)
    requires lo < hi
    ensures lo <= r < hi
  {
    lo + raw % (hi - lo)
  }

  /** byte(randInt(97, 122)) for the draw raw, read as a character. */
  function Letter(raw: nat): (c: char)
    ensures 'a' <= c <= 'y'
  {
    var v := RandInt(97, 122, raw);
    assert (v as char) as int == v;
    v as char
  }

  /** The letters randomString(n) produces after the generator was seeded with seed. */
  function RandomLetters(n: nat, seed: int, gen: (int, nat) -> nat): (s: string)
    ensures |s| == n
    ensures forall k :: 0 <= k < n ==> 'a' <= s[k] <= 'y'
  {
    if n == 0 then [] else RandomLetters(n - 1, seed, gen) + [Letter(gen(seed, n - 1))]
  }

  lemma {:induction false} RandomLettersAt(n: nat, seed: int, gen: (int, nat) -> nat, k: nat)
    requires k < n
    ensures RandomLetters(n, seed, gen)[k] == Letter(gen(seed, k))
  {
    if k < n - 1 {
      RandomLettersAt(n - 1, seed, gen, k);
    }
  }

  /** randomString: a byte buffer filled one draw at a time. */
  method RandomString(n: nat, seed: int, gen: (int, nat) -> nat) returns (s: string)
    ensures s == RandomLetters(n, seed, gen)
  {
    var bytes := new bv8[n];
    for i := 0 to n
      invariant forall k :: 0 <= k < i ==> (bytes[k] as int) as char == Letter(gen(seed, k))
    {
      ByteLetter(gen(seed, i));
      bytes[i] := RandInt(97, 122, gen(seed, i)) as bv8;
    }
    s := seq(n, k requires 0 <= k < n reads bytes => (bytes[k] as int) as char);
    LettersAre(s, seed, gen);
  }

  /** The byte randByte stores reads back as the letter drawn. */
  lemma ByteLetter(raw: nat)
    ensures ((RandInt(97, 122, raw) as bv8) as int) as char == Letter(raw)
  {
  }

  /** A string whose every letter is the one drawn for its position is randomString's. */
  lemma LettersAre(s: string, seed: int, gen: (int, nat) -> nat)
    requires forall k :: 0 <= k < |s| ==> s[k] == Letter(gen(seed, k))
    ensures s == RandomLetters(|s|, seed, gen)
  {
    forall k | 0 <= k < |s|
      ensures s[k] == RandomLetters(|s|, seed, gen)[k]
    {
      RandomLettersAt(|s|, seed, gen, k);
    }
  }

  /** The file name of index i: its number, a dash, twelve letters and ".jpg". */
  function FileName(i: int, seed: int, gen: (int, nat) -> nat): (name: string)
    ensures '/' !in name
    ensures |name| == |IntToString(i)| + 17
    ensures name[..|IntToString(i)|] == IntToString(i)
  {
    var letters := RandomLetters(12, seed, gen);
    assert forall k :: 0 <= k < |letters| ==> letters[k] != '/';
    IntToString(i) + "-" + letters + ".jpg"
  }

  /** destFile for index i under root dir. */
  function DestFile(dir: string, i: int, clock: int -> int, gen: (int, nat) -> nat): string
  {
    dir + ShardName(i) + "/" + FileName(i, clock(i), gen)
  }

  // ---------------------------------------------------------------- paths on the disk

  /** The directory Mkdir and MkdirAll create for path p: p without trailing '/'. */
  function DirPath(p: string): string
  {
    RStripSlash(p)
  }

  /** The directory an entry named p lives in; "" is the working directory. */
  function Parent(p: string): (d: string)
    ensures |d| < |p| || d == ""
  {
    if '/' in p then RStripSlash(p[..LastIndexOf(p, '/')]) else ""
  }

  predicate Exists(dirs: set<string>, d: string)
  {
    d == "" || d in dirs
  }

  class Disk {
    var dirs: set<string>
    var files: map<string, seq<bv8>>
    const sources: map<string, seq<bv8>>
    const refused: set<string>

    constructor (dirs: set<string>, files: map<string, seq<bv8>>,
                 sources: map<string, seq<bv8>>, refused: set<string>)
      ensures this.dirs == dirs && this.files == files
      ensures this.sources == sources && this.refused == refused
    {
      this.dirs := dirs;
      this.files := files;
      this.sources := sources;
      this.refused := refused;
    }

    /** ioutil.ReadFile. */
    method ReadFile(p: string) returns (r: Option<seq<bv8>>)
      ensures r == if p in sources then Some(sources[p]) else None
    {
      r := if p in sources then Some(sources[p]) else None;
    }

    /** os.MkdirAll: the directory and whatever leads to it (only the named one is tracked). */
    method MkdirAll(p: string)
      modifies this`dirs
      ensures dirs == if DirPath(p) in refused then old(dirs) else old(dirs) + {DirPath(p)}
    {
      if DirPath(p) !in refused {
        dirs := dirs + {DirPath(p)};
      }
    }

    /** os.Mkdir: succeeds only inside an existing directory; its error is ignored by the callers. */
    method Mkdir(p: string)
      modifies this`dirs
      ensures dirs == if Exists(old(dirs), Parent(DirPath(p))) && DirPath(p) !in refused
                      then old(dirs) + {DirPath(p)} else old(dirs)
    {
      if Exists(dirs, Parent(DirPath(p))) && DirPath(p) !in refused {
        dirs := dirs + {DirPath(p)};
      }
    }

    /** ioutil.WriteFile: fails when the parent directory is missing or the path is refused. */
    method WriteFile(p: string, data: seq<bv8>) returns (ok: bool)
      modifies this`files
      ensures ok == (Exists(dirs, Parent(p)) && p !in refused)
      ensures files == if ok then old(files)[p := data] else old(files)
    {
      ok := Exists(dirs, Parent(p)) && p !in refused;
      if ok {
        files := files[p := data];
      }
    }
  }

  // ---------------------------------------------------------------- createDirStruc

  /** The directory MkdirAll(p) leaves behind, if the device accepts it. */
  function MadeAll(p: string, refused: set<string>): set<string>
  {
    if DirPath(p) in refused then {} else {DirPath(p)}
  }

  /** The directories createDirStruc makes for roots: each root and its "dir0". */
  function Prepared(roots: seq<string>, refused: set<string>): set<string>
  {
    if |roots| == 0 then {}
    else
      var r := roots[|roots| - 1];
      Prepared(roots[..|roots| - 1], refused) + MadeAll(r, refused) + MadeAll(r + "dir0", refused)
  }

  method CreateDirStruc(disk: Disk, roots: seq<string>)
    modifies disk`dirs
    ensures disk.dirs == old(disk.dirs) + Prepared(roots, disk.refused)
  {
    for i := 0 to |roots|
      invariant disk.dirs == old(disk.dirs) + Prepared(roots[..i], disk.refused)
    {
      assert roots[..i + 1][..i] == roots[..i];
      disk.MkdirAll(roots[i]);
      disk.MkdirAll(roots[i] + "dir0");
    }
    assert roots[..|roots|] == roots;
  }

  // ---------------------------------------------------------------- copyFile

  datatype CopyError = ReadFailed(path: string) | WriteFailed(path: string)

  /** Index j's Mkdir succeeds: the root's directory exists and the shard is not refused. */
  predicate MkdirOk(dirs0: set<string>, refused: set<string>, dir: string, j: int)
  {
    Exists(dirs0, Parent(dir)) && dir + ShardName(j) !in refused
  }

  /** The shards copyFile has created once the indices in [lo, hi) were processed. */
  function ShardsMade(dirs0: set<string>, refused: set<string>, dir: string, lo: int, hi: int): set<string>
    decreases hi - lo
  {
    if hi <= lo then {}
    else ShardsMade(dirs0, refused, dir, lo, hi - 1) +
         (if OpensShard(hi - 1) && MkdirOk(dirs0, refused, dir, hi - 1) then {dir + ShardName(hi - 1)} else {})
  }

  /** The write of index j succeeds: its shard exists by then and its path is not refused. */
  predicate WriteOk(dirs0: set<string>, refused: set<string>, dir: string, start: int, j: int,
                    clock: int -> int, gen: (int, nat) -> nat)
  {
    dir + ShardName(j) in dirs0 + ShardsMade(dirs0, refused, dir, start, j + 1) &&
    DestFile(dir, j, clock, gen) !in refused
  }

  /** Every write of the indices in [start, hi) succeeded. */
  predicate AllWritesOk(dirs0: set<string>, refused: set<string>, dir: string, start: int, hi: int,
                        clock: int -> int, gen: (int, nat) -> nat)
    decreases hi - start
  {
    hi <= start ||
    (AllWritesOk(dirs0, refused, dir, start, hi - 1, clock, gen) && WriteOk(dirs0, refused, dir, start, hi - 1, clock, gen))
  }

  lemma {:induction false} AllWritesOkEach(dirs0: set<string>, refused: set<string>, dir: string, start: int, hi: int,
                                           clock: int -> int, gen: (int, nat) -> nat)
    ensures AllWritesOk(dirs0, refused, dir, start, hi, clock, gen) <==>
            forall j :: start <= j < hi ==> WriteOk(dirs0, refused, dir, start, j, clock, gen)
    decreases hi - start
  {
    if hi > start {
      AllWritesOkEach(dirs0, refused, dir, start, hi - 1, clock, gen);
      if forall j :: start <= j < hi ==> WriteOk(dirs0, refused, dir, start, j, clock, gen) {
        assert WriteOk(dirs0, refused, dir, start, hi - 1, clock, gen);
      }
    }
  }

  /** The files on disk once indices [lo, hi) were written with data. */
  function Written(files0: map<string, seq<bv8>>, data: seq<bv8>, dir: string, lo: int, hi: int,
                   clock: int -> int, gen: (int, nat) -> nat): map<string, seq<bv8>>
    decreases hi - lo
  {
    if hi <= lo then files0
    else Written(files0, data, dir, lo, hi - 1, clock, gen)[DestFile(dir, hi - 1, clock, gen) := data]
  }

  lemma RStripSlashAfterSlash(x: string)
    ensures RStripSlash(x + "/") == RStripSlash(x)
  {
    var s := x + "/";
    assert s[..|s| - 1] == x;
  }

  lemma LastIndexOfAppend(a: string, b: string, c: char)
    requires c in a && c !in b
    ensures c in a + b && LastIndexOf(a + b, c) == LastIndexOf(a, c)
    decreases |b|
  {
    if |b| > 0 {
      var s := a + b;
      assert s[..|s| - 1] == a + b[..|b| - 1];
      LastIndexOfAppend(a, b[..|b| - 1], c);
    } else {
      assert a + b == a;
    }
  }

  /** Appending a name without '/' does not change the directory an entry lives in. */
  lemma ParentAppend(a: string, b: string)
    requires '/' !in b
    ensures Parent(a + b) == Parent(a)
  {
    if '/' in a {
      LastIndexOfAppend(a, b, '/');
      var k := LastIndexOf(a, '/');
      assert (a + b)[..k] == a[..k];
    } else {
      assert '/' !in a + b;
    }
  }

  lemma ShardNameShape(i: int)
    ensures '/' !in ShardName(i) && |ShardName(i)| > 3
    ensures ShardName(i)[|ShardName(i)| - 1] != '/'
  {
    var q := IntToString(GoQuo(i, ShardWidth));
    assert ShardName(i)[|ShardName(i)| - 1] == q[|q| - 1];
  }

  /** The file of index i lands in its own shard. */
  lemma ParentOfDest(dir: string, i: int, clock: int -> int, gen: (int, nat) -> nat)
    ensures Parent(DestFile(dir, i, clock, gen)) == dir + ShardName(i)
  {
    var x := dir + ShardName(i);
    var name := FileName(i, clock(i), gen);
    var p := x + "/" + name;
    assert p == DestFile(dir, i, clock, gen);
    assert p[|x|] == '/';
    assert '/' in p;
    assert p[|x| + 1..] == name;
    LastIndexOfIs(p, '/', |x|);
    var k := LastIndexOf(p, '/');
    assert p[..k] == x;
    ShardNameShape(i);
    assert x[|x| - 1] != '/';
    TrimEndNothing(x, IsSlash);
  }

  /** Mkdir(dir + subDir) creates dir + ShardName(i), inside Parent(dir). */
  lemma MkdirTarget(dir: string, i: int)
    ensures DirPath(dir + ShardName(i) + "/") == dir + ShardName(i)
    ensures Parent(DirPath(dir + ShardName(i) + "/")) == Parent(dir)
  {
    var x := dir + ShardName(i);
    RStripSlashAfterSlash(x);
    ShardNameShape(i);
    TrimEndNothing(x, IsSlash);
    ParentAppend(dir, ShardName(i));
  }

  lemma {:induction false} ShardsMadeLonger(dirs0: set<string>, refused: set<string>, dir: string, lo: int, hi: int)
    ensures forall x :: x in ShardsMade(dirs0, refused, dir, lo, hi) ==> |x| > |dir|
    decreases hi - lo
  {
    if hi > lo {
      ShardsMadeLonger(dirs0, refused, dir, lo, hi - 1);
      ShardNameShape(hi - 1);
    }
  }

  /** One iteration's Mkdir: the shard opened at index i joins the directories. */
  lemma DirsStep(dirs0: set<string>, refused: set<string>, dir: string, start: int, i: int,
                 before: set<string>, after: set<string>)
    requires start <= i
    requires before == dirs0 + ShardsMade(dirs0, refused, dir, start, i)
    requires after == if OpensShard(i) && Exists(before, Parent(dir)) && dir + ShardName(i) !in refused
                      then before + {dir + ShardName(i)} else before
    ensures after == dirs0 + ShardsMade(dirs0, refused, dir, start, i + 1)
  {
    ShardsMadeLonger(dirs0, refused, dir, start, i);
    assert Exists(before, Parent(dir)) == Exists(dirs0, Parent(dir));
  }

  /** One iteration's WriteFile succeeds exactly when WriteOk says so. */
  lemma WriteStep(dirs0: set<string>, refused: set<string>, dir: string, start: int, i: int,
                  now: set<string>, clock: int -> int, gen: (int, nat) -> nat)
    requires now == dirs0 + ShardsMade(dirs0, refused, dir, start, i + 1)
    ensures Parent(DestFile(dir, i, clock, gen)) == dir + ShardName(i)
    ensures (Exists(now, Parent(DestFile(dir, i, clock, gen))) && DestFile(dir, i, clock, gen) !in refused)
            == WriteOk(dirs0, refused, dir, start, i, clock, gen)
  {
    ParentOfDest(dir, i, clock, gen);
    ShardNameShape(i);
  }

  /** One pass of copyFile's loop: open the shard if i starts one, then write the copy. */
  method CopyIndex(disk: Disk, input: seq<bv8>, dir: string, i: int,
                   clock: int -> int, gen: (int, nat) -> nat)
    returns (destFile: string, ok: bool)
    modifies disk`dirs, disk`files
    ensures destFile == DestFile(dir, i, clock, gen)
    ensures disk.dirs == if OpensShard(i) && Exists(old(disk.dirs), Parent(dir)) && dir + ShardName(i) !in disk.refused
                         then old(disk.dirs) + {dir + ShardName(i)} else old(disk.dirs)
    ensures ok == (Exists(disk.dirs, Parent(destFile)) && destFile !in disk.refused)
    ensures disk.files == if ok then old(disk.files)[destFile := input] else old(disk.files)
  {
    var dNum := IntToString(GoQuo(i, ShardWidth));
    var subDir := "dir" + dNum + "/";
    assert dir + subDir == dir + ShardName(i) + "/";
    if GoRem(i, ShardWidth) == 0 {
      MkdirTarget(dir, i);
      disk.Mkdir(dir + subDir);
    }
    var letters := RandomString(12, clock(i), gen);
    var fileName := IntToString(i) + "-" + letters + ".jpg";
    destFile := dir + subDir + fileName;
    assert destFile == DestFile(dir, i, clock, gen);
    ok := disk.WriteFile(destFile, input);
  }

  /**
   * copyFile of scripts/filegen-50KB.go: read the source once, then copy it to
   * every index of [start, end] in order, stopping at the first failed write.
   * It returns 0 on every path.
   */
  method CopyFile(disk: Disk, srcFile: string, dir: string, start: int, end: int,
                  clock: int -> int, gen: (int, nat) -> nat)
    returns (n: int, err: Option<CopyError>, ghost stop: int)
    modifies disk`dirs, disk`files
    ensures n == 0
    ensures srcFile !in disk.sources ==>
      err == Some(ReadFailed(srcFile)) && disk.dirs == old(disk.dirs) && disk.files == old(disk.files)
    ensures srcFile in disk.sources ==>
      && start <= stop
      && (err.None? <==> stop > end)
      && (err.None? ==> stop == if start <= end then end + 1 else start)
      && (err.Some? ==> stop <= end)
      && (err.Some? ==> err == Some(WriteFailed(DestFile(dir, stop, clock, gen))) &&
                        !WriteOk(old(disk.dirs), disk.refused, dir, start, stop, clock, gen))
      && AllWritesOk(old(disk.dirs), disk.refused, dir, start, stop, clock, gen)
      && disk.dirs == old(disk.dirs) + ShardsMade(old(disk.dirs), disk.refused, dir, start,
                                                  if err.Some? then stop + 1 else stop)
      && disk.files == Written(old(disk.files), disk.sources[srcFile], dir, start, stop, clock, gen)
  {
    var input := disk.ReadFile(srcFile);
    if input.None? {
      return 0, Some(ReadFailed(srcFile)), start;
    }
    err, stop := CopyRange(disk, input.value, dir, start, end, clock, gen);
    n := 0;
  }

  /** The loop of copyFile: index by index from start to end, up to the first failed write. */
  method CopyRange(disk: Disk, input: seq<bv8>, dir: string, start: int, end: int,
                   clock: int -> int, gen: (int, nat) -> nat)
    returns (err: Option<CopyError>, ghost stop: int)
    modifies disk`dirs, disk`files
    ensures start <= stop
    ensures err.None? ==> stop == (if start <= end then end + 1 else start)
    ensures err.None? ==> CopiedTo(old(disk.dirs), old(disk.files), disk.refused, input, dir, start, stop,
                                      disk.dirs, disk.files, clock, gen)
    ensures err.Some? ==> stop <= end && err.value.WriteFailed?
    ensures err.Some? ==> FailedAt(old(disk.dirs), old(disk.files), disk.refused, input, dir, start, stop,
                                      err.value.path, disk.dirs, disk.files, clock, gen)
  {
    ghost var dirs0, files0, refused := disk.dirs, disk.files, disk.refused;
    assert Written(files0, input, dir, start, start, clock, gen) == files0;
    ghost var last := if start <= end then end + 1 else start;
    var i := start;
    while i <= end
      invariant start <= i <= last
      invariant CopiedTo(dirs0, files0, refused, input, dir, start, i, disk.dirs, disk.files, clock, gen)
      decreases end - i
    {
      var destFile, ok := CopyNext(disk, input, dir, start, i, clock, gen, dirs0, files0);
      if !ok {
        return Some(WriteFailed(destFile)), i;
      }
      i := i + 1;
    }
    return None, i;
  }

  /** One pass of copyFile's loop, from a state where [start, i) was copied. */
  method CopyNext(disk: Disk, input: seq<bv8>, dir: string, start: int, i: int,
                  clock: int -> int, gen: (int, nat) -> nat, ghost dirs0: set<string>, ghost files0: map<string, seq<bv8>>)
    returns (destFile: string, ok: bool)
    modifies disk`dirs, disk`files
    requires start <= i
    requires CopiedTo(dirs0, files0, disk.refused, input, dir, start, i, disk.dirs, disk.files, clock, gen)
    ensures ok ==> CopiedTo(dirs0, files0, disk.refused, input, dir, start, i + 1, disk.dirs, disk.files, clock, gen)
    ensures !ok ==> FailedAt(dirs0, files0, disk.refused, input, dir, start, i, destFile, disk.dirs, disk.files, clock, gen)
  {
    ghost var (dirs1, files1) := (disk.dirs, disk.files);
    destFile, ok := CopyIndex(disk, input, dir, i, clock, gen);
    CopyStep(dirs0, files0, disk.refused, input, dir, start, i, dirs1, files1, disk.dirs, disk.files, destFile, ok, clock, gen);
  }

  /** The state once the writes of [start, i) all succeeded. */
  predicate CopiedTo(dirs0: set<string>, files0: map<string, seq<bv8>>, refused: set<string>, input: seq<bv8>,
                     dir: string, start: int, i: int, dirs: set<string>, files: map<string, seq<bv8>>,
                     clock: int -> int, gen: (int, nat) -> nat)
  {
    && AllWritesOk(dirs0, refused, dir, start, i, clock, gen)
    && dirs == dirs0 + ShardsMade(dirs0, refused, dir, start, i)
    && files == Written(files0, input, dir, start, i, clock, gen)
  }

  /** The state once the writes of [start, i) succeeded and the write of i, to path, failed. */
  predicate FailedAt(dirs0: set<string>, files0: map<string, seq<bv8>>, refused: set<string>, input: seq<bv8>,
                     dir: string, start: int, i: int, path: string, dirs: set<string>, files: map<string, seq<bv8>>,
                     clock: int -> int, gen: (int, nat) -> nat)
  {
    && path == DestFile(dir, i, clock, gen)
    && !WriteOk(dirs0, refused, dir, start, i, clock, gen)
    && AllWritesOk(dirs0, refused, dir, start, i, clock, gen)
    && dirs == dirs0 + ShardsMade(dirs0, refused, dir, start, i + 1)
    && files == Written(files0, input, dir, start, i, clock, gen)
  }

  /** One pass of copyFile's loop from a state where [start, i) was copied. */
  lemma CopyStep(dirs0: set<string>, files0: map<string, seq<bv8>>, refused: set<string>, input: seq<bv8>,
                 dir: string, start: int, i: int, dirs1: set<string>, files1: map<string, seq<bv8>>,
                 dirs: set<string>, files: map<string, seq<bv8>>, destFile: string, ok: bool,
                 clock: int -> int, gen: (int, nat) -> nat)
    requires start <= i
    requires CopiedTo(dirs0, files0, refused, input, dir, start, i, dirs1, files1, clock, gen)
    requires destFile == DestFile(dir, i, clock, gen)
    requires dirs == if OpensShard(i) && Exists(dirs1, Parent(dir)) && dir + ShardName(i) !in refused
                     then dirs1 + {dir + ShardName(i)} else dirs1
    requires ok == (Exists(dirs, Parent(destFile)) && destFile !in refused)
    requires files == if ok then files1[destFile := input] else files1
    ensures ok ==> CopiedTo(dirs0, files0, refused, input, dir, start, i + 1, dirs, files, clock, gen)
    ensures !ok ==> FailedAt(dirs0, files0, refused, input, dir, start, i, destFile, dirs, files, clock, gen)
  {
    DirsStep(dirs0, refused, dir, start, i, dirs1, dirs);
    WriteStep(dirs0, refused, dir, start, i, dirs, clock, gen);
  }

  // ---------------------------------------------------------------- properties

  /** Every index of [q*10000, (q+1)*10000) shares shard q, and only the first one opens it. */
  lemma ShardOfIndex(q: nat, r: nat)
    requires r < ShardWidth
    ensures GoQuo(q * ShardWidth + r, ShardWidth) == q
    ensures OpensShard(q * ShardWidth + r) <==> r == 0
  {
    var i := q * ShardWidth + r;
    assert i / ShardWidth == q;
  }

  /** Distinct indices never collide: the index is the name's prefix before its fixed-length tail. */
  lemma DestFileInjective(dir: string, i: int, j: int, clock: int -> int, gen: (int, nat) -> nat)
    ensures DestFile(dir, i, clock, gen) == DestFile(dir, j, clock, gen) ==> i == j
  {
    var a, b := DestFile(dir, i, clock, gen), DestFile(dir, j, clock, gen);
    if a == b {
      var na, nb := FileName(i, clock(i), gen), FileName(j, clock(j), gen);
      BasenameOfJoin(dir + ShardName(i), na);
      BasenameOfJoin(dir + ShardName(j), nb);
      assert dir + ShardName(i) + "/" + na == a;
      assert dir + ShardName(j) + "/" + nb == b;
      assert na == nb;
      assert |IntToString(i)| == |IntToString(j)|;
      IntToStringInjective(i, j);
    }
  }

  /** For roots ending in '/', the "dir0" that createDirStruc makes is the shard of indices -9999..9999. */
  lemma PreparedShardZero(dir: string, i: int)
    requires -ShardWidth < i < ShardWidth
    ensures DirPath(dir + "dir0") == dir + ShardName(i)
  {
    assert GoQuo(i, ShardWidth) == 0;
    assert dir + ShardName(i) == dir + "dir0";
    var x := dir + "dir0";
    assert x[|x| - 1] == '0';
    TrimEndNothing(x, IsSlash);
  }

  /** For a root ending in '/', the root's own directory is where its shards are made. */
  lemma ParentOfRoot(dir: string)
    requires EndsWith(dir, "/")
    ensures Parent(dir) == DirPath(dir)
  {
    var x := dir[..|dir| - 1];
    assert dir == x + "/";
    assert dir[|dir| - 1] == '/';
    var k := LastIndexOf(dir, '/');
    assert k == |dir| - 1;
    RStripSlashAfterSlash(x);
  }

  /** An index past 0 that opens a shard opens one other than shard 0. */
  lemma OtherShardName(dir: string, j: int)
    requires j >= 1 && OpensShard(j)
    ensures dir + ShardName(j) != dir + ShardName(0)
  {
    var q := GoQuo(j, ShardWidth);
    assert j == ShardWidth * q;
    assert q >= 1;
    assert GoQuo(0, ShardWidth) == 0;
    ShardNumbersDiffer(dir, q, 0);
  }

  lemma ShardNumbersDiffer(dir: string, q: int, q0: int)
    requires q0 == 0 < q
    ensures dir + ("dir" + IntToString(q)) != dir + ("dir" + IntToString(q0))
  {
    IntToStringInjective(q, 0);
    assert (dir + ("dir" + IntToString(q)))[|dir| + 3..] == IntToString(q);
    assert (dir + ("dir" + IntToString(q0)))[|dir| + 3..] == IntToString(q0);
  }

  /** copyFile started at 1 never makes "dir0": it relies on createDirStruc for it. */
  lemma {:induction false} NoShardZeroMade(dirs0: set<string>, refused: set<string>, dir: string, lo: int, hi: int)
    requires lo >= 1
    ensures dir + ShardName(0) !in ShardsMade(dirs0, refused, dir, lo, hi)
    decreases hi - lo
  {
    if hi > lo {
      NoShardZeroMade(dirs0, refused, dir, lo, hi - 1);
      var j := hi - 1;
      var before := ShardsMade(dirs0, refused, dir, lo, j);
      if OpensShard(j) && MkdirOk(dirs0, refused, dir, j) {
        OtherShardName(dir, j);
        assert ShardsMade(dirs0, refused, dir, lo, hi) == before + {dir + ShardName(j)};
      } else {
        assert ShardsMade(dirs0, refused, dir, lo, hi) == before;
      }
    }
  }

  lemma {:induction false} ShardsMadeHas(dirs0: set<string>, refused: set<string>, dir: string, lo: int, hi: int, o: int)
    requires lo <= o < hi && OpensShard(o) && MkdirOk(dirs0, refused, dir, o)
    ensures dir + ShardName(o) in ShardsMade(dirs0, refused, dir, lo, hi)
    decreases hi - lo
  {
    if o < hi - 1 {
      ShardsMadeHas(dirs0, refused, dir, lo, hi - 1, o);
    }
  }

  /**
   * createDirStruc followed by copyFile from a start in (-10000, 10000]: with nothing refused,
   * every index finds its shard, so the whole range is written.
   */
  lemma PreparedRootWritesAll(dirs0: set<string>, dir: string, start: int, end: int,
                              clock: int -> int, gen: (int, nat) -> nat)
    requires EndsWith(dir, "/")
    requires DirPath(dir) in dirs0 && DirPath(dir + "dir0") in dirs0
    requires -ShardWidth < start <= ShardWidth
    ensures AllWritesOk(dirs0, {}, dir, start, end + 1, clock, gen)
  {
    ParentOfRoot(dir);
    AllWritesOkEach(dirs0, {}, dir, start, end + 1, clock, gen);
    forall j | start <= j <= end
      ensures WriteOk(dirs0, {}, dir, start, j, clock, gen)
    {
      PreparedShardExists(dirs0, dir, start, j);
    }
  }

  /** The shard of index j exists once j was processed: dir0 from createDirStruc, the rest from copyFile. */
  lemma PreparedShardExists(dirs0: set<string>, dir: string, start: int, j: int)
    requires Exists(dirs0, Parent(dir)) && DirPath(dir + "dir0") in dirs0
    requires -ShardWidth < start <= ShardWidth && start <= j
    ensures dir + ShardName(j) in dirs0 + ShardsMade(dirs0, {}, dir, start, j + 1)
  {
    if j < ShardWidth {
      PreparedShardZero(dir, j);
    } else {
      var q := j / ShardWidth;
      var o := q * ShardWidth;
      assert q >= 1;
      assert o >= ShardWidth;
      ShardOfIndex(q, j - o);
      ShardOfIndex(q, 0);
      assert ShardName(o) == ShardName(j);
      ShardsMadeHas(dirs0, {}, dir, start, j + 1, o);
    }
  }
}
