/**
 * The string operations the archivers lean on, written once: decimal rendering
 * (Python's str() and f"{n:04d}", Go's strconv.Itoa), str.split / str.join on one
 * separator character, strip, startswith, replace(old, new, 1) and basename.
 * Characters are Unicode code points; the whitespace set is the one str.strip()
 * removes: the ASCII spaces and separators and the Unicode space characters.
 */
module Text {
  import opened Wrappers

  /** Python truthiness of an optional string: present and not empty. */
  predicate Truthy(o: Option<string>) { o.Some? && o.value != "" }

  /** o or d in Python, for an optional string o. */
  function OrElse(o: Option<string>, d: string): string
  {
    if o.Some? && o.value != "" then o.value else d
  }

  // ---------------------------------------------------------------- digits

  predicate IsDigit(c: char) { '0' <= c <= '9' }

  predicate AllDigits(s: string) { forall i :: 0 <= i < |s| ==> IsDigit(s[i]) }

  function DigitChar(d: nat): (c: char)
    requires d < 10
    ensures IsDigit(c) && c as int - '0' as int == d
  {
    ('0' as int + d) as char
  }

  /** The decimal digits of n, without leading zeros. */
  function Dec(n: nat): (s: string)
    ensures 1 <= |s| && AllDigits(s)
  {
    if n < 10 then [DigitChar(n)] else Dec(n / 10) + [DigitChar(n % 10)]
  }

  /** The number a string of decimal digits denotes (leading zeros allowed). */
  function DigitsValue(s: string): nat
    requires AllDigits(s)
  {
    if |s| == 0 then 0
    else DigitsValue(s[..|s| - 1]) * 10 + (s[|s| - 1] as int - '0' as int)
  }

  lemma {:induction false} DecValue(n: nat)
    ensures DigitsValue(Dec(n)) == n
  {
    if n >= 10 {
      var s := Dec(n);
      assert s[..|s| - 1] == Dec(n / 10);
      DecValue(n / 10);
    }
  }

  lemma DecInjective(a: nat, b: nat)
    ensures Dec(a) == Dec(b) ==> a == b
  {
    DecValue(a);
    DecValue(b);
  }

  /** str() of an int: a minus sign in front of the digits of a negative number. */
  function IntToString(i: int): (s: string)
    ensures 1 <= |s|
    ensures i < 0 <==> s[0] == '-'
    ensures '/' !in s && '_' !in s && '|' !in s && ' ' !in s && '\n' !in s
  {
    if i < 0 then "-" + Dec(-i) else Dec(i)
  }

  lemma IntToStringInjective(a: int, b: int)
    ensures IntToString(a) == IntToString(b) ==> a == b
  {
    if IntToString(a) == IntToString(b) {
      if a < 0 && b < 0 {
        assert Dec(-a) == IntToString(a)[1..] == IntToString(b)[1..] == Dec(-b);
        DecInjective(-a, -b);
      } else if a >= 0 && b >= 0 {
        DecInjective(a, b);
      }
    }
  }

  lemma NoSeparatorInDigits(s: string, c: char)
    requires AllDigits(s) && !IsDigit(c)
    ensures c !in s
  {
  }

  function Zeros(k: nat): (z: string)
    ensures |z| == k && AllDigits(z)
    ensures forall i :: 0 <= i < k ==> z[i] == '0'
  {
    seq(k, _ => '0')
  }

  /** f"{n:0<width>d}": the digits of n, padded on the left with zeros to width. */
  function ZeroPad(n: nat, width: nat): (s: string)
    ensures |s| == if |Dec(n)| < width then width else |Dec(n)|
    ensures AllDigits(s)
  {
    if |Dec(n)| < width then Zeros(width - |Dec(n)|) + Dec(n) else Dec(n)
  }

  lemma {:induction false} ZerosValue(k: nat)
    ensures DigitsValue(Zeros(k)) == 0
  {
    if k > 0 {
      assert Zeros(k)[..k - 1] == Zeros(k - 1);
      ZerosValue(k - 1);
    }
  }

  lemma {:induction false} LeadingZerosValue(k: nat, s: string)
    requires AllDigits(s)
    ensures DigitsValue(Zeros(k) + s) == DigitsValue(s)
    decreases |s|
  {
    if |s| == 0 {
      assert Zeros(k) + s == Zeros(k);
      ZerosValue(k);
    } else {
      var t := Zeros(k) + s;
      assert t[..|t| - 1] == Zeros(k) + s[..|s| - 1];
      LeadingZerosValue(k, s[..|s| - 1]);
    }
  }

  /** Zero padding keeps the value: the padded sequence number reads back as itself. */
  lemma ZeroPadValue(n: nat, width: nat)
    ensures DigitsValue(ZeroPad(n, width)) == n
  {
    DecValue(n);
    if |Dec(n)| < width {
      LeadingZerosValue(width - |Dec(n)|, Dec(n));
    }
  }

  lemma ZeroPadInjective(a: nat, b: nat, width: nat)
    ensures ZeroPad(a, width) == ZeroPad(b, width) ==> a == b
  {
    ZeroPadValue(a, width);
    ZeroPadValue(b, width);
  }

  // ---------------------------------------------------------------- search

  predicate StartsWith(s: string, p: string) { |p| <= |s| && s[..|p|] == p }

  predicate EndsWith(s: string, p: string) { |p| <= |s| && s[|s| - |p|..] == p }

  /** The first position of c in s. */
  function IndexOf(s: string, c: char): (i: nat)
    requires c in s
    ensures i < |s| && s[i] == c && c !in s[..i]
  {
    if s[0] == c then 0
    else
      var j := IndexOf(s[1..], c);
      assert s[..j + 1] == [s[0]] + s[1..][..j];
      j + 1
  }

  /** IndexOf is the one position holding c with no c before it. */
  lemma IndexOfIs(s: string, c: char, i: nat)
    requires i < |s| && s[i] == c && c !in s[..i]
    ensures IndexOf(s, c) == i
  {
    var j := IndexOf(s, c);
    assert forall k :: 0 <= k < i ==> s[..i][k] == s[k];
    assert forall k :: 0 <= k < j ==> s[..j][k] == s[k];
  }

  /** The last position of c in s. */
  function LastIndexOf(s: string, c: char): (i: nat)
    requires c in s
    ensures i < |s| && s[i] == c && c !in s[i + 1..]
  {
    if s[|s| - 1] == c then |s| - 1
    else
      assert c in s[..|s| - 1];
      var j := LastIndexOf(s[..|s| - 1], c);
      assert s[j + 1..] == s[..|s| - 1][j + 1..] + [s[|s| - 1]];
      j
  }

  /** LastIndexOf is the one position holding c with no c after it. */
  lemma LastIndexOfIs(s: string, c: char, i: nat)
    requires i < |s| && s[i] == c && c !in s[i + 1..]
    ensures LastIndexOf(s, c) == i
  {
    var j := LastIndexOf(s, c);
    assert forall k :: i < k < |s| ==> s[i + 1..][k - i - 1] == s[k];
    assert forall k :: j < k < |s| ==> s[j + 1..][k - j - 1] == s[k];
  }

  predicate OccursAt(s: string, pat: string, j: nat)
  {
    j + |pat| <= |s| && s[j..j + |pat|] == pat
  }

  /** str.find: the first position where pat occurs in s. */
  function Find(s: string, pat: string): (r: Option<nat>)
    ensures r.Some? ==> OccursAt(s, pat, r.value)
    ensures r.Some? ==> forall j :: 0 <= j < r.value ==> !OccursAt(s, pat, j)
    ensures r.None? ==> forall j :: 0 <= j <= |s| ==> !OccursAt(s, pat, j)
    decreases |s|
  {
    if StartsWith(s, pat) then Some(0)
    else if |s| == 0 then None
    else
      var r := Find(s[1..], pat);
      OccursShift(s, pat);
      match r
      case None => None
      case Some(k) => Some(k + 1)
  }

  /** An occurrence at j > 0 in s is one at j - 1 in s[1..], and the other way round. */
  lemma OccursShift(s: string, pat: string)
    requires |s| > 0
    ensures forall j :: 1 <= j <= |s| ==> (OccursAt(s, pat, j) <==> OccursAt(s[1..], pat, j - 1))
  {
    forall j | 1 <= j <= |s| ensures OccursAt(s, pat, j) <==> OccursAt(s[1..], pat, j - 1) {
      if j + |pat| <= |s| {
        assert s[1..][j - 1..j - 1 + |pat|] == s[j..j + |pat|];
      }
    }
  }

  /** str.replace(pat, rep, 1): the first occurrence of pat replaced by rep. */
  function ReplaceFirst(s: string, pat: string, rep: string): (r: string)
  {
    match Find(s, pat)
    case None => s
    case Some(i) => s[..i] + rep + s[i + |pat|..]
  }

  lemma ReplaceFirstAtStart(s: string, pat: string, rep: string)
    requires StartsWith(s, pat)
    ensures ReplaceFirst(s, pat, rep) == rep + s[|pat|..]
  {
    assert OccursAt(s, pat, 0);
  }

  /** str.replace(a, b) for single characters: every a becomes b. */
  function ReplaceChar(s: string, a: char, b: char): (r: string)
    ensures |r| == |s|
    ensures forall i :: 0 <= i < |s| ==> r[i] == if s[i] == a then b else s[i]
  {
    seq(|s|, i requires 0 <= i < |s| => if s[i] == a then b else s[i])
  }

  // ---------------------------------------------------------------- strip

  /**
   * The characters str.strip() removes, those str.isspace() accepts: tab to
   * carriage return, the four separators 0x1C-0x1F, space, NEL, no-break
   * space, and the Unicode spaces and line and paragraph separators.
   */
  predicate IsSpace(c: char)
  {
    var n := c as int;
    (9 <= n <= 13) || (0x1C <= n <= 0x20) || n == 0x85 || n == 0xA0 || n == 0x1680 ||
    (0x2000 <= n <= 0x200A) || n == 0x2028 || n == 0x2029 || n == 0x202F || n == 0x205F || n == 0x3000
  }

  /** s with the leading characters that satisfy drop removed. */
  function TrimStart(s: string, drop: char -> bool): (r: string)
    ensures |r| <= |s| && r == s[|s| - |r|..]
    ensures |r| > 0 ==> !drop(r[0])
    ensures forall i :: 0 <= i < |s| - |r| ==> drop(s[i])
  {
    if |s| > 0 && drop(s[0]) then
      var r := TrimStart(s[1..], drop);
      assert forall i :: 1 <= i < |s| - |r| ==> s[i] == s[1..][i - 1];
      r
    else s
  }

  /** s with the trailing characters that satisfy drop removed. */
  function TrimEnd(s: string, drop: char -> bool): (r: string)
    ensures |r| <= |s| && r == s[..|r|]
    ensures |r| > 0 ==> !drop(r[|r| - 1])
    ensures forall i :: |r| <= i < |s| ==> drop(s[i])
  {
    if |s| > 0 && drop(s[|s| - 1]) then
      var r := TrimEnd(s[..|s| - 1], drop);
      assert r == s[..|r|];
      r
    else s
  }

  /** str.strip() with no argument. */
  function Strip(s: string): (r: string)
  {
    TrimEnd(TrimStart(s, IsSpace), IsSpace)
  }

  predicate IsSlash(c: char) { c == '/' }

  /** str.rstrip('/'). */
  function RStripSlash(s: string): (r: string)
  {
    TrimEnd(s, IsSlash)
  }

  /** str.lstrip('/'). */
  function LStripSlash(s: string): (r: string)
  {
    TrimStart(s, IsSlash)
  }

  /** Trimming a string that has nothing to trim at that end gives it back. */
  lemma TrimEndNothing(s: string, drop: char -> bool)
    requires |s| > 0 ==> !drop(s[|s| - 1])
    ensures TrimEnd(s, drop) == s
  {
  }

  lemma TrimStartNothing(s: string, drop: char -> bool)
    requires |s| > 0 ==> !drop(s[0])
    ensures TrimStart(s, drop) == s
  {
  }

  lemma StripNothing(s: string)
    requires |s| > 0 ==> !IsSpace(s[0]) && !IsSpace(s[|s| - 1])
    ensures Strip(s) == s
  {
    TrimStartNothing(s, IsSpace);
    TrimEndNothing(s, IsSpace);
  }

  // ---------------------------------------------------------------- upper

  function UpperChar(c: char): char
  {
    if 'a' <= c <= 'z' then (c as int - 32) as char else c
  }

  /** str.upper() on ASCII letters. */
  function Upper(s: string): (r: string)
    ensures |r| == |s| && forall i :: 0 <= i < |s| ==> r[i] == UpperChar(s[i])
  {
    seq(|s|, i requires 0 <= i < |s| => UpperChar(s[i]))
  }

  // ---------------------------------------------------------------- split and join

  /** str.split(c): the pieces between the occurrences of c, never an empty list. */
  function Split(s: string, c: char): (parts: seq<string>)
    ensures |parts| >= 1
    ensures forall k :: 0 <= k < |parts| ==> c !in parts[k]
    decreases |s|
  {
    if c !in s then [s]
    else
      var i := IndexOf(s, c);
      [s[..i]] + Split(s[i + 1..], c)
  }

  /** c.join(parts). */
  function Join(parts: seq<string>, c: char): string
  {
    if |parts| == 0 then ""
    else if |parts| == 1 then parts[0]
    else parts[0] + [c] + Join(parts[1..], c)
  }

  predicate NoneContains(parts: seq<string>, c: char)
  {
    forall k :: 0 <= k < |parts| ==> c !in parts[k]
  }

  /** Joining the pieces of a split gives the original string back. */
  lemma {:induction false} JoinSplit(s: string, c: char)
    ensures Join(Split(s, c), c) == s
    decreases |s|
  {
    if c in s {
      var i := IndexOf(s, c);
      var rest := Split(s[i + 1..], c);
      JoinSplit(s[i + 1..], c);
      var parts := [s[..i]] + rest;
      assert Split(s, c) == parts;
      assert parts[0] == s[..i] && parts[1..] == rest && |parts| >= 2;
      assert Join(parts, c) == s[..i] + [c] + Join(rest, c);
      assert s == s[..i] + [c] + s[i + 1..];
    }
  }

  /** Splitting a join of separator-free pieces gives the pieces back. */
  lemma {:induction false} SplitJoin(parts: seq<string>, c: char)
    requires |parts| >= 1 && NoneContains(parts, c)
    ensures Split(Join(parts, c), c) == parts
    decreases |parts|
  {
    if |parts| > 1 {
      var s := Join(parts, c);
      var p := parts[0];
      assert s == p + [c] + Join(parts[1..], c);
      assert s[|p|] == c;
      assert s[..|p|] == p;
      assert c in s;
      IndexOfIs(s, c, |p|);
      var i := IndexOf(s, c);
      assert s[i + 1..] == Join(parts[1..], c);
      SplitJoin(parts[1..], c);
    }
  }

  /** The separator splits a string into the pieces of either side. */
  lemma {:induction false} SplitAround(a: string, b: string, c: char)
    requires c !in a
    ensures Split(a + [c] + b, c) == [a] + Split(b, c)
  {
    var s := a + [c] + b;
    assert s[|a|] == c;
    assert s[..|a|] == a;
    IndexOfIs(s, c, |a|);
    var i := IndexOf(s, c);
    assert s[..i] == a;
    assert s[i + 1..] == b;
  }

  lemma SplitNone(s: string, c: char)
    requires c !in s
    ensures Split(s, c) == [s]
  {
  }

  /** os.path.basename / key.split('/')[-1]: what follows the last '/'. */
  function Basename(path: string): (name: string)
    ensures '/' !in name
  {
    var parts := Split(path, '/');
    parts[|parts| - 1]
  }

  lemma {:induction false} SplitLast(a: string, b: string, c: char)
    ensures var p := Split(a + [c] + b, c); var q := Split(b, c); p[|p| - 1] == q[|q| - 1]
    decreases |a|
  {
    var s := a + [c] + b;
    if c !in a {
      SplitAround(a, b, c);
    } else {
      var i := IndexOf(a, c);
      assert s[..i] == a[..i];
      assert c !in s[..i];
      IndexOfIs(s, c, i);
      var j := IndexOf(s, c);
      assert s[j + 1..] == a[i + 1..] + [c] + b;
      SplitLast(a[i + 1..], b, c);
    }
  }

  /** The base name of dir + "/" + name is name, whatever dir holds. */
  lemma BasenameOfJoin(dir: string, name: string)
    requires '/' !in name
    ensures Basename(dir + "/" + name) == name
  {
    SplitLast(dir, name, '/');
    assert dir + "/" + name == dir + ['/'] + name;
  }

  /** Appending a separator and a separator-free piece adds that piece to the split. */
  lemma {:induction false} SplitSnoc(a: string, b: string, c: char)
    requires c !in b
    ensures Split(a + [c] + b, c) == Split(a, c) + [b]
    decreases |a|
  {
    var s := a + [c] + b;
    if c !in a {
      SplitAround(a, b, c);
    } else {
      var i := IndexOf(a, c);
      assert s[..i] == a[..i];
      assert c !in s[..i];
      IndexOfIs(s, c, i);
      assert s[i + 1..] == a[i + 1..] + [c] + b;
      SplitSnoc(a[i + 1..], b, c);
    }
  }

  /** A character missing from s is missing from every piece of its split. */
  lemma {:induction false} SplitPartsWithout(s: string, c: char, d: char)
    requires d !in s
    ensures NoneContains(Split(s, c), d)
    decreases |s|
  {
    if c in s {
      var i := IndexOf(s, c);
      assert d !in s[i + 1..] && d !in s[..i] by {
        assert forall x :: x in s[i + 1..] ==> x in s;
        assert forall x :: x in s[..i] ==> x in s;
      }
      SplitPartsWithout(s[i + 1..], c, d);
    }
  }

  /** Splitting around one separator splits each side separately. */
  lemma {:induction false} SplitConcat(a: string, b: string, c: char)
    ensures Split(a + [c] + b, c) == Split(a, c) + Split(b, c)
    decreases |a|
  {
    var s := a + [c] + b;
    if c !in a {
      SplitAround(a, b, c);
    } else {
      var i := IndexOf(a, c);
      assert s[..i] == a[..i];
      assert c !in s[..i];
      IndexOfIs(s, c, i);
      assert s[i + 1..] == a[i + 1..] + [c] + b;
      SplitConcat(a[i + 1..], b, c);
    }
  }

  /** A non-empty sequence is its front followed by its last element. */
  lemma FrontLast<T>(s: seq<T>)
    requires |s| > 0
    ensures s[..|s| - 1] + [s[|s| - 1]] == s
  {
  }

  /** Extending a prefix by the next element gives the next prefix. */
  lemma PrefixSnoc<T>(s: seq<T>, i: nat)
    requires i < |s|
    ensures s[..i] + [s[i]] == s[..i + 1]
  {
  }

  lemma AppendThree<T>(base: seq<T>, a: T, b: T, c: T)
    ensures base + [a] + [b] + [c] == base + [a, b, c]
  {
  }

  /** Joining one more piece puts the separator and the piece after the old join. */
  lemma {:induction false} JoinSnoc(parts: seq<string>, x: string, c: char)
    requires |parts| >= 1
    ensures Join(parts + [x], c) == Join(parts, c) + [c] + x
    decreases |parts|
  {
    if |parts| > 1 {
      assert (parts + [x])[1..] == parts[1..] + [x];
      JoinSnoc(parts[1..], x, c);
    }
  }

  /** A character in no piece and other than the separator is not in the join. */
  lemma {:induction false} JoinWithout(parts: seq<string>, c: char, d: char)
    requires NoneContains(parts, d) && d != c
    ensures d !in Join(parts, c)
    decreases |parts|
  {
    if |parts| > 1 {
      assert NoneContains(parts[1..], d) by {
        assert forall k :: 1 <= k < |parts| ==> parts[1..][k - 1] == parts[k];
      }
      JoinWithout(parts[1..], c, d);
    }
  }

  /** A join begins with its first piece and ends with its last. */
  lemma {:induction false} JoinEnds(parts: seq<string>, c: char)
    requires |parts| >= 1
    ensures var j := Join(parts, c); var last := parts[|parts| - 1];
      |parts[0]| <= |j| && j[..|parts[0]|] == parts[0]
      && |last| <= |j| && j[|j| - |last|..] == last
    decreases |parts|
  {
    if |parts| > 1 {
      JoinEnds(parts[1..], c);
      var j := Join(parts, c);
      var rest := Join(parts[1..], c);
      assert j == parts[0] + [c] + rest;
      assert j[..|parts[0]|] == parts[0];
      assert j[|j| - |rest|..] == rest;
      assert parts[1..][|parts[1..]| - 1] == parts[|parts| - 1];
      var last := parts[|parts| - 1];
      assert j[|j| - |last|..] == rest[|rest| - |last|..];
    }
  }
}
