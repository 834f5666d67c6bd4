/**
 * parse_size and format_duration of the v2 archivers: the command-line size
 * argument ("100MB", "2gb", "1.5T") read as a byte count with binary multipliers,
 * and an elapsed time written as "Nh Nm Ns".
 */
module SizeUnits {
  import opened Wrappers
  import opened Text
  import opened Binary64

  /**
   * The ArgumentTypeErrors parse_size raises, and FloatOverflow: the
   * OverflowError of int() on an infinite float, which the `except
   * ValueError` does not turn into an ArgumentTypeError.
   */
  datatype SizeError = InvalidFormat | InvalidUnit | InvalidNumber | FloatOverflow | TooManyDigits

  /**
   * CPython's default limit on the digits int() converts from a decimal string
   * (sys.get_int_max_str_digits()); a longer string makes int() raise ValueError.
   */
  const IntMaxStrDigits: nat := 4300

  /** The unit table: B, K/KB, M/MB, G/GB, T/TB in powers of 1024. */
  function Multiplier(unit: string): Option<nat>
  {
    if unit == "B" then Some(1)
    else if unit == "K" || unit == "KB" then Some(1024)
    else if unit == "M" || unit == "MB" then Some(1024 * 1024)
    else if unit == "G" || unit == "GB" then Some(1024 * 1024 * 1024)
    else if unit == "T" || unit == "TB" then Some(1024 * 1024 * 1024 * 1024)
    else None
  }

  /** The same table as binary exponents: each multiplier is 2 to this power. */
  function UnitBits(unit: string): Option<nat>
  {
    if unit == "B" then Some(0)
    else if unit == "K" || unit == "KB" then Some(10)
    else if unit == "M" || unit == "MB" then Some(20)
    else if unit == "G" || unit == "GB" then Some(30)
    else if unit == "T" || unit == "TB" then Some(40)
    else None
  }

  predicate IsNumberChar(c: char) { IsDigit(c) || c == '.' }

  /** The characters the loop collects into `number`, in order. */
  function NumberChars(s: string): (r: string)
    ensures forall i :: 0 <= i < |r| ==> IsNumberChar(r[i])
  {
    if |s| == 0 then ""
    else if IsNumberChar(s[|s| - 1]) then NumberChars(s[..|s| - 1]) + [s[|s| - 1]]
    else NumberChars(s[..|s| - 1])
  }

  /** The characters the loop collects into `unit`, in order. */
  function UnitChars(s: string): (r: string)
    ensures forall i :: 0 <= i < |r| ==> !IsNumberChar(r[i])
  {
    if |s| == 0 then ""
    else if IsNumberChar(s[|s| - 1]) then UnitChars(s[..|s| - 1])
    else UnitChars(s[..|s| - 1]) + [s[|s| - 1]]
  }

  function Pow10(k: nat): (r: nat)
    ensures r >= 1
  {
    if k == 0 then 1 else 10 * Pow10(k - 1)
  }

  /** int(float(num/den) * 2^bits): OverflowError once the product is infinite. */
  function FloatProduct(num: nat, den: nat, bits: nat): Result<nat, SizeError>
    requires den > 0
  {
    match Truncate(TimesPow2(Round(num, den), bits))
    case None => Failure(FloatOverflow)
    case Some(v) => Success(v)
  }

  /**
   * int(float(number) * 2^bits) for a string of digits and points: an
   * invalid number where float() raises ValueError (no digit, or more than
   * one point).
   */
  function ScaledDecimal(number: string, bits: nat): Result<nat, SizeError>
    requires forall i :: 0 <= i < |number| ==> IsNumberChar(number[i])
  {
    if '.' !in number then
      NoPointDigits(number);
      if |number| == 0 then Failure(InvalidNumber) else FloatProduct(DigitsValue(number), 1, bits)
    else
      var p := IndexOf(number, '.');
      PointSplit(number, p);
      ScaledPoint(number[..p], number[p + 1..], bits)
  }

  /** The digits either side of the first point, scaled: invalid when another point follows. */
  function ScaledPoint(whole: string, frac: string, bits: nat): Result<nat, SizeError>
    requires AllDigits(whole) && ('.' !in frac ==> AllDigits(whole + frac))
  {
    if '.' in frac || |whole| + |frac| == 0 then Failure(InvalidNumber)
    else FloatProduct(DigitsValue(whole + frac), Pow10(|frac|), bits)
  }

  lemma NoPointDigits(s: string)
    requires forall i :: 0 <= i < |s| ==> IsNumberChar(s[i])
    requires '.' !in s
    ensures AllDigits(s)
  {
    forall i | 0 <= i < |s| ensures IsDigit(s[i]) {
      assert s[i] in s;
    }
  }

  /** Both sides of the first point are digits when no other point follows. */
  lemma PointSplit(number: string, p: nat)
    requires forall i :: 0 <= i < |number| ==> IsNumberChar(number[i])
    requires p < |number| && '.' !in number[..p]
    ensures var whole, frac := number[..p], number[p + 1..];
      AllDigits(whole) && ('.' !in frac ==> AllDigits(whole + frac))
  {
    var whole, frac := number[..p], number[p + 1..];
    assert forall i :: 0 <= i < |whole| ==> whole[i] == number[i];
    assert forall i :: 0 <= i < |frac| ==> frac[i] == number[p + 1 + i];
    NoPointDigits(whole);
    if '.' !in frac {
      NoPointDigits(frac);
      assert forall i :: 0 <= i < |whole| + |frac| ==>
        (whole + frac)[i] == if i < |whole| then whole[i] else frac[i - |whole|];
    }
  }

  /** A number with exactly one point. */
  lemma ScaledOnePoint(whole: string, frac: string, bits: nat)
    requires AllDigits(whole) && AllDigits(frac) && |whole| > 0
    ensures var num := whole + "." + frac;
      (forall i :: 0 <= i < |num| ==> IsNumberChar(num[i])) &&
      ScaledDecimal(num, bits) == FloatProduct(DigitsValue(whole + frac), Pow10(|frac|), bits)
  {
    var num := whole + "." + frac;
    assert forall i :: 0 <= i < |num| ==>
      num[i] == if i < |whole| then whole[i] else if i == |whole| then '.' else frac[i - |whole| - 1];
    NoSeparatorInDigits(whole, '.');
    NoSeparatorInDigits(frac, '.');
    assert num[|whole|] == '.';
    assert num[..|whole|] == whole;
    IndexOfIs(num, '.', |whole|);
    assert num[|whole| + 1..] == frac;
  }

  /** A number with two points or more. */
  lemma ScaledTwoPoints(a: string, b: string, c: string, bits: nat)
    requires AllDigits(a) && AllDigits(b) && AllDigits(c) && |a| > 0
    ensures var num := a + "." + b + "." + c;
      (forall i :: 0 <= i < |num| ==> IsNumberChar(num[i])) &&
      ScaledDecimal(num, bits) == Failure(InvalidNumber)
  {
    var num := a + "." + b + "." + c;
    assert forall i :: 0 <= i < |num| ==>
      num[i] == if i < |a| then a[i] else if i == |a| then '.'
                else if i < |a| + 1 + |b| then b[i - |a| - 1]
                else if i == |a| + 1 + |b| then '.' else c[i - |a| - |b| - 2];
    NoSeparatorInDigits(a, '.');
    assert num[|a|] == '.';
    assert num[..|a|] == a;
    IndexOfIs(num, '.', |a|);
    var frac := num[|a| + 1..];
    assert frac[|b|] == '.';
  }

  /** The number and unit found by the loop, checked and scaled. */
  function ScaleBy(number: string, unit: string): Result<nat, SizeError>
    requires forall i :: 0 <= i < |number| ==> IsNumberChar(number[i])
  {
    if number == "" || unit == "" then Failure(InvalidFormat)
    else match UnitBits(unit)
      case None => Failure(InvalidUnit)
      case Some(bits) => ScaledDecimal(number, bits)
  }

  /** parse_size after strip().upper(). */
  function ParseCanonical(s: string): Result<nat, SizeError>
  {
    if |s| > 0 && AllDigits(s) then
      if |s| <= IntMaxStrDigits then Success(DigitsValue(s)) else Failure(TooManyDigits)
    else ScaleBy(NumberChars(s), Strip(UnitChars(s)))
  }

  /** parse_size. */
  function ParseSize(input: string): (r: Result<nat, SizeError>)
  {
    ParseCanonical(Upper(Strip(input)))
  }

  // ---------------------------------------------------------------- helper facts

  lemma {:induction false} NumberCharsAppend(a: string, b: string)
    ensures NumberChars(a + b) == NumberChars(a) + NumberChars(b)
    ensures UnitChars(a + b) == UnitChars(a) + UnitChars(b)
    decreases |b|
  {
    if |b| == 0 {
      assert a + b == a;
    } else {
      var s := a + b;
      assert s[..|s| - 1] == a + b[..|b| - 1];
      NumberCharsAppend(a, b[..|b| - 1]);
    }
  }

  lemma {:induction false} AllNumberChars(s: string)
    requires forall i :: 0 <= i < |s| ==> IsNumberChar(s[i])
    ensures NumberChars(s) == s && UnitChars(s) == ""
  {
    if |s| > 0 {
      assert s == s[..|s| - 1] + [s[|s| - 1]];
      AllNumberChars(s[..|s| - 1]);
    }
  }

  lemma {:induction false} NoNumberChars(s: string)
    requires forall i :: 0 <= i < |s| ==> !IsNumberChar(s[i])
    ensures NumberChars(s) == "" && UnitChars(s) == s
  {
    if |s| > 0 {
      assert s == s[..|s| - 1] + [s[|s| - 1]];
      NoNumberChars(s[..|s| - 1]);
    }
  }

  lemma UpperAppend(a: string, b: string)
    ensures Upper(a + b) == Upper(a) + Upper(b)
  {
    assert forall i :: 0 <= i < |a + b| ==> Upper(a + b)[i] == (Upper(a) + Upper(b))[i];
  }

  lemma UpperNumber(s: string)
    requires forall i :: 0 <= i < |s| ==> IsNumberChar(s[i])
    ensures Upper(s) == s
  {
  }

  /** A number followed by a unit is split at the boundary, whatever the number. */
  lemma CanonicalSplit(number: string, unit: string)
    requires |number| > 0 && forall i :: 0 <= i < |number| ==> IsNumberChar(number[i])
    requires |unit| > 0 && forall i :: 0 <= i < |unit| ==> !IsNumberChar(unit[i]) && !IsSpace(unit[i])
    ensures ParseCanonical(number + unit) == ScaleBy(number, unit)
  {
    var s := number + unit;
    assert !AllDigits(s) by { assert !IsDigit(s[|number|]); }
    NumberCharsAppend(number, unit);
    AllNumberChars(number);
    NoNumberChars(unit);
    assert NumberChars(s) == number;
    assert UnitChars(s) == unit;
    StripNothing(unit);
  }

  /** strip().upper() of a number followed by letters. */
  lemma CanonicalForm(number: string, unit: string)
    requires |number| > 0 && forall i :: 0 <= i < |number| ==> IsNumberChar(number[i])
    requires |unit| > 0 && forall i :: 0 <= i < |unit| ==> !IsNumberChar(unit[i]) && !IsSpace(unit[i])
    ensures Upper(Strip(number + unit)) == number + Upper(unit)
  {
    var t := number + unit;
    assert t[0] == number[0];
    assert t[|t| - 1] == unit[|unit| - 1];
    StripNothing(t);
    UpperAppend(number, unit);
    UpperNumber(number);
  }

  lemma UnitLetters(u: string)
    requires Multiplier(u).Some?
    ensures |u| > 0 && forall i :: 0 <= i < |u| ==> 'A' <= u[i] <= 'Z'
  {
  }

  lemma LettersOfUpper(u: string)
    requires forall i :: 0 <= i < |u| ==> 'A' <= Upper(u)[i] <= 'Z'
    ensures forall i :: 0 <= i < |u| ==> !IsNumberChar(u[i]) && !IsSpace(u[i])
    ensures forall i :: 0 <= i < |u| ==> !IsNumberChar(Upper(u)[i]) && !IsSpace(Upper(u)[i])
  {
    forall i | 0 <= i < |u| ensures !IsNumberChar(u[i]) && !IsSpace(u[i]) {
      assert Upper(u)[i] == UpperChar(u[i]);
    }
  }

  // ---------------------------------------------------------------- properties

  /** A plain digit string is read as itself, unless int() refuses its length. */
  lemma ParseSizePlain(d: string)
    requires |d| > 0 && AllDigits(d)
    ensures ParseSize(d) == if |d| <= IntMaxStrDigits then Success(DigitsValue(d)) else Failure(TooManyDigits)
  {
    StripNothing(d);
    UpperNumber(d);
  }

  /** Each multiplier of the table is 2 to the power UnitBits gives. */
  lemma UnitTable(u: string)
    ensures Multiplier(u).Some? <==> UnitBits(u).Some?
    ensures Multiplier(u).Some? ==> Multiplier(u).value == Pow2(UnitBits(u).value)
  {
    UnitPowers();
  }

  lemma UnitUnknown(u: string)
    requires Multiplier(u).None?
    ensures UnitBits(u).None?
  {
  }

  /** The units the two tables know are the same, with exponents up to 40. */
  lemma UnitKnown(u: string)
    ensures Multiplier(u).Some? <==> UnitBits(u).Some?
    ensures UnitBits(u).Some? ==> UnitBits(u).value <= 40
  {
  }

  lemma UnitPowers()
    ensures Pow2(10) == 1024 && Pow2(20) == 1024 * 1024 && Pow2(30) == 1024 * 1024 * 1024
    ensures Pow2(40) == 1024 * 1024 * 1024 * 1024
  {
    assert Pow2(10) == 1024;
    ShlAdd(1, 10, 10);
    ShlAdd(1, 20, 10);
    ShlAdd(1, 30, 10);
    ShlIsMul(Pow2(10), 10);
    ShlIsMul(Pow2(20), 10);
    ShlIsMul(Pow2(30), 10);
  }

  /**
   * A count followed by a unit of the table, in any letter case, is read as
   * float(count) times the unit's multiplier, truncated.
   */
  lemma ParseSizeUnit(n: nat, u: string)
    requires Multiplier(Upper(u)).Some?
    ensures UnitBits(Upper(u)).Some?
    ensures ParseSize(Dec(n) + u) == FloatProduct(n, 1, UnitBits(Upper(u)).value)
  {
    var d := Dec(n);
    UnitKnown(Upper(u));
    UnitLetters(Upper(u));
    LettersOfUpper(u);
    CanonicalForm(d, u);
    CanonicalSplit(d, Upper(u));
    NoSeparatorInDigits(d, '.');
    DecValue(n);
  }

  /** Below 2^53 the count is exact in a float: "<n><unit>" is read as exactly n times the multiplier. */
  lemma ParseSizeUnitExact(n: nat, u: string)
    requires Multiplier(Upper(u)).Some?
    ensures n < Pow2(Precision) ==> ParseSize(Dec(n) + u) == Success(n * Multiplier(Upper(u)).value)
  {
    ParseSizeUnit(n, u);
    var bits := UnitBits(Upper(u)).value;
    UnitKnown(Upper(u));
    UnitTable(Upper(u));
    if n < Pow2(Precision) {
      ExactInt(n, bits);
      ShlIsMul(n, bits);
    }
  }

  /** Above 2^53 the float keeps 53 bits: "9007199254740993B", that is 2^53 + 1 bytes, is read as 2^53. */
  lemma ParseSizeUnitRounded()
    ensures ParseSize(Dec(Pow2(Precision) + 1) + "B") == Success(Pow2(Precision))
  {
    ParseSizeUnit(Pow2(Precision) + 1, "B");
    assert Upper("B") == "B";
    RoundTie();
  }

  /**
   * A count from 2^1024 on is infinite as a float: int() raises
   * OverflowError, which parse_size does not catch.
   */
  lemma ParseSizeUnitOverflow(n: nat, u: string)
    requires Multiplier(Upper(u)).Some?
    ensures n >= Pow2(MaxBits) ==> ParseSize(Dec(n) + u) == Failure(FloatOverflow)
  {
    ParseSizeUnit(n, u);
    if n >= Pow2(MaxBits) {
      RoundHuge(n);
    }
  }

  /** With a unit and one decimal point, the bytes are float(whole.frac) times the multiplier, truncated. */
  lemma ParseSizeFraction(whole: string, frac: string, u: string)
    requires AllDigits(whole) && AllDigits(frac) && |whole| > 0
    requires Multiplier(u).Some?
    ensures UnitBits(u).Some?
    ensures ParseSize(whole + "." + frac + u)
         == FloatProduct(DigitsValue(whole + frac), Pow10(|frac|), UnitBits(u).value)
  {
    var num := whole + "." + frac;
    UnitKnown(u);
    UnitLetters(u);
    assert Upper(u) == u;
    LettersOfUpper(u);
    ScaledOnePoint(whole, frac, UnitBits(u).value);
    CanonicalForm(num, u);
    CanonicalSplit(num, u);
  }

  lemma StripNoNumber(input: string)
    requires forall i :: 0 <= i < |input| ==> !IsNumberChar(input[i])
    ensures forall i :: 0 <= i < |Strip(input)| ==> !IsNumberChar(Strip(input)[i])
  {
    var t := TrimStart(input, IsSpace);
    assert forall i :: 0 <= i < |t| ==> t[i] == input[|input| - |t| + i];
    var st := TrimEnd(t, IsSpace);
    assert forall i :: 0 <= i < |st| ==> st[i] == t[i];
  }

  lemma UpperNoNumber(st: string)
    requires forall i :: 0 <= i < |st| ==> !IsNumberChar(st[i])
    ensures forall i :: 0 <= i < |Upper(st)| ==> !IsNumberChar(Upper(st)[i])
  {
    forall i | 0 <= i < |st| ensures !IsNumberChar(Upper(st)[i]) {
      assert Upper(st)[i] == UpperChar(st[i]);
    }
  }

  /** Without any digit or point there is no number: the format is rejected. */
  lemma ParseSizeNoNumber(input: string)
    requires forall i :: 0 <= i < |input| ==> !IsNumberChar(input[i])
    ensures ParseSize(input) == Failure(InvalidFormat)
  {
    StripNoNumber(input);
    UpperNoNumber(Strip(input));
    var s := Upper(Strip(input));
    NoNumberChars(s);
    if |s| > 0 {
      assert !IsDigit(s[0]);
    }
  }

  /** A decimal number with no unit after it is not a plain count: the format is rejected. */
  lemma ParseSizeNoUnit(whole: string, frac: string)
    requires AllDigits(whole) && AllDigits(frac)
    ensures ParseSize(whole + "." + frac) == Failure(InvalidFormat)
  {
    var s := whole + "." + frac;
    assert forall i :: 0 <= i < |s| ==>
      s[i] == if i < |whole| then whole[i] else if i == |whole| then '.' else frac[i - |whole| - 1];
    assert forall i :: 0 <= i < |s| ==> IsNumberChar(s[i]);
    StripNothing(s);
    UpperNumber(s);
    AllNumberChars(s);
    assert !AllDigits(s) by { assert !IsDigit(s[|whole|]); }
  }

  /** A count followed by capital letters outside the table names no unit. */
  lemma ParseSizeUnknownUnit(n: nat, u: string)
    requires |u| > 0 && forall i :: 0 <= i < |u| ==> 'A' <= u[i] <= 'Z'
    requires Multiplier(u).None?
    ensures ParseSize(Dec(n) + u) == Failure(InvalidUnit)
  {
    UnitUnknown(u);
    var d := Dec(n);
    assert Upper(u) == u;
    LettersOfUpper(u);
    CanonicalForm(d, u);
    CanonicalSplit(d, u);
  }

  /** Two decimal points make float() raise: the number is rejected. */
  lemma ParseSizeTwoPoints(a: string, b: string, c: string, u: string)
    requires AllDigits(a) && AllDigits(b) && AllDigits(c) && |a| > 0
    requires Multiplier(u).Some?
    ensures ParseSize(a + "." + b + "." + c + u) == Failure(InvalidNumber)
  {
    var num := a + "." + b + "." + c;
    UnitLetters(u);
    assert Upper(u) == u;
    LettersOfUpper(u);
    UnitKnown(u);
    ScaledTwoPoints(a, b, c, UnitBits(u).value);
    CanonicalForm(num, u);
    CanonicalSplit(num, u);
  }

  // ---------------------------------------------------------------- format_duration

  /** The parts format_duration joins with spaces. */
  function DurationParts(seconds: nat): seq<string>
  {
    var h, m, s := seconds / 3600, (seconds % 3600) / 60, seconds % 60;
    (if h > 0 then [Dec(h) + "h"] else []) +
    (if m > 0 || h > 0 then [Dec(m) + "m"] else []) +
    [Dec(s) + "s"]
  }

  /** format_duration of a whole number of seconds. */
  function FormatDuration(seconds: nat): string
  {
    Join(DurationParts(seconds), ' ')
  }

  /** Reads one "<digits><h|m|s>" part back as seconds. */
  function PartSeconds(p: string): Option<nat>
  {
    if |p| < 2 || !AllDigits(p[..|p| - 1]) then None
    else
      var v := DigitsValue(p[..|p| - 1]);
      var u := p[|p| - 1];
      if u == 'h' then Some(v * 3600)
      else if u == 'm' then Some(v * 60)
      else if u == 's' then Some(v)
      else None
  }

  function SumSeconds(parts: seq<string>): Option<nat>
  {
    if |parts| == 0 then Some(0)
    else
      match (PartSeconds(parts[0]), SumSeconds(parts[1..]))
      case (Some(a), Some(b)) => Some(a + b)
      case _ => None
  }

  /** The reading of a duration text: the sum of its space-separated parts. */
  function ReadDuration(text: string): Option<nat>
  {
    SumSeconds(Split(text, ' '))
  }

  lemma PartSecondsOf(v: nat, u: char)
    requires u == 'h' || u == 'm' || u == 's'
    ensures PartSeconds(Dec(v) + [u]) == Some(if u == 'h' then v * 3600 else if u == 'm' then v * 60 else v)
  {
    var p := Dec(v) + [u];
    assert p[..|p| - 1] == Dec(v);
    DecValue(v);
  }

  lemma {:induction false} DurationPartsShape(seconds: nat)
    ensures |DurationParts(seconds)| == if seconds >= 3600 then 3 else if seconds >= 60 then 2 else 1
    ensures NoneContains(DurationParts(seconds), ' ')
  {
    var h, m, s := seconds / 3600, (seconds % 3600) / 60, seconds % 60;
    NoSeparatorInDigits(Dec(h), ' ');
    NoSeparatorInDigits(Dec(m), ' ');
    NoSeparatorInDigits(Dec(s), ' ');
  }

  lemma SumSecondsCons(p: string, rest: seq<string>, a: nat, b: nat)
    requires PartSeconds(p) == Some(a) && SumSeconds(rest) == Some(b)
    ensures SumSeconds([p] + rest) == Some(a + b)
  {
    assert ([p] + rest)[0] == p && ([p] + rest)[1..] == rest;
  }

  /** A part put in front of others adds its own seconds to theirs. */
  lemma PrependPart(v: nat, u: char, rest: seq<string>, b: nat)
    requires u == 'h' || u == 'm' || u == 's'
    requires SumSeconds(rest) == Some(b)
    ensures SumSeconds([Dec(v) + [u]] + rest) == Some((if u == 'h' then v * 3600 else if u == 'm' then v * 60 else v) + b)
  {
    PartSecondsOf(v, u);
    SumSecondsCons(Dec(v) + [u], rest, if u == 'h' then v * 3600 else if u == 'm' then v * 60 else v, b);
  }

  /** seconds is h hours, m minutes and s seconds. */
  lemma SecondsSplit(seconds: nat)
    ensures seconds == (seconds / 3600) * 3600 + ((seconds % 3600) / 60) * 60 + seconds % 60
  {
  }

  /** The parts of a duration read back as its seconds. */
  lemma PartsSum(seconds: nat)
    ensures SumSeconds(DurationParts(seconds)) == Some(seconds)
  {
    var h, m, s := seconds / 3600, (seconds % 3600) / 60, seconds % 60;
    var ph, pm, ps := Dec(h) + ['h'], Dec(m) + ['m'], Dec(s) + ['s'];
    assert Dec(h) + "h" == ph && Dec(m) + "m" == pm && Dec(s) + "s" == ps;
    SecondsSplit(seconds);
    assert SumSeconds([]) == Some(0);
    PrependPart(s, 's', [], 0);
    assert [ps] + [] == [ps];
    if h > 0 || m > 0 {
      PrependPart(m, 'm', [ps], s);
      if h > 0 {
        PrependPart(h, 'h', [pm] + [ps], m * 60 + s);
        assert DurationParts(seconds) == [ph] + ([pm] + [ps]);
      } else {
        assert DurationParts(seconds) == [pm] + [ps];
      }
    } else {
      assert DurationParts(seconds) == [ps];
    }
  }

  /** format_duration loses nothing: reading its text back gives the same number of seconds. */
  lemma DurationRoundTrip(seconds: nat)
    ensures ReadDuration(FormatDuration(seconds)) == Some(seconds)
  {
    DurationPartsShape(seconds);
    SplitJoin(DurationParts(seconds), ' ');
    PartsSum(seconds);
  }

  /** The hours part appears from one hour on; the minutes part from one minute on. */
  lemma DurationPartsPresent(seconds: nat)
    ensures |Split(FormatDuration(seconds), ' ')| == if seconds >= 3600 then 3 else if seconds >= 60 then 2 else 1
  {
    DurationPartsShape(seconds);
    SplitJoin(DurationParts(seconds), ' ');
  }
}
