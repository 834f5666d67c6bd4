/**
 * Python's float, as parse_size uses it: IEEE 754 binary64 rounding of a
 * non-negative decimal number, scaling by a power of two, and int(). A finite
 * non-negative double is k * 2^e; float() of a decimal string picks the
 * nearest such value with at most 53 significant bits (ties to an even k),
 * and a value that reaches 2^1024 becomes infinity.
 */
module Binary64 {
  import opened Wrappers

  /** Significand bits, the exponent of the last bit of the smallest subnormal, and the first power of two that is infinite. */
  const Precision: nat := 53
  const MinExp: int := -1074
  const MaxBits: nat := 1024

  datatype Double = Finite(k: nat, e: int) | Infinite

  /** x * 2^n. */
  function Shl(x: nat, n: nat): nat
  {
    if n == 0 then x else 2 * Shl(x, n - 1)
  }

  /** x / 2^n, rounded down. */
  function Shr(x: nat, n: nat): nat
  {
    if n == 0 then x else Shr(x / 2, n - 1)
  }

  function Pow2(n: nat): (r: nat)
    ensures r >= 1
  {
    ShlPositive(1, n);
    Shl(1, n)
  }

  /** The number of binary digits of n. */
  function BitLength(n: nat): (b: nat)
    ensures n == 0 <==> b == 0
    ensures n > 0 ==> Pow2(b - 1) <= n < Pow2(b)
  {
    if n == 0 then 0 else 1 + BitLength(n / 2)
  }

  /** k * 2^e truncated toward zero, as int() truncates a non-negative double. */
  function Floor(k: nat, e: int): nat
  {
    if e >= 0 then Shl(k, e) else Shr(k, -e)
  }

  /** k * 2^e is at least 2^1024. */
  predicate TooBig(k: nat, e: int)
  {
    if e >= 0 then Shl(k, e) >= Pow2(MaxBits) else k >= Shl(Pow2(MaxBits), -e)
  }

  /** num / (den * 2^e) as a numerator and a positive denominator. */
  function Scaled(num: nat, den: nat, e: int): (nd: (nat, nat))
    requires den > 0
    ensures nd.1 > 0
  {
    if e >= 0 then ShlPositive(den, e); (num, Shl(den, e)) else (Shl(num, -e), den)
  }

  /** The exponent of the leading bit of num/den. */
  function Lead(num: nat, den: nat): int
    requires num > 0 && den > 0
  {
    var t := BitLength(num) - BitLength(den);
    var nd := Scaled(num, den, t);
    if nd.0 >= nd.1 then t else t - 1
  }

  /** The exponent of the last bit a double keeps of num/den. */
  function LastBit(num: nat, den: nat): int
    requires den > 0
  {
    if num == 0 then MinExp
    else if Lead(num, den) - (Precision - 1) < MinExp then MinExp
    else Lead(num, den) - (Precision - 1)
  }

  /** n/d to the nearest integer, a tie to the even one. */
  function RoundHalfEven(n: nat, d: nat): nat
    requires d > 0
  {
    var q, r := n / d, n % d;
    if 2 * r > d || (2 * r == d && q % 2 == 1) then q + 1 else q
  }

  /** float() of the decimal number num/den. */
  function Round(num: nat, den: nat): Double
    requires den > 0
  {
    var e := LastBit(num, den);
    var nd := Scaled(num, den, e);
    var k := RoundHalfEven(nd.0, nd.1);
    if TooBig(k, e) then Infinite else Finite(k, e)
  }

  /**
   * x * 2^s: for the doubles Round makes the product is exact, unless it
   * reaches 2^1024.
   */
  function TimesPow2(x: Double, s: nat): Double
  {
    match x
    case Infinite => Infinite
    case Finite(k, e) => if TooBig(k, e + s) then Infinite else Finite(k, e + s)
  }

  /** int(): None where the double is infinite, which Python reports as OverflowError. */
  function Truncate(x: Double): Option<nat>
  {
    match x
    case Infinite => None
    case Finite(k, e) => Some(Floor(k, e))
  }

  // ---------------------------------------------------------------- shifts

  lemma {:induction false} ShlPositive(x: nat, n: nat)
    requires x > 0
    ensures Shl(x, n) >= x
  {
    if n > 0 {
      ShlPositive(x, n - 1);
    }
  }

  lemma {:induction false} ShlAdd(x: nat, a: nat, b: nat)
    ensures Shl(Shl(x, a), b) == Shl(x, a + b)
  {
    if b > 0 {
      ShlAdd(x, a, b - 1);
    }
  }

  lemma {:induction false} ShrShl(x: nat, n: nat)
    ensures Shr(Shl(x, n), n) == x
  {
    if n > 0 {
      assert Shl(x, n) / 2 == Shl(x, n - 1);
      ShrShl(x, n - 1);
    }
  }

  lemma {:induction false} ShlLess(x: nat, y: nat, n: nat)
    requires x < y
    ensures Shl(x, n) < Shl(y, n)
  {
    if n > 0 {
      ShlLess(x, y, n - 1);
    }
  }

  lemma {:induction false} ShlLe(x: nat, y: nat, n: nat)
    requires x <= y
    ensures Shl(x, n) <= Shl(y, n)
  {
    if n > 0 {
      ShlLe(x, y, n - 1);
    }
  }

  lemma {:induction false} ShlIsMul(x: nat, n: nat)
    ensures Shl(x, n) == x * Pow2(n)
  {
    if n > 0 {
      ShlIsMul(x, n - 1);
      assert x * Pow2(n) == 2 * (x * Pow2(n - 1));
    }
  }

  lemma Pow2Le(a: nat, b: nat)
    requires a <= b
    ensures Pow2(a) <= Pow2(b)
  {
    ShlAdd(1, a, b - a);
    ShlPositive(Pow2(a), b - a);
  }

  lemma Pow2Mono(a: nat, b: nat)
    ensures a <= b ==> Pow2(a) <= Pow2(b)
  {
    if a <= b {
      Pow2Le(a, b);
    }
  }

  lemma MulMono(a: int, b: int, z: nat)
    ensures a <= b ==> a * z <= b * z
  {
  }

  /** From n >= low * d, n / d is at least low. */
  lemma DivLower(n: nat, low: nat, d: nat)
    requires d > 0 && n >= low * d
    ensures n / d >= low
  {
    var q, r := n / d, n % d;
    assert n == q * d + r;
    MulMono(q, low - 1, d);
    assert (low - 1) * d == low * d - d;
  }

  /** The bit length is the one b with 2^(b-1) <= n < 2^b. */
  lemma BitLengthIs(n: nat, b: nat)
    requires b > 0 && Pow2(b - 1) <= n < Pow2(b)
    ensures BitLength(n) == b
  {
    var a := BitLength(n);
    if a < b {
      Pow2Le(a, b - 1);
    } else if a > b {
      Pow2Le(b, a - 1);
    }
  }

  /** Round, given its last kept bit and kept integer. */
  lemma RoundIs(num: nat, den: nat, e: int, k: nat)
    requires den > 0 && LastBit(num, den) == e
    requires k == RoundHalfEven(Scaled(num, den, e).0, Scaled(num, den, e).1)
    ensures Round(num, den) == if TooBig(k, e) then Infinite else Finite(k, e)
  {
  }

  // ---------------------------------------------------------------- exact values

  /** c * 2^t read at exponent x = s - t is c * 2^s, and below 2^1024 when that is. */
  lemma ExactShift(c: nat, t: nat, s: nat, x: int)
    requires Shl(c, s) < Pow2(MaxBits) && x == s - t
    ensures !TooBig(Shl(c, t), x)
    ensures Floor(Shl(c, t), x) == Shl(c, s)
  {
    if s >= t {
      ShlAdd(c, t, s - t);
    } else {
      ShlAdd(c, s, t - s);
      ShrShl(Shl(c, s), t - s);
      ShlLess(Shl(c, s), Pow2(MaxBits), t - s);
    }
  }

  /** The leading bit of a positive integer is the last of its binary digits. */
  lemma LeadInt(n: nat)
    requires n > 0
    ensures Lead(n, 1) == BitLength(n) - 1
  {
    var a := BitLength(n);
    assert BitLength(1) == 1;
    var nd := Scaled(n, 1, a - 1);
    assert nd == (n, Pow2(a - 1));
  }

  /** The last kept bit of a positive integer: 52 places below its leading bit, but not below 2^-1074. */
  lemma LastBitInt(n: nat)
    requires n > 0
    ensures LastBit(n, 1) == if BitLength(n) - Precision < MinExp then MinExp else BitLength(n) - Precision
  {
    LeadInt(n);
  }

  lemma BitLengthBelow(n: nat, p: nat)
    requires 0 < n < Pow2(p)
    ensures BitLength(n) <= p
  {
    Pow2Mono(p, BitLength(n) - 1);
  }

  /** An integer of at most 53 bits is kept exactly, at the exponent that leaves 53 bits. */
  lemma RoundSmallInt(n: nat)
    requires 0 < n < Pow2(Precision)
    ensures var a := BitLength(n);
      a <= Precision && Round(n, 1) == Finite(Shl(n, Precision - a), a - Precision)
  {
    var a := BitLength(n);
    BitLengthBelow(n, Precision);
    LastBitInt(n);
    var e := a - Precision;
    var k := Shl(n, Precision - a);
    assert Scaled(n, 1, e) == (k, 1);
    assert RoundHalfEven(k, 1) == k;
    Pow2Le(Precision, MaxBits);
    ExactShift(n, Precision - a, 0, e);
    RoundIs(n, 1, e, k);
  }

  /** An integer below 2^53, scaled by 2^s below 2^1024, is exact through int(). */
  lemma ExactInt(n: nat, s: nat)
    requires n < Pow2(Precision) && s <= MaxBits - Precision
    ensures Truncate(TimesPow2(Round(n, 1), s)) == Some(Shl(n, s))
  {
    if n == 0 {
      RoundZero(s);
      ShlZero(s);
    } else {
      ExactPositive(n, s);
    }
  }

  lemma ExactPositive(n: nat, s: nat)
    requires 0 < n < Pow2(Precision) && s <= MaxBits - Precision
    ensures Truncate(TimesPow2(Round(n, 1), s)) == Some(Shl(n, s))
  {
    RoundSmallInt(n);
    ExactScaled(n, BitLength(n), s);
  }

  /** The double RoundSmallInt gives, scaled by 2^s, truncates to n * 2^s. */
  lemma ExactScaled(n: nat, a: nat, s: nat)
    requires n < Pow2(Precision) && a <= Precision && s <= MaxBits - Precision
    ensures Truncate(TimesPow2(Finite(Shl(n, Precision - a), a - Precision), s)) == Some(Shl(n, s))
  {
    ShlLess(n, Pow2(Precision), s);
    ShlAdd(1, Precision, s);
    Pow2Le(Precision + s, MaxBits);
    var e := a - Precision;
    var k := Shl(n, Precision - a);
    ExactShift(n, Precision - a, s, e + s);
    TimesFinite(k, e, s, e + s);
  }

  lemma TimesFinite(k: nat, e: int, s: nat, x: int)
    requires x == e + s && !TooBig(k, x)
    ensures Truncate(TimesPow2(Finite(k, e), s)) == Some(Floor(k, x))
  {
  }

  lemma RoundZero(s: nat)
    requires s <= MaxBits - Precision
    ensures Truncate(TimesPow2(Round(0, 1), s)) == Some(0)
  {
    RoundZeroIs();
    ShlPositive(Pow2(MaxBits), -(MinExp + s));
    ShlZero(-(MinExp + s));
    TimesFinite(0, MinExp, s, MinExp + s);
  }

  lemma RoundZeroIs()
    ensures Round(0, 1) == Finite(0, MinExp)
  {
    ShlZero(-MinExp);
    ShlPositive(Pow2(MaxBits), -MinExp);
  }

  lemma {:induction false} ShlZero(n: nat)
    ensures Shl(0, n) == 0 && Shr(0, n) == 0
  {
    if n > 0 {
      ShlZero(n - 1);
    }
  }

  // ---------------------------------------------------------------- rounding

  /** The kept integer is n/d rounded to the nearest, within half a unit of the last kept bit. */
  lemma HalfEvenNearest(n: nat, d: nat)
    requires d > 0
    ensures var k := RoundHalfEven(n, d);
      (k == n / d || k == n / d + 1) && 2 * (k * d) <= 2 * n + d && 2 * n <= 2 * (k * d) + d
  {
    var q, r := n / d, n % d;
    assert n == q * d + r;
  }

  /** float() keeps the nearest multiple of 2^e to num/den: within half of 2^e of it. */
  lemma RoundNearest(num: nat, den: nat)
    requires den > 0
    ensures var e := LastBit(num, den); var nd := Scaled(num, den, e);
      match Round(num, den)
      case Finite(k, e') => e' == e && 2 * (k * nd.1) <= 2 * nd.0 + nd.1 && 2 * nd.0 <= 2 * (k * nd.1) + nd.1
      case Infinite => TooBig(RoundHalfEven(nd.0, nd.1), e)
  {
    var nd := Scaled(num, den, LastBit(num, den));
    HalfEvenNearest(nd.0, nd.1);
  }

  /** A tie between two kept values goes to the even one: 2^53 + 1 is read as 2^53. */
  lemma RoundTie()
    ensures Round(Pow2(Precision) + 1, 1) == Finite(Pow2(Precision - 1), 1)
    ensures Truncate(TimesPow2(Round(Pow2(Precision) + 1, 1), 0)) == Some(Pow2(Precision))
  {
    var n := Pow2(Precision) + 1;
    assert Pow2(Precision + 1) == 2 * Pow2(Precision);
    BitLengthIs(n, Precision + 1);
    LastBitInt(n);
    assert Scaled(n, 1, 1) == (n, 2);
    var h := Pow2(Precision - 1);
    assert n == 2 * h + 1;
    assert RoundHalfEven(n, 2) == h;
    Pow2Le(Precision + 1, MaxBits);
    assert Shl(h, 1) == Pow2(Precision);
    assert !TooBig(h, 1);
    RoundIs(n, 1, 1, h);
    TimesFinite(h, 1, 0, 1);
  }

  /** Every integer from 2^1024 on rounds to infinity, so int() of it raises. */
  lemma RoundHuge(n: nat)
    requires n >= Pow2(MaxBits)
    ensures Round(n, 1) == Infinite
  {
    var a := BitLength(n);
    Pow2Mono(a, MaxBits);
    LastBitInt(n);
    var e := a - Precision;
    var d := Pow2(e);
    assert Scaled(n, 1, e) == (n, d);
    var low := Pow2(Precision - 1);
    ShlAdd(1, Precision - 1, e);
    assert Shl(low, e) == Pow2(a - 1);
    ShlIsMul(low, e);
    assert low * d == Pow2(a - 1);
    assert n >= Pow2(a - 1);
    DivLower(n, low, d);
    var k := RoundHalfEven(n, d);
    ShlLe(low, k, e);
    Pow2Le(MaxBits, a - 1);
    assert TooBig(k, e);
    RoundIs(n, 1, e, k);
  }
}
