/** The order an index promises between scalars: by type first, then by value. */
module ScalarOrder {
  import opened Bytes
  import opened Scalars

  // ----- floats -----------------------------------------------------------------

  /** The shape of a binary interchange format: `fractions` significands for each of
      `exponents` biased exponents, the topmost exponent being infinity and NaN. */
  datatype FloatShape = FloatShape(fractions: nat, exponents: nat)
  {
    predicate Valid() { fractions > 0 && exponents >= 2 }

    function Half(): nat { fractions * exponents }
    function Infinity(): nat requires Valid() { fractions * (exponents - 1) }
  }

  const SINGLE: FloatShape := FloatShape(0x80_0000, 0x100)
  const DOUBLE: FloatShape := FloatShape(0x10_0000_0000_0000, 0x800)

  /** The sign bit is set. */
  predicate Negative(f: FloatShape, bits: nat) { bits >= f.Half() }

  function MagnitudeBits(f: FloatShape, bits: nat): nat
    requires bits < 2 * f.Half()
  {
    if Negative(f, bits) then bits - f.Half() else bits
  }

  predicate IsNaN(f: FloatShape, bits: nat)
    requires f.Valid() && bits < 2 * f.Half()
  {
    MagnitudeBits(f, bits) > f.Infinity()
  }

  function Pow2(n: nat): (r: nat)
    ensures r >= 1
  {
    if n == 0 then 1 else 2 * Pow2(n - 1)
  }

  /** The absolute value of a finite float, in units of its smallest subnormal. */
  function Scaled(f: FloatShape, m: nat): nat
    requires f.Valid()
  {
    var exponent, fraction := m / f.fractions, m % f.fractions;
    if exponent == 0 then fraction else (f.fractions + fraction) * Pow2(exponent - 1)
  }

  predicate AbsLess(f: FloatShape, m: nat, n: nat)
    requires f.Valid() && m <= f.Infinity() && n <= f.Infinity()
  {
    m != f.Infinity() && (n == f.Infinity() || Scaled(f, m) < Scaled(f, n))
  }

  /** Section 5.10 of IEEE 754-2019: numbers by value with −0 below +0, negative
      NaNs below every number and positive ones above, NaNs of one sign by payload. */
  predicate TotalBelow(f: FloatShape, x: nat, y: nat)
    requires f.Valid() && x < 2 * f.Half() && y < 2 * f.Half()
  {
    var m, n := MagnitudeBits(f, x), MagnitudeBits(f, y);
    if Negative(f, x) != Negative(f, y) then Negative(f, x)
    else if IsNaN(f, x) && IsNaN(f, y) then (if Negative(f, x) then n < m else m < n)
    else if IsNaN(f, x) then Negative(f, x)
    else if IsNaN(f, y) then !Negative(f, y)
    else if Negative(f, x) then AbsLess(f, n, m)
    else AbsLess(f, m, n)
  }

  lemma {:induction false} Pow2Monotone(a: nat, b: nat)
    requires a <= b
    ensures Pow2(a) <= Pow2(b)
  {
    if a < b { Pow2Monotone(a, b - 1); }
  }

  /** The bit pattern of a non-negative finite float grows with its value. */
  lemma ScaledMonotone(f: FloatShape, m: nat, n: nat)
    requires f.Valid() && m < n
    ensures Scaled(f, m) < Scaled(f, n)
  {
    var F := f.fractions;
    var e, d := m / F, n / F;
    QuotientMonotone(m, n, F);
    if e == d {
      assert m % F < n % F by { SameQuotient(m, n, F); }
      if e > 0 { TimesMonotone(F + m % F, F + n % F, Pow2(e - 1)); }
    } else {
      Pow2Monotone(e, d - 1);
      TimesMonotone2(F, Pow2(e), Pow2(d - 1));
      Scale2(F + n % F, F, Pow2(d - 1));
      if e > 0 {
        TimesMonotone(F + m % F, 2 * F, Pow2(e - 1));
        Doubling(F, Pow2(e - 1));
      }
    }
  }

  lemma QuotientMonotone(m: nat, n: nat, k: nat)
    requires m < n && k > 0
    ensures m / k <= n / k
  {
    assert m == (m / k) * k + m % k && n == (n / k) * k + n % k;
    assert (n / k + 1) * k == (n / k) * k + k;
    LessFactor(m / k, n / k + 1, k);
  }

  lemma LessFactor(a: nat, b: nat, k: nat)
    requires a * k < b * k
    ensures a < b
  {
    if b <= a { TimesMonotone2(k, b, a); }
  }

  lemma SameQuotient(m: nat, n: nat, k: nat)
    requires m < n && k > 0 && m / k == n / k
    ensures m % k < n % k
  {
    assert m == (m / k) * k + m % k && n == (n / k) * k + n % k;
  }

  lemma TimesMonotone(a: nat, b: nat, k: nat)
    requires a < b && k > 0
    ensures a * k < b * k
  {}

  lemma TimesMonotone2(k: nat, a: nat, b: nat)
    requires a <= b
    ensures k * a <= k * b && a * k <= b * k
  {}

  lemma Scale2(a: nat, b: nat, k: nat)
    requires b <= a
    ensures b * k <= a * k
  {}

  lemma Doubling(f: nat, k: nat)
    ensures 2 * f * k == f * (2 * k)
  {}

  lemma {:induction false} Pow2Sum(a: nat, b: nat)
    ensures Pow2(a) * Pow2(b) == Pow2(a + b)
  {
    if a > 0 {
      Pow2Sum(a - 1, b);
      Doubled(Pow2(a - 1), Pow2(b));
    }
  }

  lemma Doubled(a: nat, b: nat)
    ensures (2 * a) * b == 2 * (a * b)
  {}

  /** The shapes are those of binary32 and binary64: one and two stand where they should,
      infinity is the first pattern with all exponent bits, and NaNs follow it. */
  lemma KnownFloats()
    ensures SINGLE.Half() == 0x8000_0000 && SINGLE.Infinity() == 0x7F80_0000
    ensures DOUBLE.Half() == 0x8000_0000_0000_0000 && DOUBLE.Infinity() == 0x7FF0_0000_0000_0000
    ensures Scaled(SINGLE, 1) == 1 && Scaled(SINGLE, 0x3F80_0000) == Pow2(149) && Scaled(SINGLE, 0x4000_0000) == Pow2(150)
    ensures Scaled(DOUBLE, 1) == 1 && Scaled(DOUBLE, 0x3FF0_0000_0000_0000) == Pow2(1074)
    ensures Scaled(DOUBLE, 0x4000_0000_0000_0000) == Pow2(1075)
  {
    hide Pow2;
    PowersKnown();
    Pow2Sum(23, 126);
    Pow2Sum(23, 127);
    Pow2Sum(52, 1022);
    Pow2Sum(52, 1023);
  }

  lemma PowersKnown()
    ensures Pow2(23) == 0x80_0000 && Pow2(52) == 0x10_0000_0000_0000
  {
    assert Pow2(4) == 16 && Pow2(8) == 256;
    assert Pow2(12) == 4096 && Pow2(16) == 0x1_0000;
    Pow2Sum(7, 16);
    Pow2Sum(16, 16);
    Pow2Sum(16, 32);
    Pow2Sum(4, 48);
    assert Pow2(7) == 128;
  }

  // ----- decimals ---------------------------------------------------------------

  function Pow10(n: nat): (r: nat)
    ensures r >= 1
  {
    if n == 0 then 1 else 10 * Pow10(n - 1)
  }

  /** Digits read as an integer, most significant first. */
  function DigitsValue(digits: seq<nat>): nat {
    if digits == [] then 0 else 10 * DigitsValue(digits[..|digits| - 1]) + digits[|digits| - 1]
  }

  /** The absolute value of a finite decimal, in units of ten to the minus 128. */
  function DecimalValue(d: Decimal): nat
    requires d.Finite? && d.Valid()
  {
    DigitsValue(d.digits) * Pow10(d.exponent + 128)
  }

  /** The place of a decimal's class: −∞, negative, zero, positive, +∞, then NaN. */
  function DecimalClass(d: Decimal): nat {
    match d
    case NegativeInfinity => 22
    case Finite(negative, _, _) => if negative then 23 else 25
    case Zero => 24
    case PositiveInfinity => 26
    case NotANumber => 27
  }

  // ----- all scalars ------------------------------------------------------------

  /** The place of a scalar's type among the types. */
  function Rank(s: Scalar): byte {
    match s
    case Null => 0
    case Bool(_) => 1
    case Signed(w, _) => (match w case W8 => 2 case W16 => 3 case W32 => 4 case W64 => 5 case W128 => 6)
    case Unsigned(w, _) => (match w case W8 => 7 case W16 => 8 case W32 => 9 case W64 => 10 case W128 => 11)
    case F32(_) => 12
    case F64(_) => 13
    case Str(_) => 14
    case Octets(_) => 15
    case Uuid(_) => 16
    case Date(_) => 17
    case Time(_, _) => 18
    case DateTime(_, _, _) => 19
    case Duration(_) => 20
    case BigInt(_) => 21
    case BigFloat(d) => DecimalClass(d)
    case Rational(_, _) => 28
  }

  lemma FloatRange(s: Scalar)
    ensures SINGLE.Valid() && DOUBLE.Valid()
    ensures s.F32? ==> s.bits32 < 2 * SINGLE.Half()
    ensures s.F64? ==> s.bits64 < 2 * DOUBLE.Half()
  {
    assert Pow256(2) == 0x1_0000 && Pow256(4) == 0x1_0000_0000 && Pow256(6) == 0x1_0000_0000_0000;
    assert Pow256(8) == 0x1_0000_0000_0000_0000;
  }

  /** `a` comes before `b`, two scalars of one type (and one decimal class). */
  predicate ValueLess(a: Scalar, b: Scalar) {
    FloatRange(a);
    FloatRange(b);
    match (a, b)
    case (Bool(x), Bool(y)) => !x && y
    case (Signed(_, x), Signed(_, y)) => x < y
    case (Unsigned(_, x), Unsigned(_, y)) => x < y
    case (F32(x), F32(y)) => TotalBelow(SINGLE, x, y)
    case (F64(x), F64(y)) => TotalBelow(DOUBLE, x, y)
    case (Str(x), Str(y)) => LexLess(x, y)
    case (Octets(x), Octets(y)) => LexLess(x, y)
    case (Uuid(x), Uuid(y)) => LexLess(x, y)
    case (Date(x), Date(y)) => x < y
    case (Time(s, n), Time(t, m)) => s < t || (s == t && n < m)
    case (DateTime(d, s, n), DateTime(e, t, m)) => d < e || (d == e && (s < t || (s == t && n < m)))
    case (Duration(x), Duration(y)) => x < y
    case (BigInt(x), BigInt(y)) => x < y
    case (BigFloat(x), BigFloat(y)) =>
      x.Finite? && y.Finite? && (if x.negative then DecimalValue(y) < DecimalValue(x) else DecimalValue(x) < DecimalValue(y))
    case (Rational(p, q), Rational(r, s)) => p * s < r * q
    case _ => false
  }

  /** Two scalars of one type with one value: the same, but for how a decimal or a fraction is written. */
  predicate ValueSame(a: Scalar, b: Scalar) {
    match (a, b)
    case (BigFloat(x), BigFloat(y)) => x == y || (x.Finite? && y.Finite? && DecimalValue(x) == DecimalValue(y))
    case (Rational(p, q), Rational(r, s)) => p * s == r * q
    case _ => a == b
  }

  predicate ScalarLess(a: Scalar, b: Scalar) {
    Rank(a) < Rank(b) || (Rank(a) == Rank(b) && ValueLess(a, b))
  }

  predicate ScalarSame(a: Scalar, b: Scalar) { Rank(a) == Rank(b) && ValueSame(a, b) }

  /** One rank is one type, one width, one decimal class. */
  predicate Alike(a: Scalar, b: Scalar) {
    match (a, b)
    case (Null, Null) => true
    case (Bool(_), Bool(_)) => true
    case (Signed(v, _), Signed(w, _)) => v == w
    case (Unsigned(v, _), Unsigned(w, _)) => v == w
    case (F32(_), F32(_)) => true
    case (F64(_), F64(_)) => true
    case (Str(_), Str(_)) => true
    case (Octets(_), Octets(_)) => true
    case (Uuid(_), Uuid(_)) => true
    case (Date(_), Date(_)) => true
    case (Time(_, _), Time(_, _)) => true
    case (DateTime(_, _, _), DateTime(_, _, _)) => true
    case (Duration(_), Duration(_)) => true
    case (BigInt(_), BigInt(_)) => true
    case (BigFloat(x), BigFloat(y)) => DecimalClass(x) == DecimalClass(y)
    case (Rational(_, _), Rational(_, _)) => true
    case _ => false
  }

  lemma SameRank(a: Scalar, b: Scalar)
    ensures Rank(a) == Rank(b) <==> Alike(a, b)
  {
    hide RawScalar.Valid, RawScalar.Storable;
  }

  /** Every two scalars compare, one way or the other or as equals. */
  lemma ScalarTotal(a: Scalar, b: Scalar)
    ensures ScalarLess(a, b) || ScalarSame(a, b) || ScalarLess(b, a)
  {
    hide TotalBelow, LexLess, DecimalValue, Rank, RawScalar.Valid, RawScalar.Storable;
    SameRank(a, b);
    if Alike(a, b) {
      FloatRange(a);
      FloatRange(b);
      match (a, b)
      case (F32(x), F32(y)) => TotalTotal(SINGLE, x, y);
      case (F64(x), F64(y)) => TotalTotal(DOUBLE, x, y);
      case (Str(x), Str(y)) => LexTotal(x, y);
      case (Octets(x), Octets(y)) => LexTotal(x, y);
      case (Uuid(x), Uuid(y)) => LexTotal(x, y);
      case _ =>
    }
  }

  lemma TotalTotal(f: FloatShape, x: nat, y: nat)
    requires f.Valid() && x < 2 * f.Half() && y < 2 * f.Half()
    ensures TotalBelow(f, x, y) || x == y || TotalBelow(f, y, x)
  {
    var m, n := MagnitudeBits(f, x), MagnitudeBits(f, y);
    if m < n { ScaledMonotone(f, m, n); }
    if n < m { ScaledMonotone(f, n, m); }
  }
}
