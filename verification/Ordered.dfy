/** Order-preserving index keys: a type tag and a self-delimiting body, so that
    bytewise order is the order of the values, ascending or descending. */
module Ordered {
  import opened Bytes
  import opened Scalars
  import opened ScalarCodec
  import opened OrderedRuns
  import opened Rationals
  import opened ScalarOrder
  import opened Decimals

  /** A float's bits, every one flipped below zero and only the sign bit above. */
  function FloatKey(f: FloatShape, bits: nat): (k: nat)
    requires bits < 2 * f.Half()
    ensures k < 2 * f.Half()
  {
    if Negative(f, bits) then 2 * f.Half() - 1 - bits else bits + f.Half()
  }

  /** Float keys compare as the standard's total order does. */
  lemma FloatOrder(f: FloatShape, x: nat, y: nat)
    requires f.Valid() && x < 2 * f.Half() && y < 2 * f.Half()
    ensures TotalBelow(f, x, y) <==> FloatKey(f, x) < FloatKey(f, y)
  {
    hide Scaled;
    var m, n := MagnitudeBits(f, x), MagnitudeBits(f, y);
    if m < n { ScaledMonotone(f, m, n); }
    if n < m { ScaledMonotone(f, n, m); }
  }

  lemma Widths()
    ensures Pow256(1) == 0x100 && Pow256(2) == 0x1_0000 && Pow256(4) == 0x1_0000_0000
    ensures Pow256(8) == 0x1_0000_0000_0000_0000 && Pow256(16) == 0x1_0000_0000_0000_0000_0000_0000_0000_0000
    ensures SINGLE.Half() == Half(4) && DOUBLE.Half() == Half(8) && SINGLE.Valid() && DOUBLE.Valid()
  {
    assert Pow256(6) == 0x1_0000_0000_0000;
    assert Pow256(10) == 0x1_0000_0000_0000_0000_0000;
    assert Pow256(12) == 0x1_0000_0000_0000_0000_0000_0000;
    assert Pow256(14) == 0x1_0000_0000_0000_0000_0000_0000_0000;
  }

  /** What follows the tag. */
  function KeyBody(s: Scalar): bytes {
    hide RawScalar.Storable, Magnitude, SignedBytes;
    Widths();
    match s
    case Null => []
    case Bool(v) => [if v then 1 else 0]
    case Signed(w, v) => Biased(v, w.Size())
    case Unsigned(w, v) => BigEndian(v, w.Size())
    case F32(b) => BigEndian(FloatKey(SINGLE, b), 4)
    case F64(b) => BigEndian(FloatKey(DOUBLE, b), 8)
    case Str(u) => OrderedBytes(u)
    case Octets(d) => OrderedBytes(d)
    case Uuid(u) => u
    case Date(d) => Biased(d, 4)
    case Time(n, ns) => BigEndian(n, 4) + BigEndian(ns, 4)
    case DateTime(d, n, ns) => Biased(d, 4) + BigEndian(n, 4) + BigEndian(ns, 4)
    case Duration(t) => Biased(t, 16)
    case BigInt(v) => SignedIntBytes(v)
    case BigFloat(d) =>
      if !d.Finite? then [] else if d.negative then Complement(DecimalBody(d)) else DecimalBody(d)
    case Rational(p, q) => RationalBytes(p, q)
  }

  /** The ascending key of a scalar, and the descending one: its complement. */
  function Key(s: Scalar, descending: bool): bytes {
    var k := [Rank(s)] + KeyBody(s);
    if descending then Complement(k) else k
  }

  // ----- the order, type by type ------------------------------------------------

  lemma {:induction false} SameLengthLex(a: bytes, b: bytes)
    requires |a| == |b| && LexLess(a, b)
    ensures Below(a, b)
  {
    LessUnlessPrefix(a, b);
  }

  lemma TimeOrder(s: nat, n: nat, t: nat, m: nat)
    requires IsTimeOfDay(s, n) && IsTimeOfDay(t, m) && (s < t || (s == t && n < m))
    requires Pow256(4) == 0x1_0000_0000
    ensures Below(BigEndian(s, 4) + BigEndian(n, 4), BigEndian(t, 4) + BigEndian(m, 4))
  {
    if s < t {
      BigEndianOrder(s, t, 4);
      BelowAppend(BigEndian(s, 4), BigEndian(t, 4), BigEndian(n, 4), BigEndian(m, 4));
    } else {
      BigEndianOrder(n, m, 4);
      BelowPrepend(BigEndian(s, 4), BigEndian(n, 4), BigEndian(m, 4));
    }
  }

  lemma DateTimeOrder(a: Scalar, b: Scalar)
    requires a.DateTime? && b.DateTime? && ValueLess(a, b)
    ensures Below(KeyBody(a), KeyBody(b))
  {
    hide Below, BigEndian, Pow256;
    Widths();
    var x, y := BigEndian(a.secs, 4) + BigEndian(a.nanos, 4), BigEndian(b.secs, 4) + BigEndian(b.nanos, 4);
    assert KeyBody(a) == Biased(a.days, 4) + x && KeyBody(b) == Biased(b.days, 4) + y;
    if a.days < b.days {
      BiasedOrder(a.days, b.days, 4);
      BelowAppend(Biased(a.days, 4), Biased(b.days, 4), x, y);
    } else {
      TimeOrder(a.secs, a.nanos, b.secs, b.nanos);
      BelowPrepend(Biased(a.days, 4), x, y);
    }
  }

  lemma DecimalKeyOrder(x: Decimal, y: Decimal)
    requires x.Finite? && x.Valid() && y.Finite? && y.Valid() && x.negative == y.negative
    ensures (if x.negative then DecimalValue(y) < DecimalValue(x) else DecimalValue(x) < DecimalValue(y))
        ==> Below(KeyBody(BigFloat(x)), KeyBody(BigFloat(y)))
    ensures DecimalValue(x) == DecimalValue(y) ==> KeyBody(BigFloat(x)) == KeyBody(BigFloat(y))
  {
    hide Below, DecimalBody, DecimalValue, Complement;
    DecimalOrder(x, y);
    DecimalOrder(y, x);
    if x.negative && DecimalValue(y) < DecimalValue(x) {
      ComplementReverses(DecimalBody(y), DecimalBody(x));
    }
  }

  lemma BodyOrder(a: Scalar, b: Scalar)
    requires Alike(a, b) && ValueLess(a, b)
    ensures Below(KeyBody(a), KeyBody(b))
  {
    hide BigEndian, OrderedBytes, Pow256, TotalBelow, LexLess, DecimalValue, RationalBytes, SignedIntBytes, UintBytes,
         Magnitude, DecimalBody, SignedBytes, FloatKey, Complement, Biased;
    Widths();
    match (a, b)
    case (Signed(w, x), Signed(_, y)) => BiasedOrder(x, y, w.Size());
    case (Unsigned(w, x), Unsigned(_, y)) => BigEndianOrder(x, y, w.Size());
    case (F32(x), F32(y)) =>
      FloatOrder(SINGLE, x, y);
      BigEndianOrder(FloatKey(SINGLE, x), FloatKey(SINGLE, y), 4);
    case (F64(x), F64(y)) =>
      FloatOrder(DOUBLE, x, y);
      BigEndianOrder(FloatKey(DOUBLE, x), FloatKey(DOUBLE, y), 8);
    case (Str(x), Str(y)) => OrderedBytesOrder(x, y);
    case (Octets(x), Octets(y)) => OrderedBytesOrder(x, y);
    case (Uuid(x), Uuid(y)) => SameLengthLex(x, y);
    case (Date(x), Date(y)) => BiasedOrder(x, y, 4);
    case (Time(s, n), Time(t, m)) => TimeOrder(s, n, t, m);
    case (DateTime(_, _, _), DateTime(_, _, _)) => DateTimeOrder(a, b);
    case (Duration(x), Duration(y)) => BiasedOrder(x, y, 16);
    case (BigInt(x), BigInt(y)) => SignedIntOrder(x, y);
    case (BigFloat(x), BigFloat(y)) => DecimalKeyOrder(x, y);
    case (Rational(p, q), Rational(r, s)) => RationalOrder(p, q, r, s);
    case _ =>
  }

  lemma BodySame(a: Scalar, b: Scalar)
    requires Alike(a, b) && ValueSame(a, b)
    ensures KeyBody(a) == KeyBody(b)
  {
    hide BigEndian, OrderedBytes, Pow256, DecimalValue, RationalBytes, SignedIntBytes, UintBytes, Magnitude, DecimalBody,
         SignedBytes, FloatKey, Complement, Biased;
    match (a, b)
    case (BigFloat(x), BigFloat(y)) =>
      if x != y { DecimalKeyOrder(x, y); }
    case (Rational(p, q), Rational(r, s)) => RationalOrder(p, q, r, s);
    case _ =>
  }

  lemma TagDecides(x: byte, a: bytes, y: byte, b: bytes)
    requires x < y
    ensures Below([x] + a, [y] + b)
  {}

  lemma KeyAscends(a: Scalar, b: Scalar)
    ensures ScalarLess(a, b) ==> Below(Key(a, false), Key(b, false))
    ensures ScalarSame(a, b) ==> Key(a, false) == Key(b, false)
  {
    hide KeyBody, Rank, ValueLess, ValueSame, Alike, RawScalar.Valid, RawScalar.Storable, Below;
    SameRank(a, b);
    if Rank(a) < Rank(b) { TagDecides(Rank(a), KeyBody(a), Rank(b), KeyBody(b)); }
    if Rank(a) == Rank(b) {
      if ValueLess(a, b) {
        BodyOrder(a, b);
        BelowPrepend([Rank(a)], KeyBody(a), KeyBody(b));
      }
      if ValueSame(a, b) { BodySame(a, b); }
    }
  }

  /** Keys compare exactly as scalars do, in either direction, and neither of two
      different keys is ever a prefix of the other. */
  lemma KeyOrder(a: Scalar, b: Scalar, descending: bool)
    ensures Below(Key(a, descending), Key(b, descending)) <==> if descending then ScalarLess(b, a) else ScalarLess(a, b)
    ensures Key(a, descending) == Key(b, descending) <==> ScalarSame(a, b)
    ensures Key(a, descending) <= Key(b, descending) ==> Key(a, descending) == Key(b, descending)
  {
    hide KeyBody, Rank, ValueLess, ValueSame, ScalarLess, ScalarSame, RawScalar.Valid, RawScalar.Storable, Complement, Below;
    ScalarTotal(a, b);
    KeyAscends(a, b);
    KeyAscends(b, a);
    var x, y := Key(a, false), Key(b, false);
    if ScalarLess(a, b) { BothWays(x, y); }
    if ScalarLess(b, a) { BothWays(y, x); }
    if ScalarSame(a, b) { NotBelowSelf(x); NotBelowSelf(Complement(x)); }
  }

  lemma BothWays(x: bytes, y: bytes)
    requires Below(x, y)
    ensures Below(Complement(y), Complement(x))
    ensures !Below(y, x) && !Below(Complement(x), Complement(y)) && x != y && Complement(x) != Complement(y)
    ensures !(x <= y) && !(y <= x) && !(Complement(x) <= Complement(y)) && !(Complement(y) <= Complement(x))
  {
    hide Below;
    ComplementReverses(x, y);
    BelowAsymmetric(x, y);
    BelowAsymmetric(Complement(y), Complement(x));
  }

  lemma NotBelowSelf(x: bytes)
    ensures !Below(x, x)
  {
    if Below(x, x) { BelowAsymmetric(x, x); }
  }

  // ----- what the order means, tags aside -----------------------------------------

  /** A finite decimal's value with its sign, in units of ten to the minus 128. */
  function SignedValue(d: Decimal): int
    requires d.Valid() && (d.Finite? || d.Zero?)
  {
    if d.Zero? then 0
    else
      var size: int := DecimalValue(d);
      if d.negative then -size else size
  }

  /** Negative infinity under every finite value and positive infinity over them, values
      by their sign and size between, and what is not a number above all. */
  predicate DecimalBelow(x: Decimal, y: Decimal)
    requires x.Valid() && y.Valid()
  {
    if x.NotANumber? then false
    else if y.NotANumber? then true
    else if x.PositiveInfinity? || y.NegativeInfinity? then false
    else if x.NegativeInfinity? || y.PositiveInfinity? then true
    else SignedValue(x) < SignedValue(y)
  }

  lemma {:induction false} LeadingDigit(digits: seq<nat>)
    requires digits != [] && digits[0] > 0
    ensures ScalarOrder.DigitsValue(digits) > 0
  {
    if |digits| > 1 { LeadingDigit(digits[..|digits| - 1]); }
  }

  lemma FinitePositive(d: Decimal)
    requires d.Valid() && d.Finite?
    ensures DecimalValue(d) > 0
  {
    hide Pow10;
    LeadingDigit(d.digits);
  }

  /** Big floats order by their signed value, the classes apart as their values are. */
  lemma BigFloatOrder(x: Scalar, y: Scalar)
    requires x.BigFloat? && y.BigFloat?
    ensures Below(Key(x, false), Key(y, false)) <==> DecimalBelow(x.decimal, y.decimal)
    ensures Key(x, false) == Key(y, false) <==> !DecimalBelow(x.decimal, y.decimal) && !DecimalBelow(y.decimal, x.decimal)
  {
    hide Key, Below, DecimalValue;
    KeyOrder(x, y, false);
    KeyOrder(y, x, false);
    if x.decimal.Finite? { FinitePositive(x.decimal); }
    if y.decimal.Finite? { FinitePositive(y.decimal); }
  }

  /** Null, which a missing column reads as, comes before every other scalar. */
  lemma NullFirst(s: Scalar)
    requires s != Null
    ensures Below(Key(Null, false), Key(s, false)) && Below(Key(s, true), Key(Null, true))
  {
    hide Key, Below;
    KeyOrder(Null, s, false);
    KeyOrder(s, Null, true);
  }
}
