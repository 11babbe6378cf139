/** The byte codec leaves are stored in. */
module ScalarCodec {
  import opened Basics
  import opened Bytes
  import opened Scalars

  /** A fixed-width two's-complement integer. */
  function SignedFixed(v: int, w: nat): (b: bytes)
    requires w > 0 && InSignedRange(v, w)
    ensures |b| == w
  {
    BigEndian(if v < 0 then v + Pow256(w) else v, w)
  }

  function FromSignedFixed(b: bytes): int
    requires b != []
  {
    var n := FromBigEndian(b);
    if n < Half(|b|) then n else n - Pow256(|b|)
  }

  lemma SignedFixedRoundTrip(v: int, w: nat)
    requires w > 0 && InSignedRange(v, w)
    ensures FromSignedFixed(SignedFixed(v, w)) == v
  {
    BigEndianRoundTrip(if v < 0 then v + Pow256(w) else v, w);
  }

  /** A run of bytes behind its 32-bit length. */
  function PutBytes(b: bytes): bytes
    requires |b| < Pow256(4)
  {
    BigEndian(|b|, 4) + b
  }

  /** Splits a length-prefixed run off the front. */
  function TakeBytes(b: bytes): Option<(bytes, bytes)> {
    if |b| < 4 || |b| - 4 < FromBigEndian(b[..4]) then None
    else var n := FromBigEndian(b[..4]); Some((b[4..4 + n], b[4 + n..]))
  }

  lemma TakePut(b: bytes, rest: bytes)
    requires |b| < Pow256(4)
    ensures TakeBytes(PutBytes(b) + rest) == Some((b, rest))
  {
    BigEndianRoundTrip(|b|, 4);
    var all := PutBytes(b) + rest;
    assert all[..4] == BigEndian(|b|, 4);
    assert all[4..4 + |b|] == b && all[4 + |b|..] == rest;
  }

  const NANOS: int := 1_000_000_000

  /** Whole seconds of a duration, truncated toward zero. */
  function WholeSeconds(total: int): int {
    if total < 0 then -(-total / NANOS) else total / NANOS
  }

  function DecimalBytes(digits: seq<nat>): bytes
    requires forall i | 0 <= i < |digits| :: digits[i] <= 9
  {
    seq(|digits|, i requires 0 <= i < |digits| => digits[i])
  }

  function Tag(s: Scalar): byte {
    match s
    case Null => 0
    case Bool(_) => 1
    case Signed(w, _) => (match w case W8 => 2 case W16 => 3 case W32 => 4 case W64 => 5 case W128 => 6)
    case Unsigned(w, _) => (match w case W8 => 7 case W16 => 8 case W32 => 9 case W64 => 10 case W128 => 11)
    case F32(_) => 12
    case F64(_) => 13
    case Str(_) => 14
    case Octets(_) => 15
    case Uuid(_) => 16
    case Date(_) => 17
    case Time(_, _) => 18
    case DateTime(_, _, _) => 19
    case Duration(_) => 20
    case BigInt(_) => 21
    case BigFloat(d) =>
      (match d
       case Zero => 22
       case Finite(neg, _, _) => if neg then 24 else 23
       case NotANumber => 25
       case PositiveInfinity => 26
       case NegativeInfinity => 27)
    case Rational(_, _) => 28
  }

  lemma DurationParts(total: int)
    requires Duration(total).Valid()
    ensures InSignedRange(WholeSeconds(total), 8) && InSignedRange(total - WholeSeconds(total) * NANOS, 4)
  {
    PowValues();
  }

  lemma PowValues()
    ensures Pow256(1) == 256 && Pow256(2) == 0x1_0000 && Pow256(4) == 0x1_0000_0000
    ensures Pow256(8) == 0x1_0000_0000_0000_0000
    ensures Half(1) == 128 && Half(4) == 0x8000_0000 && Half(8) == 0x8000_0000_0000_0000
  {
    assert Pow256(3) == 0x100_0000;
    assert Pow256(5) == 0x100_0000_0000;
    assert Pow256(7) == 0x100_0000_0000_0000;
  }

  function Body(s: Scalar): bytes {
    PowValues();
    match s
    case Null => []
    case Bool(v) => [if v then 1 else 0]
    case Signed(w, v) => SignedFixed(v, w.Size())
    case Unsigned(w, v) => BigEndian(v, w.Size())
    case F32(b) => BigEndian(b, 4)
    case F64(b) => BigEndian(b, 8)
    case Str(u) => PutBytes(u)
    case Octets(d) => PutBytes(d)
    case Uuid(u) => u
    case Date(d) => SignedFixed(d, 4)
    case Time(n, ns) => BigEndian(n, 4) + BigEndian(ns, 4)
    case DateTime(d, n, ns) => SignedFixed(d, 4) + BigEndian(n, 4) + BigEndian(ns, 4)
    case Duration(t) =>
      DurationParts(t);
      SignedFixed(WholeSeconds(t), 8) + SignedFixed(t - WholeSeconds(t) * NANOS, 4)
    case BigInt(v) => PutBytes(SignedBytes(v))
    case BigFloat(d) =>
      if d.Finite? then SignedFixed(d.exponent, 1) + PutBytes(DecimalBytes(d.digits)) else []
    case Rational(p, q) => PutBytes(SignedBytes(p)) + PutBytes(SignedBytes(q))
  }

  function Encode(s: Scalar): bytes { [Tag(s)] + Body(s) }

  function Checked(s: RawScalar): Option<Scalar> {
    if s.Valid() && s.Storable() then Some(s) else None
  }

  function WidthOf(tag: byte): Width {
    if tag == 2 || tag == 7 then W8
    else if tag == 3 || tag == 8 then W16
    else if tag == 4 || tag == 9 then W32
    else if tag == 5 || tag == 10 then W64
    else W128
  }

  function Decode(b: bytes): Option<Scalar> {
    if b == [] then None else DecodeBody(b[0], b[1..])
  }

  /** A body shorter than its type is refused; bytes past it are not read. */
  function DecodeBody(tag: byte, b: bytes): Option<Scalar> {
    if tag == 0 then Some(Null)
    else if tag == 1 then (if |b| >= 1 then Some(Bool(b[0] != 0)) else None)
    else if 2 <= tag <= 6 then
      var w := WidthOf(tag);
      if |b| >= w.Size() then Checked(Signed(w, FromSignedFixed(b[..w.Size()]))) else None
    else if 7 <= tag <= 11 then
      var w := WidthOf(tag);
      if |b| >= w.Size() then Checked(Unsigned(w, FromBigEndian(b[..w.Size()]))) else None
    else if tag == 12 then (if |b| >= 4 then Checked(F32(FromBigEndian(b[..4]))) else None)
    else if tag == 13 then (if |b| >= 8 then Checked(F64(FromBigEndian(b[..8]))) else None)
    else if tag == 14 || tag == 15 then
      match TakeBytes(b)
      case Some(run) => Checked(if tag == 14 then Str(run.0) else Octets(run.0))
      case None => None
    else if tag == 16 then (if |b| >= 16 then Checked(Uuid(b[..16])) else None)
    else if 17 <= tag <= 20 then DecodeCalendar(tag, b)
    else DecodeBig(tag, b)
  }

  function DecodeCalendar(tag: byte, b: bytes): Option<Scalar> {
    if tag == 17 && |b| >= 4 then Checked(Date(FromSignedFixed(b[..4])))
    else if tag == 18 && |b| >= 8 then Checked(Time(FromBigEndian(b[..4]), FromBigEndian(b[4..8])))
    else if tag == 19 && |b| >= 12 then
      Checked(DateTime(FromSignedFixed(b[..4]), FromBigEndian(b[4..8]), FromBigEndian(b[8..12])))
    else if tag == 20 && |b| >= 12 then
      Checked(Duration(FromSignedFixed(b[..8]) * NANOS + FromSignedFixed(b[8..12])))
    else None
  }

  function DecodeBig(tag: byte, b: bytes): Option<Scalar> {
    if tag == 21 then
      match TakeBytes(b) case Some(run) => Checked(BigInt(FromSignedBytes(run.0))) case None => None
    else if tag == 22 then Checked(BigFloat(Zero))
    else if tag == 25 then Checked(BigFloat(NotANumber))
    else if tag == 26 then Checked(BigFloat(PositiveInfinity))
    else if tag == 27 then Checked(BigFloat(NegativeInfinity))
    else if (tag == 23 || tag == 24) && b != [] then
      match TakeBytes(b[1..])
      case Some(run) => Checked(BigFloat(Finite(tag == 24, run.0, FromSignedFixed(b[..1]))))
      case None => None
    else if tag == 28 then
      match TakeBytes(b)
      case Some(p) =>
        (match TakeBytes(p.1)
         case Some(q) => Checked(Rational(FromSignedBytes(p.0), FromSignedBytes(q.0)))
         case None => None)
      case None => None
    else None
  }

  /** Reading back a stored scalar gives the scalar. */
  lemma DecodeEncode(s: Scalar)
    ensures Decode(Encode(s)) == Some(s)
  {
    hide Checked, DecodeCalendar, DecodeBig;
    var b := Body(s);
    assert Encode(s)[0] == Tag(s) && Encode(s)[1..] == b;
    match s
    case Date(_) => CalendarRoundTrip(s);
    case Time(_, _) => TimeRoundTrip(s);
    case DateTime(_, _, _) => CalendarRoundTrip(s);
    case Duration(_) => DurationRoundTrip(s);
    case BigInt(_) => BigIntRoundTrip(s);
    case BigFloat(_) => BigFloatRoundTrip(s);
    case Rational(_, _) => RationalRoundTrip(s);
    case Str(_) => RunRoundTrip(s);
    case Octets(_) => RunRoundTrip(s);
    case _ => FixedRoundTrip(s);
  }

  lemma FixedRoundTrip(s: Scalar)
    requires Tag(s) <= 16 && !s.Str? && !s.Octets?
    ensures DecodeBody(Tag(s), Body(s)) == Some(s)
  {
    var b := Body(s);
    assert b[..|b|] == b;
    match s
    case Signed(_, _) => IntegerRoundTrip(s);
    case Unsigned(_, _) => IntegerRoundTrip(s);
    case F32(n) => BigEndianRoundTrip(n, 4);
    case F64(n) => BigEndianRoundTrip(n, 8);
    case _ =>
  }

  lemma IntegerRoundTrip(s: Scalar)
    requires s.Signed? || s.Unsigned?
    ensures DecodeBody(Tag(s), Body(s)) == Some(s)
  {
    var b := Body(s);
    assert b[..|b|] == b && WidthOf(Tag(s)) == s.width;
    if s.Signed? {
      SignedFixedRoundTrip(s.int_, s.width.Size());
    } else {
      BigEndianRoundTrip(s.nat_, s.width.Size());
    }
  }

  lemma RunRoundTrip(s: Scalar)
    requires s.Str? || s.Octets?
    ensures DecodeBody(Tag(s), Body(s)) == Some(s)
  {
    var run := if s.Str? then s.utf8 else s.data;
    TakePut(run, []);
    assert Body(s) + [] == Body(s);
  }

  lemma CalendarRoundTrip(s: Scalar)
    requires s.Date? || s.DateTime?
    ensures DecodeCalendar(Tag(s), Body(s)) == Some(s)
  {
    PowValues();
    var b := Body(s);
    SignedFixedRoundTrip(s.days, 4);
    assert b[..4] == SignedFixed(s.days, 4);
    if s.DateTime? {
      BigEndianRoundTrip(s.secs, 4);
      BigEndianRoundTrip(s.nanos, 4);
      assert b[4..8] == BigEndian(s.secs, 4) && b[8..12] == BigEndian(s.nanos, 4);
    }
  }

  lemma TimeRoundTrip(s: Scalar)
    requires s.Time?
    ensures DecodeCalendar(Tag(s), Body(s)) == Some(s)
  {
    PowValues();
    BigEndianRoundTrip(s.secs, 4);
    BigEndianRoundTrip(s.nanos, 4);
    assert Body(s)[..4] == BigEndian(s.secs, 4) && Body(s)[4..8] == BigEndian(s.nanos, 4);
  }

  lemma DurationRoundTrip(s: Scalar)
    requires s.Duration?
    ensures DecodeCalendar(Tag(s), Body(s)) == Some(s)
  {
    var b, secs := Body(s), WholeSeconds(s.total);
    DurationParts(s.total);
    SignedFixedRoundTrip(secs, 8);
    SignedFixedRoundTrip(s.total - secs * NANOS, 4);
    assert b[..8] == SignedFixed(secs, 8) && b[8..12] == SignedFixed(s.total - secs * NANOS, 4);
  }

  lemma BigIntRoundTrip(s: Scalar)
    requires s.BigInt?
    ensures DecodeBig(Tag(s), Body(s)) == Some(s)
  {
    TakePut(SignedBytes(s.big), []);
    assert Body(s) + [] == Body(s);
    SignedBytesRoundTrip(s.big);
  }

  lemma BigFloatRoundTrip(s: Scalar)
    requires s.BigFloat?
    ensures DecodeBig(Tag(s), Body(s)) == Some(s)
  {
    var d := s.decimal;
    if d.Finite? {
      PowValues();
      var b, run := Body(s), DecimalBytes(d.digits);
      TakePut(run, []);
      assert b[1..] == PutBytes(run) + [] && b[..1] == SignedFixed(d.exponent, 1);
      SignedFixedRoundTrip(d.exponent, 1);
      var back: seq<nat> := run;
      assert back == d.digits;
    }
  }

  lemma RationalRoundTrip(s: Scalar)
    requires s.Rational?
    ensures DecodeBig(Tag(s), Body(s)) == Some(s)
  {
    var p, q := SignedBytes(s.numer), SignedBytes(s.denom);
    TakePut(p, PutBytes(q));
    TakePut(q, []);
    assert PutBytes(q) + [] == PutBytes(q);
    SignedBytesRoundTrip(s.numer);
    SignedBytesRoundTrip(s.denom);
  }
}
