/** Scalar leaf values, and the order an index promises between them. */
module Scalars {
  import opened Bytes

  const I64_MAX: int := 0x7FFF_FFFF_FFFF_FFFF

  datatype Width = W8 | W16 | W32 | W64 | W128
  {
    function Size(): (n: nat) {
      match this
      case W8 => 1
      case W16 => 2
      case W32 => 4
      case W64 => 8
      case W128 => 16
    }
  }

  /** A decimal big float: a finite non-zero one is `digits` (most significant
      first, the first non-zero) read as an integer, times ten to the `exponent`. */
  datatype Decimal =
    | NotANumber
    | PositiveInfinity
    | NegativeInfinity
    | Zero
    | Finite(negative: bool, digits: seq<nat>, exponent: int)
  {
    predicate Valid() {
      Finite? ==>
        && 0 < |digits| <= 40 && digits[0] != 0
        && (forall i | 0 <= i < |digits| :: digits[i] <= 9)
        && -128 <= exponent <= 127
    }
  }

  /** Floats are their IEEE-754 bit patterns, times are already split into the
      calendar counts the encoders ask for, a duration is its nanoseconds. */
  datatype RawScalar =
    | Null
    | Bool(flag: bool)
    | Signed(width: Width, int_: int)
    | Unsigned(width: Width, nat_: nat)
    | F32(bits32: nat)
    | F64(bits64: nat)
    | Str(utf8: bytes)
    | Octets(data: bytes)
    | Uuid(id: bytes)
    | Date(days: int)
    | Time(secs: nat, nanos: nat)
    | DateTime(days: int, secs: nat, nanos: nat)
    | Duration(total: int)
    | BigInt(big: int)
    | BigFloat(decimal: Decimal)
    | Rational(numer: int, denom: int)
  {
    predicate Valid() {
      match this
      case Null => true
      case Bool(_) => true
      case Signed(w, v) => InSignedRange(v, w.Size())
      case Unsigned(w, v) => v < Pow256(w.Size())
      case F32(b) => b < Pow256(4)
      case F64(b) => b < Pow256(8)
      case Str(_) => true
      case Octets(_) => true
      case Uuid(u) => |u| == 16
      case Date(d) => InSignedRange(d, 4)
      case Time(s, n) => IsTimeOfDay(s, n)
      case DateTime(d, s, n) => InSignedRange(d, 4) && IsTimeOfDay(s, n)
      case Duration(t) => -I64_MAX * 1_000_000 <= t <= I64_MAX * 1_000_000
      case BigInt(v) => Addressable(v)
      case BigFloat(d) => d.Valid()
      case Rational(p, q) => q > 0 && Addressable(p) && Addressable(q)
    }

    /** Byte runs are stored behind a 32-bit length. */
    predicate Storable() {
      match this
      case Str(u) => |u| < Pow256(4)
      case Octets(d) => |d| < Pow256(4)
      case BigInt(v) => |SignedBytes(v)| < Pow256(4)
      case Rational(p, q) => |SignedBytes(p)| < Pow256(4) && |SignedBytes(q)| < Pow256(4)
      case _ => true
    }
  }

  type Scalar = s: RawScalar | s.Valid() && s.Storable() witness Null

  /** Seconds since midnight, and nanoseconds with room for a leap second. */
  predicate IsTimeOfDay(secs: nat, nanos: nat) {
    secs < 86_400 && nanos < 2_000_000_000
  }

  /** Minimal two's-complement big-endian bytes. */
  function SignedBytes(v: int): (b: bytes)
    ensures |b| >= 1
    decreases if v < 0 then -v else v
  {
    if -128 <= v < 128 then [v % 256] else SignedBytes(v / 256) + [v % 256]
  }

  function FromSignedBytes(b: bytes): int {
    if b == [] then 0
    else if |b| == 1 then (if b[0] < 128 then b[0] else b[0] - 256)
    else 256 * FromSignedBytes(b[..|b| - 1]) + b[|b| - 1]
  }

  lemma {:induction false} SignedBytesRoundTrip(v: int)
    ensures FromSignedBytes(SignedBytes(v)) == v
    decreases if v < 0 then -v else v
  {
    if !(-128 <= v < 128) {
      SignedBytesRoundTrip(v / 256);
      assert SignedBytes(v)[..|SignedBytes(v)| - 1] == SignedBytes(v / 256);
    }
  }

  function Half(w: nat): (h: nat)
    requires w > 0
    ensures 2 * h == Pow256(w)
  {
    128 * Pow256(w - 1)
  }

  predicate InSignedRange(v: int, w: nat)
    requires w > 0
  {
    0 <= v + Half(w) < Pow256(w)
  }

  function Abs(v: int): nat { if v < 0 then -v else v }

  /** A magnitude is a byte vector, so its length is a 64-bit count. */
  predicate Addressable(v: int) {
    |Magnitude(Abs(v))| < Pow256(8)
  }
}
