/** The index-key encoders as the engine runs them: each appends to one buffer, and
    complements freshly written bytes in place. Every one is proved to append the
    key its counterpart in Ordered denotes. */
module KeyBuffers {
  import opened Bytes
  import opened Scalars
  import opened ScalarCodec
  import opened OrderedRuns
  import opened Rationals
  import opened ScalarOrder
  import opened Decimals
  import opened Ordered

  // ----- byte facts -------------------------------------------------------------

  /** The sign bit of a byte flipped. */
  function FlipTop(b: byte): byte { if b < 128 then b + 128 else b - 128 }

  /** `k` shifted up by `w` bytes. */
  function Shifted(k: nat, w: nat): nat {
    if w == 0 then k else 256 * Shifted(k, w - 1)
  }

  lemma {:induction false} ShiftedOrder(j: nat, k: nat, w: nat)
    requires j < k
    ensures Shifted(j, w) + Pow256(w) <= Shifted(k, w)
  {
    if w > 0 { ShiftedOrder(j, k, w - 1); }
  }

  lemma {:induction false} ShiftedSum(j: nat, k: nat, w: nat)
    ensures Shifted(j + k, w) == Shifted(j, w) + Shifted(k, w)
  {
    if w > 0 { ShiftedSum(j, k, w - 1); }
  }

  lemma {:induction false} ShiftedHalf(w: nat)
    ensures Shifted(128, w) == Half(w + 1) && Shifted(256, w) == Pow256(w + 1)
  {
    if w > 0 { ShiftedHalf(w - 1); }
  }

  /** A number's top byte and what is below it. */
  lemma {:induction false} TopByte(n: nat, w: nat) returns (k: byte, low: nat)
    requires n < Pow256(w + 1)
    ensures n == Shifted(k, w) + low && low < Pow256(w)
    ensures BigEndian(n, w + 1) == [k] + BigEndian(low, w)
  {
    if w == 0 {
      k, low := n, 0;
      assert BigEndian(n, 1) == BigEndian(n / 256, 0) + [n % 256];
    } else {
      var l;
      k, l := TopByte(n / 256, w - 1);
      low := 256 * l + n % 256;
      assert low / 256 == l && low % 256 == n % 256;
    }
  }

  lemma {:induction false} BigEndianHead(k: byte, low: nat, w: nat)
    requires low < Pow256(w) && Shifted(k, w) + low < Pow256(w + 1)
    ensures BigEndian(Shifted(k, w) + low, w + 1) == [k] + BigEndian(low, w)
  {
    var n := Shifted(k, w) + low;
    if w == 0 {
      assert BigEndian(n, 1) == BigEndian(n / 256, 0) + [n % 256];
    } else {
      assert n / 256 == Shifted(k, w - 1) + low / 256 && n % 256 == low % 256;
      BigEndianHead(k, low / 256, w - 1);
    }
  }

  /** Two's complement with its sign bit flipped is the biased integer. */
  lemma FlippedIsBiased(v: int, w: nat)
    requires w > 0 && InSignedRange(v, w)
    ensures [FlipTop(SignedFixed(v, w)[0])] + SignedFixed(v, w)[1..] == Biased(v, w)
  {
    hide BigEndian, Shifted;
    var n: nat := if v < 0 then v + Pow256(w) else v;
    var k, low := TopByte(n, w - 1);
    ShiftedHalf(w - 1);
    assert SignedFixed(v, w)[1..] == BigEndian(low, w - 1);
    if k < 128 {
      ShiftedOrder(k, 128, w - 1);
      ShiftedSum(k, 128, w - 1);
    } else {
      if k > 128 { ShiftedOrder(128, k, w - 1); }
      ShiftedSum(k - 128, 128, w - 1);
    }
    BigEndianHead(FlipTop(k), low, w - 1);
  }

  /** The fixed-width form is the minimal one behind zeros. */
  lemma {:induction false} PaddedMagnitude(n: nat, w: nat)
    requires n < Pow256(w)
    ensures |Magnitude(n)| <= w
    ensures BigEndian(n, w)[w - |Magnitude(n)|..] == Magnitude(n)
    ensures forall i | 0 <= i < w - |Magnitude(n)| :: BigEndian(n, w)[i] == 0
  {
    if w > 0 {
      PaddedMagnitude(n / 256, w - 1);
      if n == 0 { assert BigEndian(n, w) == BigEndian(0, w - 1) + [0]; }
    }
  }

  lemma AppendThree(s: bytes, a: bytes, b: bytes, c: bytes)
    ensures s + a + b + c == s + (a + b + c)
  {}

  // ----- the buffer -------------------------------------------------------------

  class KeyBuffer {
    var data: bytes

    constructor ()
      ensures data == []
    {
      data := [];
    }

    method Push(b: byte)
      modifies this
      ensures data == old(data) + [b]
    {
      data := data + [b];
    }

    method Extend(b: bytes)
      modifies this
      ensures data == old(data) + b
    {
      data := data + b;
    }

    /** Complements everything from `start` on, byte by byte. */
    method ComplementFrom(start: nat)
      requires start <= |data|
      modifies this
      ensures data == old(data[..start]) + Complement(old(data[start..]))
    {
      ghost var was := data;
      for i := start to |data|
        invariant |data| == |was|
        invariant forall j | 0 <= j < |was| :: data[j] == if start <= j < i then 255 - was[j] else was[j]
      {
        data := data[i := 255 - data[i]];
      }
      assert data == was[..start] + Complement(was[start..]);
    }

    method PushSigned(be: bytes)
      requires be != []
      modifies this
      ensures data == old(data) + ([FlipTop(be[0])] + be[1..])
    {
      Push(FlipTop(be[0]));
      Extend(be[1..]);
    }

    /** Escapes and closes a byte string. */
    method PutOrderedBytes(b: bytes)
      modifies this
      ensures data == old(data) + OrderedBytes(b)
    {
      assert b[..0] == [];
      for i := 0 to |b|
        invariant data == old(data) + Escaped(b[..i])
      {
        EscapedGrows(b[..i], b[i]);
        assert b[..i + 1] == b[..i] + [b[i]];
        Push(b[i]);
        if b[i] == 0 {
          Push(255);
        }
      }
      assert b[..|b|] == b;
      Push(0);
      Push(1);
      OrderedBytesSplit(b, []);
      assert b + [] == b;
    }

    /** A minimal magnitude behind its length, the leading zeros of the length skipped. */
    method PutUint(mag: bytes, ghost n: nat)
      requires Countable(n) && mag == Magnitude(n)
      modifies this
      ensures data == old(data) + UintBytes(n)
    {
      hide UintBytes, Pow256;
      ghost var was := data;
      var lenBe := BigEndian(|mag|, 8);
      PaddedMagnitude(|mag|, 8);
      var start := 0;
      while start < 8 && lenBe[start] == 0
        invariant 0 <= start <= 8 - |LengthBytes(n)| && data == was
      {
        start := start + 1;
        FirstByte(n);
      }
      FirstByte(n);
      assert lenBe[start..] == LengthBytes(n);
      UintParts(n);
      var length := lenBe[start..];
      Push(|length|);
      Extend(length);
      Extend(mag);
      AppendThree(was, [|length|], length, mag);
    }

    /** Sign class, then the magnitude, complemented in place below zero. */
    method PutSignedInt(v: int)
      requires Countable(Abs(v))
      modifies this
      ensures data == old(data) + SignedIntBytes(v)
    {
      hide UintBytes;
      if v == 0 {
        Push(ZERO);
      } else if v > 0 {
        Push(POS);
        PutUint(Magnitude(v), v);
      } else {
        Push(NEG);
        var start := |data|;
        PutUint(Magnitude(-v), -v);
        ComplementFrom(start);
      }
    }

    /** A decimal's class tag, then for a finite one its exponent and digits. */
    method PutDecimal(d: Decimal)
      requires d.Valid()
      modifies this
      ensures data == old(data) + ([DecimalClass(d)] + KeyBody(BigFloat(d)))
    {
      hide DecimalBody, OrderedBytes;
      match d
      case NotANumber => Push(27);
      case PositiveInfinity => Push(26);
      case NegativeInfinity => Push(22);
      case Zero => Push(24);
      case Finite(negative, mantissa, exponent) =>
        var body := DecimalKey(mantissa, exponent, d);
        if negative {
          Push(23);
          var i := 0;
          while i < |body|
            invariant 0 <= i <= |body|
            invariant data == old(data) + [23] + Complement(body)[..i]
          {
            Push(255 - body[i]);
            i := i + 1;
          }
          assert Complement(body)[..|body|] == Complement(body);
        } else {
          Push(25);
          Extend(body);
        }
    }

    method PutTerm(t: nat, i: nat)
      requires Countable(t)
      modifies this
      ensures data == old(data) + [CONTINUE] + TermBytes(t, i)
    {
      hide UintBytes;
      Push(CONTINUE);
      var start := |data|;
      PutUint(Magnitude(t), t);
      if i % 2 == 1 {
        ComplementFrom(start);
      }
    }

    /** The terms after the first, odd positions complemented in place, each behind a marker. */
    method PutTerms(terms: seq<int>)
      requires terms != [] && forall i | 1 <= i < |terms| :: terms[i] >= 0 && Countable(terms[i])
      modifies this
      ensures data == old(data) + Middle(terms[1..], 1)
    {
      hide UintBytes, Countable, TermBytes, Middle;
      var i := 1;
      assert data == old(data) + Middle(terms[1..1], 1) by { MiddleNone(1); }
      while i < |terms|
        invariant 1 <= i <= |terms|
        invariant data == old(data) + Middle(terms[1..i], 1)
      {
        PutTerm(terms[i], i);
        MiddleGrows(terms[1..i], terms[i], 1);
        assert terms[1..i + 1] == terms[1..i] + [terms[i]];
        i := i + 1;
      }
      assert terms[1..|terms|] == terms[1..];
    }

    /** The expansion of a rational, closed by a stop on the side its parity asks for. */
    method PutRational(p: int, q: nat)
      requires q > 0 && Countable(Abs(p)) && Countable(q)
      modifies this
      ensures data == old(data) + RationalBytes(p, q)
    {
      hide RationalBytes, SignedIntBytes, UintBytes, Countable, Middle, Terms;
      var terms := ContinuedFraction(p, q);
      TermsCanonical(p, q);
      TermsFit(p, q);
      FirstFits(p, q);
      RationalParts(p, q);
      PutSignedInt(terms[0]);
      PutTerms(terms);
      Push(if |terms| % 2 == 0 then STOP_EVEN else STOP_ODD);
    }

    /** Appends the ascending key of `s`. */
    method PutAscending(s: Scalar)
      modifies this
      ensures data == old(data) + ([Rank(s)] + KeyBody(s))
    {
      hide KeyBody, RawScalar.Storable, Magnitude;
      if s.BigFloat? {
        PutDecimal(s.decimal);
      } else {
        ghost var was := data;
        Push(Rank(s));
        PutBody(s);
        assert data == was + ([Rank(s)] + KeyBody(s));
      }
    }

    method PutBody(s: Scalar)
      requires !s.BigFloat?
      modifies this
      ensures data == old(data) + KeyBody(s)
    {
      hide OrderedBytes, RationalBytes, SignedIntBytes, Magnitude, RawScalar.Storable;
      Widths();
      match s
      case Null =>
      case Bool(v) => Push(if v then 1 else 0);
      case Unsigned(w, v) => Extend(BigEndian(v, w.Size()));
      case F32(b) => Extend(BigEndian(FloatKey(SINGLE, b), 4));
      case F64(b) => Extend(BigEndian(FloatKey(DOUBLE, b), 8));
      case Str(u) => PutOrderedBytes(u);
      case Octets(d) => PutOrderedBytes(d);
      case Uuid(u) => Extend(u);
      case Time(n, ns) =>
        Extend(BigEndian(n, 4));
        Extend(BigEndian(ns, 4));
      case BigInt(v) => PutSignedInt(v);
      case Rational(p, q) => PutRational(p, q);
      case Signed(_, _) | Date(_) | DateTime(_, _, _) | Duration(_) => PutSignedBody(s);
    }

    method PutSignedBody(s: Scalar)
      requires s.Signed? || s.Date? || s.DateTime? || s.Duration?
      modifies this
      ensures data == old(data) + KeyBody(s)
    {
      hide BigEndian, Pow256;
      Widths();
      match s
      case Signed(w, v) =>
        FlippedIsBiased(v, w.Size());
        PushSigned(SignedFixed(v, w.Size()));
      case Date(d) =>
        FlippedIsBiased(d, 4);
        PushSigned(SignedFixed(d, 4));
      case DateTime(d, n, ns) =>
        FlippedIsBiased(d, 4);
        PushSigned(SignedFixed(d, 4));
        Extend(BigEndian(n, 4));
        Extend(BigEndian(ns, 4));
      case Duration(t) =>
        FlippedIsBiased(t, 16);
        PushSigned(SignedFixed(t, 16));
    }

    /** Appends the key of `s`; a descending column's bytes are complemented in place. */
    method PutScalar(s: Scalar, descending: bool)
      modifies this
      ensures data == old(data) + Key(s, descending)
    {
      hide KeyBody, Rank;
      var start := |data|;
      PutAscending(s);
      if descending {
        ComplementFrom(start);
      }
    }
  }

  // ----- what the loops compute ---------------------------------------------------

  lemma FirstByte(n: nat)
    requires Countable(n)
    ensures |LengthBytes(n)| > 0 ==> LengthBytes(n)[0] > 0
    ensures Magnitude(|Magnitude(n)|) == LengthBytes(n)
  {
    MagnitudeBounds(|Magnitude(n)|);
  }

  lemma UintParts(n: nat)
    requires Countable(n)
    ensures UintBytes(n) == [|LengthBytes(n)|] + LengthBytes(n) + Magnitude(n)
  {}

  /** The leading exponent, then the digits without their trailing zeros. */
  method DecimalKey(mantissa: seq<nat>, exponent: int, ghost d: Decimal) returns (body: bytes)
    requires d.Finite? && d.Valid() && mantissa == d.digits && exponent == d.exponent
    ensures body == DecimalBody(d)
  {
    hide OrderedBytes;
    var digits := mantissa;
    while |digits| > 1 && digits[|digits| - 1] == 0
      invariant AreDigits(digits) && Stripped(digits) == Stripped(mantissa)
    {
      digits := digits[..|digits| - 1];
    }
    var lead := |mantissa| - 1 + exponent;
    LeadFits(d);
    FlippedIsBiased(lead, 2);
    var out := new KeyBuffer();
    out.PushSigned(SignedFixed(lead, 2));
    out.PutOrderedBytes(DecimalBytes(digits));
    body := out.data;
  }

  /** Division truncated toward zero. */
  function Truncated(p: int, q: nat): int
    requires q > 0
  {
    if p < 0 then -((-p) / q) else p / q
  }

  lemma FloorCorrection(p: int, q: nat)
    requires q > 0
    ensures var rem := p - Truncated(p, q) * q;
            (rem < 0 ==> p / q == Truncated(p, q) - 1 && p % q == rem + q) && (rem >= 0 ==> p / q == Truncated(p, q) && p % q == rem)
  {
    FloorParts(p, q);
    if p < 0 {
      FloorParts(-p, q);
      var a, b, x, y := p / q, (-p) / q, p % q, (-p) % q;
      Spread(b + 1, q);
      Spread(-b, q);
      assert (-b) * q == -(b * q);
      assert a * q + x == -(b * q) - y;
      if y == 0 {
        SameFloor(a, x, -b, 0, q);
      } else {
        assert (-b - 1) * q == (-b) * q - q by { Spread(-b, q); }
        SameFloor(a, x, -b - 1, q - y, q);
      }
    }
  }

  /** Euclid's loop: each quotient truncated, then corrected down to the floor when
      the remainder comes out negative. */
  method ContinuedFraction(numer: int, denom: nat) returns (terms: seq<int>)
    requires denom > 0
    ensures terms == Terms(numer, denom)
  {
    terms := [];
    var p, q: nat := numer, denom;
    while true
      invariant q > 0 && terms + Terms(p, q) == Terms(numer, denom)
      decreases q
    {
      var trunc := Truncated(p, q);
      var rem := p - trunc * q;
      FloorCorrection(p, q);
      var a, r := trunc, rem;
      if rem < 0 {
        a, r := trunc - 1, rem + q;
      }
      assert a == p / q && r == p % q;
      ghost var was := terms;
      terms := terms + [a];
      if r == 0 {
        break;
      }
      assert was + Terms(p, q) == terms + Terms(q, r);
      p, q := q, r;
    }
  }

  /** The bytes of the terms after the first, from position `i` on, without the stop. */
  function Middle(terms: seq<int>, i: nat): bytes
    requires forall j | 0 <= j < |terms| :: terms[j] >= 0 && Countable(terms[j])
  {
    if terms == [] then [] else [CONTINUE] + TermBytes(terms[0], i) + Middle(terms[1..], i + 1)
  }

  lemma {:induction false} MiddleGrows(terms: seq<int>, t: int, i: nat)
    requires forall j | 0 <= j < |terms| :: terms[j] >= 0 && Countable(terms[j])
    requires t >= 0 && Countable(t)
    ensures Middle(terms + [t], i) == Middle(terms, i) + [CONTINUE] + TermBytes(t, i + |terms|)
  {
    hide TermBytes;
    if terms == [] {
      assert [t][1..] == [] && terms + [t] == [t];
    } else {
      MiddleGrows(terms[1..], t, i + 1);
      assert (terms + [t])[1..] == terms[1..] + [t];
    }
  }

  lemma {:induction false} TermsFit(p: int, q: nat)
    requires q > 0 && Countable(Abs(p)) && Countable(q)
    ensures forall i | 1 <= i < |Terms(p, q)| :: Terms(p, q)[i] >= 0 && Countable(Terms(p, q)[i])
    decreases q
  {
    var r := p % q;
    if r != 0 {
      CountableBelow(r, q);
      TermsFit(q, r);
      TermFits(q, r);
      TermsCanonical(q, r);
    }
  }

  lemma {:induction false} RestParts(q: nat, r: nat, i: nat)
    requires 0 < r < q && Countable(q)
    ensures forall j | 0 <= j < |Terms(q, r)| :: Terms(q, r)[j] >= 0 && Countable(Terms(q, r)[j])
    ensures Rest(q, r, i) == Middle(Terms(q, r), i) + [Stop(i + |Terms(q, r)|)]
    decreases r
  {
    hide TermBytes, Stop;
    TermFits(q, r);
    CountableBelow(r, q);
    TermsCanonical(q, r);
    TermsFit(q, r);
    var s := q % r;
    if s == 0 {
      assert Terms(q, r)[1..] == [];
    } else {
      RestParts(r, s, i + 1);
      assert Terms(q, r)[1..] == Terms(r, s);
    }
  }

  lemma RationalParts(p: int, q: nat)
    requires q > 0 && Countable(Abs(p)) && Countable(q)
    requires forall i | 1 <= i < |Terms(p, q)| :: Terms(p, q)[i] >= 0 && Countable(Terms(p, q)[i])
    requires Countable(Abs(p / q)) && Terms(p, q)[0] == p / q
    ensures RationalBytes(p, q) == SignedIntBytes(p / q) + Middle(Terms(p, q)[1..], 1) + [Stop(|Terms(p, q)|)]
  {
    hide SignedIntBytes, TermBytes, Rest, Middle, Countable;
    var r := p % q;
    if r == 0 {
      RestEnd(q, 1);
      assert Terms(p, q)[1..] == [];
    } else {
      RestParts(q, r, 1);
      assert Terms(p, q)[1..] == Terms(q, r);
    }
  }

  lemma RestEnd(q: nat, i: nat)
    requires q > 0 && Countable(q)
    ensures Rest(q, 0, i) == [Stop(i)] && Middle([], i) == []
  {}

  lemma MiddleNone(i: nat)
    ensures Middle([], i) == []
  {}
}
