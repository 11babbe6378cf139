/** Rationals as continued fractions whose odd-indexed terms are complemented, so
    that bytewise order is the order of the values. */
module Rationals {
  import opened Bytes
  import opened Scalars
  import opened OrderedRuns

  const CONTINUE: byte := 1
  const STOP_ODD: byte := 0
  const STOP_EVEN: byte := 2

  /** The canonical expansion: each term the floor of what is left. */
  function Terms(p: int, q: nat): (t: seq<int>)
    requires q > 0
    ensures |t| > 0
    decreases q
  {
    if p % q == 0 then [p / q] else [p / q] + Terms(q, p % q)
  }

  lemma FloorParts(p: int, q: nat)
    requires q > 0
    ensures p == (p / q) * q + p % q && 0 <= p % q < q
  {}

  /** Every term after the first is at least one, and a last one at least two, so no
      value has a second expansion. */
  lemma {:induction false} TermsCanonical(p: int, q: nat)
    requires q > 0
    ensures forall i | 1 <= i < |Terms(p, q)| :: Terms(p, q)[i] >= 1
    ensures |Terms(p, q)| > 1 ==> Terms(p, q)[|Terms(p, q)| - 1] >= 2
    ensures Terms(p, q)[0] == p / q
    decreases q
  {
    var r := p % q;
    if r != 0 {
      TermsCanonical(q, r);
      FloorParts(q, r);
      QuotientAbove(q, r);
    }
  }

  lemma QuotientAbove(q: nat, r: nat)
    requires 0 < r < q
    ensures q / r >= 1 && (q % r == 0 ==> q / r >= 2)
  {
    FloorParts(q, r);
    if q / r <= 1 { ScalarTimes(q / r, 1, r); }
  }

  lemma ScalarTimes(a: int, b: int, k: nat)
    requires a <= b
    ensures a * k <= b * k
  {}

  // ----- the encoding -----------------------------------------------------------

  function Quot(q: nat, r: nat): nat
    requires r > 0
  {
    q / r
  }

  function Rem(q: nat, r: nat): (x: nat)
    requires r > 0
    ensures x < r
  {
    q % r
  }

  /** A term after the first: complemented at an odd position. */
  function TermBytes(t: nat, i: nat): bytes
    requires Countable(t)
  {
    if i % 2 == 1 then Complement(UintBytes(t)) else UintBytes(t)
  }

  function Stop(i: nat): byte { if i % 2 == 0 then STOP_EVEN else STOP_ODD }

  /** What follows position `i - 1` when the fraction left there is `r / q`. */
  function Rest(q: nat, r: nat, i: nat): bytes
    requires r < q && Countable(q)
    decreases r
  {
    if r == 0 then [Stop(i)]
    else
      TermFits(q, r);
      CountableBelow(r, q);
      [CONTINUE] + TermBytes(Quot(q, r), i) + Rest(r, Rem(q, r), i + 1)
  }

  lemma TermFits(q: nat, r: nat)
    requires 0 < r < q && Countable(q)
    ensures Quot(q, r) <= q && Countable(Quot(q, r))
  {
    FloorParts(q, r);
    ScalarTimes(1, r, q / r);
    CountableBelow(q / r, q);
  }

  lemma FirstFits(p: int, q: nat)
    requires q > 0 && Countable(Abs(p))
    ensures Countable(Abs(p / q))
  {
    FloorParts(p, q);
    FloorSize(p, q);
    CountableBelow(Abs(p / q), Abs(p));
  }

  lemma FloorSize(p: int, q: nat)
    requires q > 0
    ensures Abs(p / q) <= Abs(p)
  {
    FloorParts(p, q);
    var a := p / q;
    if a >= 0 {
      ScalarTimes(0, a, q);
      ScalarTimes(1, q, a);
    } else {
      assert -a * q >= -a by { ScalarTimes(1, q, -a); }
      if q == 1 { assert a * q == a; } else { NegativeFloor(p, q); }
    }
  }

  lemma NegativeFloor(p: int, q: nat)
    requires q > 1 && p / q < 0
    ensures p < 0 && -(p / q) <= -p
  {
    FloorParts(p, q);
    var a := p / q;
    // p == a·q + r with r <= q - 1, so -p >= -a·q - q + 1 >= -a once -a >= 1.
    assert (-a - 1) * q >= -a - 1 by { ScalarTimes(1, q, -a - 1); }
    assert (-a - 1) * q == -(a * q) - q by { Spread(-a, q); }
  }

  lemma Spread(a: int, q: int)
    ensures (a - 1) * q == a * q - q
    ensures (-a) * q == -(a * q)
  {}

  /** The body of a rational's key. */
  function RationalBytes(p: int, q: nat): bytes
    requires q > 0 && Countable(Abs(p)) && Countable(q)
  {
    FirstFits(p, q);
    SignedIntBytes(p / q) + Rest(q, p % q, 1)
  }

  // ----- the order --------------------------------------------------------------

  /** `r / q < s / t` */
  predicate FractionLess(q: nat, r: int, t: nat, s: int) { r * t < s * q }

  /** One Euclid step on both sides reverses the order of what is left, once the terms agree. */
  lemma StepReverses(q: nat, r: nat, t: nat, s: nat)
    requires 0 < r < q && 0 < s < t && FractionLess(q, r, t, s)
    ensures Quot(q, r) >= Quot(t, s)
    ensures Quot(q, r) == Quot(t, s) ==> FractionLess(s, Rem(t, s), r, Rem(q, r))
  {
    FloorParts(q, r);
    FloorParts(t, s);
    var a, b := q / r, t / s;
    Cross(q, r, a, q % r, t, s, b, t % s);
    assert (q % r) * s <= r * s by { ScalarTimes(q % r, r, s); }
    assert (t % s) * r >= 0 by { ScalarTimes(0, t % s, r); }
    Spread(a + 2, r * s);
    if a < b {
      // r·t >= r·s·(a + 1) = r·s·a + r·s >= s·(a·r + q % r) = s·q
      ScalarTimes(a + 1, b, r * s);
    }
  }

  /** The two cross products, unfolded along the division. */
  lemma Cross(q: int, r: int, a: int, x: int, t: int, s: int, b: int, y: int)
    requires q == a * r + x && t == b * s + y
    ensures s * q == a * (r * s) + x * s && r * t == b * (r * s) + y * r
  {
    assert s * (a * r + x) == a * (r * s) + x * s;
    assert r * (b * s + y) == b * (r * s) + y * r;
  }

  /** At an odd position a larger fraction encodes higher; at an even one, lower. */
  lemma {:induction false} RestOrder(q: nat, r: nat, t: nat, s: nat, i: nat)
    requires r < q && s < t && Countable(q) && Countable(t) && FractionLess(q, r, t, s)
    ensures i % 2 == 1 ==> Below(Rest(q, r, i), Rest(t, s, i))
    ensures i % 2 == 0 ==> Below(Rest(t, s, i), Rest(q, r, i))
    decreases r + s
  {
    hide Below, UintBytes, Complement, TermBytes, Countable, FractionLess, Quot, Rem;
    FractionPositive(q, r, t, s);
    if r == 0 {
      StopOrder(q, t, s, i);
    } else {
      TermFits(t, s);
      CountableBelow(s, t);
      TermFits(q, r);
      CountableBelow(r, q);
      StepReverses(q, r, t, s);
      var x, y := Rem(q, r), Rem(t, s);
      if Quot(q, r) == Quot(t, s) {
        RestOrder(s, y, r, x, i + 1);
      }
      JoinOrder(Quot(q, r), Rest(r, x, i + 1), Quot(t, s), Rest(s, y, i + 1), i);
    }
  }

  lemma FractionPositive(q: nat, r: nat, t: nat, s: nat)
    requires r < q && s < t && FractionLess(q, r, t, s)
    ensures s > 0
  {
    if s == 0 { ScalarTimes(0, r, t); }
  }

  /** One term and what follows it: the term decides, or the rest does. */
  lemma JoinOrder(m: nat, x: bytes, n: nat, y: bytes, i: nat)
    requires n <= m && Countable(m) && Countable(n)
    requires m == n ==> if i % 2 == 1 then Below(x, y) else Below(y, x)
    ensures i % 2 == 1 ==> Below([CONTINUE] + TermBytes(m, i) + x, [CONTINUE] + TermBytes(n, i) + y)
    ensures i % 2 == 0 ==> Below([CONTINUE] + TermBytes(n, i) + y, [CONTINUE] + TermBytes(m, i) + x)
  {
    hide Below, UintBytes, Complement, TermBytes;
    var a, b := TermBytes(m, i), TermBytes(n, i);
    if m == n {
      BelowPrepend([CONTINUE] + a, x, y);
      BelowPrepend([CONTINUE] + a, y, x);
    } else {
      TermOrder(n, m, i);
      if i % 2 == 1 {
        Follow([CONTINUE], a, x, b, y);
      } else {
        Follow([CONTINUE], b, y, a, x);
      }
    }
  }

  /** Stopping at a position falls on the right side of going on. */
  lemma StopOrder(q: nat, t: nat, s: nat, i: nat)
    requires q > 0 && 0 < s < t && Countable(q) && Countable(t)
    ensures i % 2 == 1 ==> Below(Rest(q, 0, i), Rest(t, s, i))
    ensures i % 2 == 0 ==> Below(Rest(t, s, i), Rest(q, 0, i))
  {
    hide UintBytes, Complement;
    TermFits(t, s);
  }

  /** At an odd position a larger term sorts lower. */
  lemma TermOrder(n: nat, m: nat, i: nat)
    requires n < m && Countable(n) && Countable(m)
    ensures if i % 2 == 1 then Below(TermBytes(m, i), TermBytes(n, i)) else Below(TermBytes(n, i), TermBytes(m, i))
  {
    UintOrder(n, m);
    ComplementReverses(UintBytes(n), UintBytes(m));
  }

  lemma Follow(p: bytes, a: bytes, x: bytes, b: bytes, y: bytes)
    requires Below(a, b)
    ensures Below(p + a + x, p + b + y)
  {
    BelowPrepend(p, a, b);
    BelowAppend(p + a, p + b, x, y);
  }

  /** Equal fractions leave the same terms. */
  lemma {:induction false} RestSame(q: nat, r: nat, t: nat, s: nat, i: nat)
    requires r < q && s < t && Countable(q) && Countable(t) && r * t == s * q
    ensures Rest(q, r, i) == Rest(t, s, i)
    decreases r
  {
    if r == 0 {
      assert s == 0 by { if s > 0 { ScalarTimes(1, s, q); } }
    } else {
      assert s > 0 by { if s == 0 { ScalarTimes(1, r, t); } }
      TermFits(q, r);
      TermFits(t, s);
      CountableBelow(r, q);
      CountableBelow(s, t);
      StepSame(q, r, t, s);
      RestSame(r, Rem(q, r), s, Rem(t, s), i + 1);
    }
  }

  lemma StepSame(q: nat, r: nat, t: nat, s: nat)
    requires r > 0 && s > 0 && r * t == s * q
    ensures Quot(q, r) == Quot(t, s) && Rem(q, r) * s == Rem(t, s) * r
  {
    FloorParts(q, r);
    FloorParts(t, s);
    var a, b := q / r, t / s;
    Cross(q, r, a, q % r, t, s, b, t % s);
    var k := r * s;
    assert k > 0 by { ScalarTimes(1, r, s); }
    assert 0 <= (q % r) * s < k by { Strict(q % r, r, s); }
    assert 0 <= (t % s) * r < k by { Strict(t % s, s, r); }
    SameFloor(a, (q % r) * s, b, (t % s) * r, k);
  }

  lemma Strict(a: nat, b: nat, k: nat)
    requires a < b && k > 0
    ensures a * k < b * k
  {}

  lemma SameFloor(a: int, x: int, b: int, y: int, k: int)
    requires k > 0 && 0 <= x < k && 0 <= y < k && a * k + x == b * k + y
    ensures a == b && x == y
  {
    if a < b {
      ScalarTimes(a + 1, b, k);
      Spread(a + 2, k);
      Spread(a + 1, k);
    } else if b < a {
      ScalarTimes(b + 1, a, k);
      Spread(b + 2, k);
      Spread(b + 1, k);
    }
  }

  /** Rationals encode in value order: `p/q < r/s` puts the one encoding below the
      other, and equal values, reduced or not, encode alike. */
  lemma RationalOrder(p: int, q: nat, r: int, s: nat)
    requires q > 0 && s > 0 && Countable(Abs(p)) && Countable(q) && Countable(Abs(r)) && Countable(s)
    ensures p * s < r * q ==> Below(RationalBytes(p, q), RationalBytes(r, s))
    ensures p * s == r * q ==> RationalBytes(p, q) == RationalBytes(r, s)
  {
    FloorParts(p, q);
    FloorParts(r, s);
    FirstFits(p, q);
    FirstFits(r, s);
    var a, b := p / q, r / s;
    Cross(p, q, a, p % q, r, s, b, r % s);
    assert (p % q) * s < q * s by { Strict(p % q, q, s); }
    assert (r % s) * q < q * s by { Strict(r % s, s, q); }
    if p * s < r * q {
      if a == b {
        RestOrder(q, p % q, s, r % s, 1);
        BelowPrepend(SignedIntBytes(a), Rest(q, p % q, 1), Rest(s, r % s, 1));
      } else {
        FloorsOrdered(a, (p % q) * s, b, (r % s) * q, q * s);
        SignedIntOrder(a, b);
        BelowAppend(SignedIntBytes(a), SignedIntBytes(b), Rest(q, p % q, 1), Rest(s, r % s, 1));
      }
    } else if p * s == r * q {
      SameFloor(a, (p % q) * s, b, (r % s) * q, q * s);
      RestSame(q, p % q, s, r % s, 1);
    }
  }

  lemma FloorsOrdered(a: int, x: int, b: int, y: int, k: int)
    requires k > 0 && 0 <= x < k && 0 <= y < k && a * k + x < b * k + y && a != b
    ensures a < b
  {
    if b < a {
      ScalarTimes(b + 1, a, k);
      Spread(b + 2, k);
      Spread(b + 1, k);
    }
  }
}
