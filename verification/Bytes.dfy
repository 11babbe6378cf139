/** Byte strings, their lexicographic order, and big-endian integers.

    `Below(a, b)` is the part of the order that survives concatenation: `a` and
    `b` first differ at a position both have, and `a` is smaller there. Two byte
    strings are ordered by `Below` one way or the other exactly when neither is
    a prefix of the other. */
module Bytes {

  type byte = x: int | 0 <= x < 256

  type bytes = seq<byte>

  /** `memcmp` order, a proper prefix first. */
  predicate LexLess(a: bytes, b: bytes) {
    b != [] && (a == [] || a[0] < b[0] || (a[0] == b[0] && LexLess(a[1..], b[1..])))
  }

  predicate Below(a: bytes, b: bytes) {
    a != [] && b != [] && (a[0] < b[0] || (a[0] == b[0] && Below(a[1..], b[1..])))
  }

  lemma {:induction false} BelowIsLess(a: bytes, b: bytes)
    requires Below(a, b)
    ensures LexLess(a, b)
  {
    if a[0] == b[0] {
      BelowIsLess(a[1..], b[1..]);
    }
  }

  lemma {:induction false} LexTotal(a: bytes, b: bytes)
    ensures LexLess(a, b) || a == b || LexLess(b, a)
  {
    if a != [] && b != [] && a[0] == b[0] {
      LexTotal(a[1..], b[1..]);
      assert a == [a[0]] + a[1..] && b == [b[0]] + b[1..];
    }
  }

  lemma {:induction false} LexAsymmetric(a: bytes, b: bytes)
    requires LexLess(a, b)
    ensures !LexLess(b, a) && a != b
  {
    if a != [] && a[0] == b[0] {
      LexAsymmetric(a[1..], b[1..]);
    }
  }

  lemma {:induction false} LexTransitive(a: bytes, b: bytes, c: bytes)
    requires LexLess(a, b) && LexLess(b, c)
    ensures LexLess(a, c)
  {
    if a != [] && a[0] == b[0] == c[0] {
      LexTransitive(a[1..], b[1..], c[1..]);
    }
  }

  /** Whatever follows, a `Below` pair stays ordered. */
  lemma {:induction false} BelowAppend(a: bytes, b: bytes, x: bytes, y: bytes)
    requires Below(a, b)
    ensures Below(a + x, b + y)
  {
    if a[0] == b[0] {
      BelowAppend(a[1..], b[1..], x, y);
      assert (a + x)[1..] == a[1..] + x && (b + y)[1..] == b[1..] + y;
    }
  }

  /** A shared front does not change the order of what follows. */
  lemma {:induction false} BelowPrepend(p: bytes, a: bytes, b: bytes)
    ensures Below(p + a, p + b) <==> Below(a, b)
  {
    if p == [] {
      assert p + a == a && p + b == b;
    } else {
      BelowPrepend(p[1..], a, b);
      assert (p + a)[1..] == p[1..] + a && (p + b)[1..] == p[1..] + b;
    }
  }

  lemma {:induction false} LexPrepend(p: bytes, a: bytes, b: bytes)
    ensures LexLess(p + a, p + b) <==> LexLess(a, b)
  {
    if p == [] {
      assert p + a == a && p + b == b;
    } else {
      LexPrepend(p[1..], a, b);
      assert (p + a)[1..] == p[1..] + a && (p + b)[1..] == p[1..] + b;
    }
  }

  lemma {:induction false} BelowAsymmetric(a: bytes, b: bytes)
    requires Below(a, b)
    ensures !Below(b, a) && !(a <= b) && !(b <= a)
  {
    if a[0] == b[0] {
      BelowAsymmetric(a[1..], b[1..]);
    }
  }

  /** Bitwise complement of every byte. */
  function Complement(a: bytes): (r: bytes)
    ensures |r| == |a|
    ensures forall i | 0 <= i < |a| :: r[i] == 255 - a[i]
  {
    seq(|a|, i requires 0 <= i < |a| => 255 - a[i])
  }

  /** Complementing reverses the order of a pair in which neither is a prefix. */
  lemma {:induction false} ComplementReverses(a: bytes, b: bytes)
    requires Below(a, b)
    ensures Below(Complement(b), Complement(a))
  {
    if a[0] == b[0] {
      ComplementReverses(a[1..], b[1..]);
      assert Complement(a)[1..] == Complement(a[1..]) && Complement(b)[1..] == Complement(b[1..]);
    }
  }

  /** Lexicographic order and `Below` agree when neither string is a prefix. */
  lemma {:induction false} LessUnlessPrefix(a: bytes, b: bytes)
    ensures LexLess(a, b) <==> Below(a, b) || (a <= b && a != b)
  {
    if a != [] && b != [] && a[0] == b[0] {
      LessUnlessPrefix(a[1..], b[1..]);
      assert a == [a[0]] + a[1..] && b == [b[0]] + b[1..];
    }
  }

  // ----- big-endian integers ------------------------------------------------

  function Pow256(w: nat): (r: nat)
    ensures r >= 1
  {
    if w == 0 then 1 else 256 * Pow256(w - 1)
  }

  /** `n` as exactly `w` bytes, most significant first. */
  function BigEndian(n: nat, w: nat): (r: bytes)
    requires n < Pow256(w)
    ensures |r| == w
  {
    if w == 0 then [] else BigEndian(n / 256, w - 1) + [n % 256]
  }

  function FromBigEndian(b: bytes): (n: nat)
    ensures n < Pow256(|b|)
  {
    if b == [] then 0 else 256 * FromBigEndian(b[..|b| - 1]) + b[|b| - 1]
  }

  lemma {:induction false} BigEndianRoundTrip(n: nat, w: nat)
    requires n < Pow256(w)
    ensures FromBigEndian(BigEndian(n, w)) == n
  {
    if w != 0 {
      BigEndianRoundTrip(n / 256, w - 1);
      assert BigEndian(n, w)[..w - 1] == BigEndian(n / 256, w - 1);
    }
  }

  /** Fixed-width big-endian bytes compare as the numbers do. */
  lemma {:induction false} BigEndianOrder(n: nat, m: nat, w: nat)
    requires n < m < Pow256(w)
    ensures Below(BigEndian(n, w), BigEndian(m, w))
  {
    var hn, hm := n / 256, m / 256;
    if hn < hm {
      BigEndianOrder(hn, hm, w - 1);
      BelowAppend(BigEndian(hn, w - 1), BigEndian(hm, w - 1), [n % 256], [m % 256]);
    } else {
      BelowPrepend(BigEndian(hn, w - 1), [n % 256], [m % 256]);
    }
  }

  /** The minimal big-endian magnitude: no leading zero byte, empty for zero. */
  function Magnitude(n: nat): bytes {
    if n == 0 then [] else Magnitude(n / 256) + [n % 256]
  }

  lemma {:induction false} MagnitudeBounds(n: nat)
    ensures n < Pow256(|Magnitude(n)|)
    ensures n > 0 ==> |Magnitude(n)| > 0 && Pow256(|Magnitude(n)| - 1) <= n && Magnitude(n)[0] > 0
  {
    if n > 0 {
      MagnitudeBounds(n / 256);
      if n / 256 == 0 {
        assert Magnitude(n / 256) == [];
      }
    }
  }

  lemma {:induction false} MagnitudeIsBigEndian(n: nat)
    ensures n < Pow256(|Magnitude(n)|) && Magnitude(n) == BigEndian(n, |Magnitude(n)|)
  {
    MagnitudeBounds(n);
    if n > 0 {
      MagnitudeIsBigEndian(n / 256);
    }
  }

  lemma {:induction false} PowMonotone(v: nat, w: nat)
    requires v <= w
    ensures Pow256(v) <= Pow256(w)
  {
    if v < w {
      PowMonotone(v, w - 1);
    }
  }

  /** A larger number never has a shorter magnitude. */
  lemma {:induction false} MagnitudeLength(n: nat, m: nat)
    requires n <= m
    ensures |Magnitude(n)| <= |Magnitude(m)|
  {
    MagnitudeBounds(n);
    MagnitudeBounds(m);
    if |Magnitude(n)| > |Magnitude(m)| {
      PowMonotone(|Magnitude(m)|, |Magnitude(n)| - 1);
    }
  }

  // ----- lexicographic order on names ---------------------------------------

  /** Byte order of UTF-8 text, which is code-point order. */
  predicate NameLess(a: string, b: string) {
    b != "" && (a == "" || a[0] < b[0] || (a[0] == b[0] && NameLess(a[1..], b[1..])))
  }

  lemma {:induction false} NameTotal(a: string, b: string)
    ensures NameLess(a, b) || a == b || NameLess(b, a)
  {
    if a != "" && b != "" && a[0] == b[0] {
      NameTotal(a[1..], b[1..]);
      assert a == [a[0]] + a[1..] && b == [b[0]] + b[1..];
    }
  }

  lemma {:induction false} NameTransitive(a: string, b: string, c: string)
    requires NameLess(a, b) && NameLess(b, c)
    ensures NameLess(a, c)
  {
    if a != "" && a[0] == b[0] == c[0] {
      NameTransitive(a[1..], b[1..], c[1..]);
    }
  }

  lemma {:induction false} NameIrreflexive(a: string)
    ensures !NameLess(a, a)
  {
    if a != "" {
      NameIrreflexive(a[1..]);
    }
  }
}
