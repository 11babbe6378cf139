/** The self-delimiting pieces index keys are built from, and the order they keep. */
module OrderedRuns {
  import opened Bytes
  import opened Scalars

  // ----- byte strings -----------------------------------------------------------

  /** Every zero byte escaped as `00 FF`, the whole closed by `00 01`. */
  function OrderedBytes(b: bytes): bytes {
    if b == [] then [0, 1]
    else if b[0] == 0 then [0, 255] + OrderedBytes(b[1..])
    else [b[0]] + OrderedBytes(b[1..])
  }

  /** The two-byte close sorts an ending string before any continuation, and keeps
      either encoding from being a prefix of the other. */
  lemma {:induction false} OrderedBytesOrder(a: bytes, b: bytes)
    requires LexLess(a, b)
    ensures Below(OrderedBytes(a), OrderedBytes(b))
  {
    if a != [] && a[0] == b[0] {
      OrderedBytesOrder(a[1..], b[1..]);
      var front := if a[0] == 0 then [0, 255] else [a[0]];
      assert OrderedBytes(a) == front + OrderedBytes(a[1..]);
      assert OrderedBytes(b) == front + OrderedBytes(b[1..]);
      BelowPrepend(front, OrderedBytes(a[1..]), OrderedBytes(b[1..]));
    } else if a == [] && b[0] == 0 {
      assert OrderedBytes(b) == [0, 255] + OrderedBytes(b[1..]);
      assert Below([1], [255] + OrderedBytes(b[1..]));
      BelowPrepend([0], [1], [255] + OrderedBytes(b[1..]));
      assert [0] + ([255] + OrderedBytes(b[1..])) == OrderedBytes(b) && [0] + [1] == OrderedBytes(a);
    }
  }

  /** Encoding a prefix of the input is not a prefix of the encoding: the close differs. */
  lemma {:induction false} OrderedBytesSplit(a: bytes, b: bytes)
    ensures OrderedBytes(a + b) == Escaped(a) + OrderedBytes(b)
  {
    if a == [] {
      assert a + b == b;
    } else {
      assert (a + b)[0] == a[0] && (a + b)[1..] == a[1..] + b;
      OrderedBytesSplit(a[1..], b);
    }
  }

  function Escaped(a: bytes): bytes {
    if a == [] then [] else if a[0] == 0 then [0, 255] + Escaped(a[1..]) else [a[0]] + Escaped(a[1..])
  }

  lemma {:induction false} EscapedGrows(a: bytes, x: byte)
    ensures Escaped(a + [x]) == Escaped(a) + (if x == 0 then [0, 255] else [x])
  {
    if a == [] {
      assert a + [x] == [x] && Escaped([x][1..]) == [];
    } else {
      assert (a + [x])[1..] == a[1..] + [x];
      EscapedGrows(a[1..], x);
    }
  }

  // ----- integers ---------------------------------------------------------------

  /** Fits behind a length that is itself eight bytes at most. */
  predicate Countable(n: nat) { |Magnitude(n)| < Pow256(8) }

  /** The byte length of a magnitude, itself as a minimal magnitude. */
  function LengthBytes(n: nat): (r: bytes)
    requires Countable(n)
    ensures |r| <= 8
  {
    var r := Magnitude(|Magnitude(n)|);
    MagnitudeBounds(|Magnitude(n)|);
    if |r| > 8 then
      PowMonotone(8, |r| - 1);
      r
    else r
  }

  /** Length of length, length, magnitude: a longer magnitude sorts above a shorter one. */
  function UintBytes(n: nat): bytes
    requires Countable(n)
  {
    [|LengthBytes(n)|] + LengthBytes(n) + Magnitude(n)
  }

  lemma SameLengthOrder(n: nat, m: nat)
    requires n < m && |Magnitude(n)| == |Magnitude(m)|
    ensures Below(Magnitude(n), Magnitude(m))
  {
    MagnitudeIsBigEndian(n);
    MagnitudeIsBigEndian(m);
    BigEndianOrder(n, m, |Magnitude(n)|);
  }

  lemma UintOrder(n: nat, m: nat)
    requires n < m && Countable(n) && Countable(m)
    ensures Below(UintBytes(n), UintBytes(m))
  {
    MagnitudeLength(n, m);
    var l, k := LengthBytes(n), LengthBytes(m);
    if |Magnitude(n)| == |Magnitude(m)| {
      SameLengthOrder(n, m);
      BelowPrepend([|l|] + l, Magnitude(n), Magnitude(m));
    } else {
      MagnitudeLength(|Magnitude(n)|, |Magnitude(m)|);
      if |l| == |k| {
        SameLengthOrder(|Magnitude(n)|, |Magnitude(m)|);
        BelowPrepend([|l|], l, k);
        BelowAppend([|l|] + l, [|k|] + k, Magnitude(n), Magnitude(m));
      }
    }
  }

  const NEG: byte := 0
  const ZERO: byte := 1
  const POS: byte := 2

  /** A sign class, then the magnitude, complemented below zero. */
  function SignedIntBytes(v: int): bytes
    requires Countable(Abs(v))
  {
    if v == 0 then [ZERO]
    else if v > 0 then [POS] + UintBytes(v)
    else [NEG] + Complement(UintBytes(-v))
  }

  lemma SignedIntOrder(v: int, w: int)
    requires v < w && Countable(Abs(v)) && Countable(Abs(w))
    ensures Below(SignedIntBytes(v), SignedIntBytes(w))
  {
    if v > 0 {
      UintOrder(v, w);
      BelowPrepend([POS], UintBytes(v), UintBytes(w));
    } else if w < 0 {
      UintOrder(-w, -v);
      ComplementReverses(UintBytes(-w), UintBytes(-v));
      BelowPrepend([NEG], Complement(UintBytes(-v)), Complement(UintBytes(-w)));
    }
  }

  /** A smaller magnitude fits where a larger one does. */
  lemma CountableBelow(n: nat, m: nat)
    requires n <= m && Countable(m)
    ensures Countable(n)
  {
    MagnitudeLength(n, m);
  }

  // ----- fixed-width signed integers --------------------------------------------

  /** Two's complement with its sign bit flipped: the least value becomes all zeros. */
  function Biased(v: int, w: nat): (r: bytes)
    requires w > 0 && InSignedRange(v, w)
    ensures |r| == w
  {
    BigEndian(v + Half(w), w)
  }

  lemma BiasedOrder(v: int, u: int, w: nat)
    requires w > 0 && InSignedRange(v, w) && InSignedRange(u, w) && v < u
    ensures Below(Biased(v, w), Biased(u, w))
  {
    BigEndianOrder(v + Half(w), u + Half(w), w);
  }
}
