/** The key of a finite decimal: the exponent of its leading digit, then its digits. */
module Decimals {
  import opened Bytes
  import opened Scalars
  import opened ScalarCodec
  import opened OrderedRuns
  import opened ScalarOrder

  predicate AreDigits(ds: seq<nat>) { forall i | 0 <= i < |ds| :: ds[i] <= 9 }

  /** Trailing zeros dropped, down to one digit. */
  function Stripped(ds: seq<nat>): (r: seq<nat>)
    ensures r <= ds
    ensures ds != [] && ds[0] != 0 ==> r != [] && r[0] != 0 && r[|r| - 1] != 0
  {
    if |ds| > 1 && ds[|ds| - 1] == 0 then Stripped(ds[..|ds| - 1]) else ds
  }

  /** The power of ten of the leading digit. */
  function Lead(d: Decimal): int
    requires d.Finite?
  {
    |d.digits| - 1 + d.exponent
  }

  lemma LeadFits(d: Decimal)
    requires d.Finite? && d.Valid()
    ensures InSignedRange(Lead(d), 2)
  {
    assert Pow256(2) == 0x1_0000;
  }

  function DecimalBody(d: Decimal): bytes
    requires d.Finite? && d.Valid()
  {
    LeadFits(d);
    Biased(Lead(d), 2) + OrderedBytes(DecimalBytes(Stripped(d.digits)))
  }

  /** `ds` as the leading digits of an `n`-digit number. */
  function Front(ds: seq<nat>, n: nat): nat {
    if n == 0 then 0
    else if ds == [] then 0
    else ds[0] * Pow10(n - 1) + Front(ds[1..], n - 1)
  }

  lemma {:induction false} FrontBelow(ds: seq<nat>, n: nat)
    requires AreDigits(ds)
    ensures Front(ds, n) < Pow10(n)
  {
    if n > 0 && ds != [] {
      FrontBelow(ds[1..], n - 1);
      ScaleDigit(ds[0], 9, Pow10(n - 1));
    }
  }

  lemma ScaleDigit(a: nat, b: nat, k: nat)
    requires a <= b
    ensures a * k <= b * k
  {}

  lemma {:induction false} FrontPositive(ds: seq<nat>, n: nat)
    requires 0 < |ds| <= n && ds[|ds| - 1] != 0
    ensures Front(ds, n) > 0
  {
    if |ds| == 1 {
      ScaleDigit(1, ds[0], Pow10(n - 1));
    } else {
      FrontPositive(ds[1..], n - 1);
    }
  }

  lemma {:induction false} Pow10Monotone(a: nat, b: nat)
    requires a <= b
    ensures Pow10(a) <= Pow10(b)
  {
    if a < b { Pow10Monotone(a, b - 1); }
  }

  lemma {:induction false} PowSplit(a: nat, b: nat)
    ensures Pow10(a + b) == Pow10(a) * Pow10(b)
  {
    if a > 0 {
      PowSplit(a - 1, b);
      assert Pow10(a + b) == 10 * Pow10(a - 1 + b);
      Associate(10, Pow10(a - 1), Pow10(b));
    }
  }

  lemma Associate(a: nat, b: nat, c: nat)
    ensures a * (b * c) == (a * b) * c
  {}

  /** Appending a digit fills the next place. */
  lemma {:induction false} FrontAppend(ds: seq<nat>, d: nat, n: nat)
    requires |ds| < n
    ensures Front(ds + [d], n) == Front(ds, n) + d * Pow10(n - |ds| - 1)
  {
    if ds == [] {
      assert [d][1..] == [];
      assert [] + [d] == [d];
    } else {
      FrontAppend(ds[1..], d, n - 1);
      assert (ds + [d])[1..] == ds[1..] + [d];
    }
  }

  /** The number the digits spell, shifted to fill `n` places. */
  lemma {:induction false} FrontIsValue(ds: seq<nat>, n: nat)
    requires |ds| <= n
    ensures Front(ds, n) == DigitsValue(ds) * Pow10(n - |ds|)
  {
    if ds != [] {
      var k := |ds| - 1;
      FrontIsValue(ds[..k], n);
      FrontAppend(ds[..k], ds[k], n);
      assert ds == ds[..k] + [ds[k]];
      assert Pow10(n - k) == 10 * Pow10(n - k - 1);
      Collect(DigitsValue(ds[..k]), ds[k], Pow10(n - k - 1));
    }
  }

  lemma Collect(v: nat, d: nat, k: nat)
    ensures v * (10 * k) + d * k == (10 * v + d) * k
  {}

  lemma {:induction false} FrontStripped(ds: seq<nat>, n: nat)
    requires |ds| <= n
    ensures Front(Stripped(ds), n) == Front(ds, n)
  {
    if |ds| > 1 && ds[|ds| - 1] == 0 {
      var k := |ds| - 1;
      FrontStripped(ds[..k], n);
      FrontAppend(ds[..k], 0, n);
      assert ds == ds[..k] + [0];
    }
  }

  lemma DigitDecides(a: nat, x: nat, b: nat, y: nat, k: nat)
    requires a < b && x < k
    ensures a * k + x < b * k + y
  {
    ScaleDigit(a + 1, b, k);
  }

  /** Digit strings without trailing zeros compare, as fractions, the way their bytes do. */
  lemma {:induction false} FrontOrder(a: seq<nat>, b: seq<nat>, n: nat)
    requires AreDigits(a) && AreDigits(b) && |a| <= n && |b| <= n
    requires (a != [] ==> a[|a| - 1] != 0) && (b != [] ==> b[|b| - 1] != 0)
    requires LexLess(DecimalBytes(a), DecimalBytes(b))
    ensures Front(a, n) < Front(b, n)
  {
    hide Pow10, DecimalBytes, LexLess;
    if a == [] {
      SomeBytes(b);
      FrontPositive(b, n);
    } else {
      LexStep(a, b);
      if a[0] < b[0] {
        FrontBelow(a[1..], n - 1);
        DigitDecides(a[0], Front(a[1..], n - 1), b[0], Front(b[1..], n - 1), Pow10(n - 1));
      } else {
        FrontOrder(a[1..], b[1..], n - 1);
      }
    }
  }

  lemma SomeBytes(b: seq<nat>)
    requires AreDigits(b) && LexLess(DecimalBytes([]), DecimalBytes(b))
    ensures b != []
  {}

  lemma LexStep(a: seq<nat>, b: seq<nat>)
    requires AreDigits(a) && AreDigits(b) && a != [] && LexLess(DecimalBytes(a), DecimalBytes(b))
    ensures b != [] && a[0] <= b[0] && (a[0] == b[0] ==> LexLess(DecimalBytes(a[1..]), DecimalBytes(b[1..])))
  {
    TailBytes(a);
    if b != [] { TailBytes(b); }
  }

  lemma TailBytes(a: seq<nat>)
    requires AreDigits(a) && a != []
    ensures DecimalBytes(a)[1..] == DecimalBytes(a[1..]) && DecimalBytes(a)[0] == a[0]
  {}

  lemma DecimalFront(d: Decimal)
    requires d.Finite? && d.Valid()
    ensures DecimalValue(d) == Front(Stripped(d.digits), Lead(d) + 129)
    ensures Lead(d) + 129 >= |d.digits|
    ensures Pow10(Lead(d) + 128) <= DecimalValue(d) < Pow10(Lead(d) + 129)
  {
    var n := Lead(d) + 129;
    FrontIsValue(d.digits, n);
    FrontStripped(d.digits, n);
    FrontBelow(d.digits, n);
    ScaleDigit(1, d.digits[0], Pow10(n - 1));
  }

  /** The key orders positive decimals by value, however many trailing zeros they carry. */
  lemma DecimalOrder(x: Decimal, y: Decimal)
    requires x.Finite? && x.Valid() && y.Finite? && y.Valid()
    ensures DecimalValue(x) < DecimalValue(y) ==> Below(DecimalBody(x), DecimalBody(y))
    ensures DecimalValue(x) == DecimalValue(y) ==> DecimalBody(x) == DecimalBody(y)
  {
    hide Front, OrderedBytes, DecimalBytes, Pow10, Below, Biased, DecimalValue;
    DecimalFront(x);
    DecimalFront(y);
    LeadFits(x);
    LeadFits(y);
    var a, b := Stripped(x.digits), Stripped(y.digits);
    var u, v := OrderedBytes(DecimalBytes(a)), OrderedBytes(DecimalBytes(b));
    if Lead(x) < Lead(y) {
      Pow10Monotone(Lead(x) + 129, Lead(y) + 128);
      BiasedOrder(Lead(x), Lead(y), 2);
      BelowAppend(Biased(Lead(x), 2), Biased(Lead(y), 2), u, v);
    } else if Lead(y) < Lead(x) {
      Pow10Monotone(Lead(y) + 129, Lead(x) + 128);
    } else {
      SameLead(a, b, Lead(x) + 129);
      BelowPrepend(Biased(Lead(x), 2), u, v);
    }
  }

  lemma SameLead(a: seq<nat>, b: seq<nat>, n: nat)
    requires AreDigits(a) && AreDigits(b) && 0 < |a| <= n && 0 < |b| <= n && a[|a| - 1] != 0 && b[|b| - 1] != 0
    ensures Front(a, n) < Front(b, n) ==> Below(OrderedBytes(DecimalBytes(a)), OrderedBytes(DecimalBytes(b)))
    ensures Front(a, n) == Front(b, n) ==> DecimalBytes(a) == DecimalBytes(b)
  {
    LexTotal(DecimalBytes(a), DecimalBytes(b));
    if LexLess(DecimalBytes(a), DecimalBytes(b)) {
      FrontOrder(a, b, n);
      OrderedBytesOrder(DecimalBytes(a), DecimalBytes(b));
    } else if LexLess(DecimalBytes(b), DecimalBytes(a)) {
      FrontOrder(b, a, n);
    } else {
      assert a == b by {
        assert |DecimalBytes(a)| == |DecimalBytes(b)|;
        forall i | 0 <= i < |a| ensures a[i] == b[i] { assert DecimalBytes(a)[i] == DecimalBytes(b)[i]; }
      }
    }
  }
}
