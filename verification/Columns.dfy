/** Composite index keys: one scalar key per column, each in its own direction. */
module Columns {
  import opened Bytes
  import opened Scalars
  import opened ScalarOrder
  import opened Ordered
  import opened KeyBuffers

  /** The keys of the values, zipped with the columns' directions; either may be the shorter. */
  function ColumnKey(values: seq<Scalar>, descending: seq<bool>): bytes {
    if values == [] || descending == [] then []
    else Key(values[0], descending[0]) + ColumnKey(values[1..], descending[1..])
  }

  method EncodeColumns(values: seq<Scalar>, descending: seq<bool>) returns (cols: bytes)
    ensures cols == ColumnKey(values, descending)
  {
    hide Key;
    var out := new KeyBuffer();
    var i := 0;
    assert values[0..] == values && descending[0..] == descending;
    while i < |values| && i < |descending|
      invariant 0 <= i <= |values| && i <= |descending|
      invariant out.data + ColumnKey(values[i..], descending[i..]) == ColumnKey(values, descending)
    {
      assert values[i..][0] == values[i] && values[i..][1..] == values[i + 1..];
      assert descending[i..][0] == descending[i] && descending[i..][1..] == descending[i + 1..];
      out.PutScalar(values[i], descending[i]);
      i := i + 1;
    }
    cols := out.data;
  }

  /** Column by column, under each column's direction; the first difference decides. */
  predicate TupleLess(a: seq<Scalar>, b: seq<Scalar>, descending: seq<bool>)
    requires |a| == |b| <= |descending|
  {
    a != [] &&
    if ScalarSame(a[0], b[0]) then TupleLess(a[1..], b[1..], descending[1..])
    else if descending[0] then ScalarLess(b[0], a[0])
    else ScalarLess(a[0], b[0])
  }

  predicate TupleSame(a: seq<Scalar>, b: seq<Scalar>)
    requires |a| == |b|
  {
    forall i | 0 <= i < |a| :: ScalarSame(a[i], b[i])
  }

  /** Composite keys compare byte by byte as the tuples compare column by column, and
      agree exactly when every column has the same value. */
  lemma {:induction false} ColumnOrder(a: seq<Scalar>, b: seq<Scalar>, descending: seq<bool>)
    requires |a| == |b| <= |descending|
    ensures Below(ColumnKey(a, descending), ColumnKey(b, descending)) <==> TupleLess(a, b, descending)
    ensures ColumnKey(a, descending) == ColumnKey(b, descending) <==> TupleSame(a, b)
    ensures ColumnKey(a, descending) <= ColumnKey(b, descending) ==> TupleSame(a, b)
    decreases |a|
  {
    hide Key, ScalarSame, ScalarLess, Below;
    if a != [] {
      var x, y := Key(a[0], descending[0]), Key(b[0], descending[0]);
      var u, v := ColumnKey(a[1..], descending[1..]), ColumnKey(b[1..], descending[1..]);
      ColumnOrder(a[1..], b[1..], descending[1..]);
      KeyOrder(a[0], b[0], descending[0]);
      KeyOrder(b[0], a[0], descending[0]);
      TupleTail(a, b);
      if x == y {
        BelowPrepend(x, u, v);
        PrefixPrepend(x, u, v);
      } else {
        ScalarTotal(a[0], b[0]);
        Decided(x, y, u, v);
      }
    } else {
      NotBelowEmpty();
    }
  }

  lemma NotBelowEmpty()
    ensures !Below([], [])
  {}

  lemma TupleTail(a: seq<Scalar>, b: seq<Scalar>)
    requires |a| == |b| && a != []
    ensures TupleSame(a, b) <==> ScalarSame(a[0], b[0]) && TupleSame(a[1..], b[1..])
  {
    hide ScalarSame;
    if ScalarSame(a[0], b[0]) && TupleSame(a[1..], b[1..]) {
      forall i | 0 <= i < |a| ensures ScalarSame(a[i], b[i]) {
        if i > 0 { assert a[i] == a[1..][i - 1] && b[i] == b[1..][i - 1]; }
      }
    }
  }

  lemma PrefixPrepend(x: bytes, u: bytes, v: bytes)
    ensures x + u <= x + v <==> u <= v
    ensures x + u == x + v <==> u == v
  {
    if x + u <= x + v {
      assert u == (x + u)[|x|..] == (x + v)[|x|..|x + u|] == v[..|u|];
    }
    if x + u == x + v {
      assert u == (x + u)[|x|..] == (x + v)[|x|..] == v;
    }
  }

  /** Keys that differ decide for whatever follows them. */
  lemma Decided(x: bytes, y: bytes, u: bytes, v: bytes)
    requires Below(x, y) || Below(y, x)
    ensures Below(x + u, y + v) <==> Below(x, y)
    ensures x + u != y + v && !(x + u <= y + v)
  {
    hide Below;
    if Below(x, y) {
      BelowAppend(x, y, u, v);
      BelowAsymmetric(x + u, y + v);
    } else {
      BelowAppend(y, x, v, u);
      BelowAsymmetric(y, x);
      BelowAsymmetric(y + v, x + u);
    }
  }

  lemma {:induction false} ColumnSplit(a: seq<Scalar>, n: nat, descending: seq<bool>)
    requires n <= |a| <= |descending|
    ensures ColumnKey(a, descending) == ColumnKey(a[..n], descending) + ColumnKey(a[n..], descending[n..])
    decreases n
  {
    hide Key;
    if n == 0 {
      assert a[0..] == a && descending[0..] == descending;
    } else {
      ColumnSplit(a[1..], n - 1, descending[1..]);
      assert a[..n][1..] == a[1..][..n - 1] && a[1..][n - 1..] == a[n..] && descending[1..][n - 1..] == descending[n..];
    }
  }

  /** A queried prefix of columns is a byte prefix of a full key exactly when those
      columns have the queried values; otherwise the two keys differ before the prefix ends. */
  lemma PrefixMatches(p: seq<Scalar>, t: seq<Scalar>, descending: seq<bool>)
    requires |p| <= |t| <= |descending|
    ensures ColumnKey(p, descending) <= ColumnKey(t, descending) <==> TupleSame(p, t[..|p|])
    ensures !TupleSame(p, t[..|p|]) ==>
              (Below(ColumnKey(p, descending), ColumnKey(t, descending)) <==> TupleLess(p, t[..|p|], descending))
              && (Below(ColumnKey(t, descending), ColumnKey(p, descending)) <==> TupleLess(t[..|p|], p, descending))
              && (Below(ColumnKey(p, descending), ColumnKey(t, descending)) || Below(ColumnKey(t, descending), ColumnKey(p, descending)))
  {
    hide Below, ColumnKey, TupleLess, TupleSame;
    var head := t[..|p|];
    var x, y, rest := ColumnKey(p, descending), ColumnKey(head, descending), ColumnKey(t[|p|..], descending[|p|..]);
    ColumnSplit(t, |p|, descending);
    ColumnOrder(p, head, descending);
    ColumnOrder(head, p, descending);
    SameBack(p, head);
    assert x + [] == x;
    if TupleSame(p, head) {
      assert x == y;
    } else {
      TupleTotal(p, head, descending);
      Decided(x, y, [], rest);
      Decided(y, x, rest, []);
    }
  }

  lemma SameBack(a: seq<Scalar>, b: seq<Scalar>)
    requires |a| == |b|
    ensures TupleSame(a, b) <==> TupleSame(b, a)
  {
    hide ValueSame;
    forall i | 0 <= i < |a| ensures ScalarSame(a[i], b[i]) <==> ScalarSame(b[i], a[i]) {
      SameSymmetric(a[i], b[i]);
    }
  }

  lemma SameSymmetric(a: Scalar, b: Scalar)
    ensures ScalarSame(a, b) <==> ScalarSame(b, a)
  {
    hide Key, ScalarSame;
    KeyOrder(a, b, false);
    KeyOrder(b, a, false);
  }

  lemma {:induction false} TupleTotal(a: seq<Scalar>, b: seq<Scalar>, descending: seq<bool>)
    requires |a| == |b| <= |descending|
    ensures TupleLess(a, b, descending) || TupleSame(a, b) || TupleLess(b, a, descending)
    decreases |a|
  {
    hide ScalarSame, ScalarLess;
    if a != [] {
      TupleTail(a, b);
      ScalarTotal(a[0], b[0]);
      SameSymmetric(a[0], b[0]);
      TupleTotal(a[1..], b[1..], descending[1..]);
    }
  }
}
