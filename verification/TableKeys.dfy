/** The keys of the engine table and their byte order. */
module TableKeys {
  import opened Basics
  import opened Bytes
  import opened Skeys

  const DATA: byte := 0
  const CHILD: byte := 1
  const INDEX_DUP: byte := 2
  const INDEX_UNIQUE: byte := 3

  datatype TableKey =
    | KData(key: Skey)
    | KChild(parent: Skey, name: bytes)
    | KIndex(id: nat, cols: bytes, entity: Option<Skey>)
  {
    /** Keys are sixteen bytes, index ids four. */
    predicate Valid() {
      match this
      case KData(k) => k < Pow256(16)
      case KChild(p, _) => p < Pow256(16)
      case KIndex(id, _, e) => id < Pow256(4) && (e.Some? ==> e.value < Pow256(16))
    }
  }

  function Tag(k: TableKey): byte {
    match k
    case KData(_) => DATA
    case KChild(_, _) => CHILD
    case KIndex(_, _, e) => if e.Some? then INDEX_DUP else INDEX_UNIQUE
  }

  function Encode(k: TableKey): bytes
    requires k.Valid()
  {
    match k
    case KData(key) => [DATA] + BigEndian(key, 16)
    case KChild(p, name) => [CHILD] + BigEndian(p, 16) + name
    case KIndex(id, cols, Some(e)) => [INDEX_DUP] + BigEndian(id, 4) + cols + BigEndian(e, 16)
    case KIndex(id, cols, None) => [INDEX_UNIQUE] + BigEndian(id, 4) + cols
  }

  function Decode(b: bytes): Result<TableKey> {
    if b == [] then Err(Corrupt)
    else
      var rest := b[1..];
      if b[0] == DATA then
        if |rest| == 16 then Ok(KData(FromBigEndian(rest))) else Err(Corrupt)
      else if b[0] == CHILD then
        if |rest| < 16 then Err(Corrupt) else Ok(KChild(FromBigEndian(rest[..16]), rest[16..]))
      else if b[0] == INDEX_DUP then
        if |rest| < 4 || |rest| - 4 < 16 then Err(Corrupt)
        else Ok(KIndex(FromBigEndian(rest[..4]), rest[4..|rest| - 16], Some(FromBigEndian(rest[|rest| - 16..]))))
      else if b[0] == INDEX_UNIQUE then
        if |rest| < 4 then Err(Corrupt) else Ok(KIndex(FromBigEndian(rest[..4]), rest[4..], None))
      else Err(Corrupt)
  }

  /** Reading back an encoded key gives the key. */
  lemma DecodeEncode(k: TableKey)
    requires k.Valid()
    ensures Decode(Encode(k)) == Ok(k)
  {
    hide BigEndian, FromBigEndian, Pow256;
    var b := Encode(k);
    var rest := b[1..];
    match k
    case KData(key) =>
      BigEndianRoundTrip(key, 16);
      assert rest == BigEndian(key, 16);
    case KChild(p, name) =>
      BigEndianRoundTrip(p, 16);
      assert rest[..16] == BigEndian(p, 16) && rest[16..] == name;
    case KIndex(id, cols, e) =>
      BigEndianRoundTrip(id, 4);
      assert rest[..4] == BigEndian(id, 4);
      if e.Some? {
        BigEndianRoundTrip(e.value, 16);
        assert rest[4..|rest| - 16] == cols && rest[|rest| - 16..] == BigEndian(e.value, 16);
      } else {
        assert rest[4..] == cols;
      }
  }

  /** Only encodings decode: what decodes is what was encoded. */
  lemma EncodeDecode(b: bytes)
    requires Decode(b).Ok?
    ensures Decode(b).value.Valid() && Encode(Decode(b).value) == b
  {
    hide BigEndian, FromBigEndian, Pow256;
    var rest := b[1..];
    assert b == [b[0]] + rest;
    if b[0] == DATA {
      FromFixed(rest);
    } else if b[0] == CHILD {
      FromFixed(rest[..16]);
      assert rest == rest[..16] + rest[16..];
    } else if b[0] == INDEX_DUP {
      EncodeDecodeDup(b);
    } else {
      FromFixed(rest[..4]);
      assert rest == rest[..4] + rest[4..];
    }
  }

  lemma EncodeDecodeDup(b: bytes)
    requires b != [] && b[0] == INDEX_DUP && Decode(b).Ok?
    ensures Decode(b).value.Valid() && Encode(Decode(b).value) == b
  {
    hide BigEndian, FromBigEndian, Pow256;
    var rest := b[1..];
    FromFixed(rest[..4]);
    FromFixed(rest[|rest| - 16..]);
    assert b == [b[0]] + rest && rest == rest[..4] + rest[4..|rest| - 16] + rest[|rest| - 16..];
  }

  lemma {:induction false} FromFixed(b: bytes)
    ensures FromBigEndian(b) < Pow256(|b|) && BigEndian(FromBigEndian(b), |b|) == b
  {
    if b != [] {
      FromFixed(b[..|b| - 1]);
      assert b == b[..|b| - 1] + [b[|b| - 1]];
    }
  }

  // ----- order ------------------------------------------------------------------

  predicate KeyLess(a: TableKey, b: TableKey)
    requires a.Valid() && b.Valid()
  {
    LexLess(Encode(a), Encode(b))
  }

  /** Nodes come first, then links, then the entries of indexes that are not unique, then
      those of unique ones. */
  lemma BlockOrder(a: TableKey, b: TableKey)
    requires a.Valid() && b.Valid()
    ensures a.KData? && b.KChild? ==> KeyLess(a, b)
    ensures (a.KData? || a.KChild?) && b.KIndex? ==> KeyLess(a, b)
    ensures a.KIndex? && a.entity.Some? && b.KIndex? && b.entity.None? ==> KeyLess(a, b)
  {
    hide BigEndian;
    if Tag(a) < Tag(b) { assert Encode(a)[0] == Tag(a) && Encode(b)[0] == Tag(b); }
  }

  /** Field by field: the tag, then the fields in turn, byte strings as bytes. */
  predicate FieldLess(a: TableKey, b: TableKey) {
    Tag(a) < Tag(b) ||
    match (a, b)
    case (KData(x), KData(y)) => x < y
    case (KChild(p, m), KChild(q, n)) => p < q || (p == q && LexLess(m, n))
    case (KIndex(i, c, Some(e)), KIndex(j, d, Some(f))) => i < j || (i == j && (LexLess(c, d) || (c == d && e < f)))
    case (KIndex(i, c, None), KIndex(j, d, None)) => i < j || (i == j && LexLess(c, d))
    case _ => false
  }

  /** Two entries of one index that is not unique, one column run properly extending the
      other. No two full runs of one index do that. */
  predicate Nested(a: TableKey, b: TableKey) {
    && a.KIndex? && b.KIndex? && a.id == b.id && a.entity.Some? && b.entity.Some?
    && (a.cols < b.cols || b.cols < a.cols)
  }

  /** In the encoding of nested entries the shorter run's entity meets the bytes the
      longer run goes on with, and can lose to them. */
  predicate Crossed(a: TableKey, b: TableKey)
    requires a.Valid() && b.Valid()
  {
    Nested(a, b) &&
    if a.cols < b.cols then LexLess(b.cols[|a.cols|..] + BigEndian(b.entity.value, 16), BigEndian(a.entity.value, 16))
    else LexLess(a.cols[|b.cols|..] + BigEndian(a.entity.value, 16), BigEndian(b.entity.value, 16))
  }

  lemma FixedLex(n: nat, m: nat, w: nat, x: bytes, y: bytes)
    requires n < Pow256(w) && m < Pow256(w)
    ensures n < m ==> LexLess(BigEndian(n, w) + x, BigEndian(m, w) + y)
    ensures n == m ==> (LexLess(BigEndian(n, w) + x, BigEndian(m, w) + y) <==> LexLess(x, y))
  {
    if n < m {
      BigEndianOrder(n, m, w);
      BelowAppend(BigEndian(n, w), BigEndian(m, w), x, y);
      BelowIsLess(BigEndian(n, w) + x, BigEndian(m, w) + y);
    } else if n == m {
      LexPrepend(BigEndian(n, w), x, y);
    }
  }

  lemma TagLex(s: byte, x: bytes, t: byte, y: bytes)
    ensures LexLess([s] + x, [t] + y) <==> s < t || (s == t && LexLess(x, y))
  {
    assert ([s] + x)[1..] == x && ([t] + y)[1..] == y;
  }

  /** A key without its tag. */
  function Tail(k: TableKey): bytes
    requires k.Valid()
  {
    match k
    case KData(key) => BigEndian(key, 16)
    case KChild(p, name) => BigEndian(p, 16) + name
    case KIndex(id, cols, Some(e)) => BigEndian(id, 4) + (cols + BigEndian(e, 16))
    case KIndex(id, cols, None) => BigEndian(id, 4) + cols
  }

  lemma TagThenTail(k: TableKey)
    requires k.Valid()
    ensures Encode(k) == [Tag(k)] + Tail(k)
  {
    hide BigEndian, Pow256;
  }

  lemma RunThenEntity(c: bytes, e: nat, d: bytes, f: nat)
    requires e < Pow256(16) && f < Pow256(16) && !(c < d) && !(d < c)
    ensures LexLess(c, d) || (c == d && e < f) ==> LexLess(c + BigEndian(e, 16), d + BigEndian(f, 16))
  {
    hide BigEndian, Pow256, LexLess;
    if LexLess(c, d) {
      LessUnlessPrefix(c, d);
      BelowAppend(c, d, BigEndian(e, 16), BigEndian(f, 16));
      BelowIsLess(c + BigEndian(e, 16), d + BigEndian(f, 16));
    } else if c == d && e < f {
      BigEndianOrder(e, f, 16);
      BelowIsLess(BigEndian(e, 16), BigEndian(f, 16));
      LexPrepend(c, BigEndian(e, 16), BigEndian(f, 16));
    }
  }

  lemma FieldLessImplies(a: TableKey, b: TableKey)
    requires a.Valid() && b.Valid() && !Nested(a, b) && FieldLess(a, b)
    ensures KeyLess(a, b)
  {
    hide BigEndian, Pow256, LexLess;
    TagThenTail(a);
    TagThenTail(b);
    TagLex(Tag(a), Tail(a), Tag(b), Tail(b));
    if Tag(a) == Tag(b) {
      match (a, b)
      case (KData(x), KData(y)) =>
        FixedLex(x, y, 16, [], []);
        assert BigEndian(x, 16) + [] == BigEndian(x, 16) && BigEndian(y, 16) + [] == BigEndian(y, 16);
      case (KChild(p, m), KChild(q, n)) => FixedLex(p, q, 16, m, n);
      case (KIndex(i, c, Some(e)), KIndex(j, d, Some(f))) =>
        FixedLex(i, j, 4, c + BigEndian(e, 16), d + BigEndian(f, 16));
        if i == j { RunThenEntity(c, e, d, f); }
      case (KIndex(i, c, None), KIndex(j, d, None)) => FixedLex(i, j, 4, c, d);
      case _ =>
    }
  }

  /** The field-wise order and the order of the encodings agree exactly on the pairs
      that do not cross. */
  lemma FieldOrder(a: TableKey, b: TableKey)
    requires a.Valid() && b.Valid()
    ensures (FieldLess(a, b) <==> KeyLess(a, b)) <==> !Crossed(a, b)
  {
    hide FieldLess, Encode, LexLess, BigEndian, Pow256, TableKey.Valid;
    if Nested(a, b) {
      if a.cols < b.cols { NestedOrder(a, b); } else { NestedOrder(b, a); }
    } else {
      if FieldLess(a, b) { FieldLessImplies(a, b); }
      if KeyLess(a, b) {
        LexAsymmetric(Encode(a), Encode(b));
        FieldTotal(a, b);
        if FieldLess(b, a) { FieldLessImplies(b, a); }
      }
    }
  }

  lemma NestedOrder(a: TableKey, b: TableKey)
    requires a.Valid() && b.Valid() && Nested(a, b) && a.cols < b.cols
    ensures FieldLess(a, b) && !FieldLess(b, a)
    ensures KeyLess(a, b) <==> !Crossed(a, b)
    ensures KeyLess(b, a) <==> Crossed(a, b)
    ensures Crossed(a, b) <==> Crossed(b, a)
  {
    hide LexLess, BigEndian, Pow256, Encode;
    var rest := b.cols[|a.cols|..];
    var x, y := BigEndian(a.entity.value, 16), rest + BigEndian(b.entity.value, 16);
    TagThenTail(a);
    TagThenTail(b);
    assert b.cols + BigEndian(b.entity.value, 16) == a.cols + y;
    TagLex(Tag(a), Tail(a), Tag(b), Tail(b));
    TagLex(Tag(b), Tail(b), Tag(a), Tail(a));
    LexPrepend(BigEndian(a.id, 4), a.cols + x, a.cols + y);
    LexPrepend(BigEndian(a.id, 4), a.cols + y, a.cols + x);
    LexPrepend(a.cols, x, y);
    LexPrepend(a.cols, y, x);
    LexTotal(x, y);
    if LexLess(x, y) { LexAsymmetric(x, y); } else { LexAsymmetric(y, x); }
    PrefixLess(a.cols, b.cols);
  }

  lemma PrefixLess(c: bytes, d: bytes)
    requires c < d
    ensures LexLess(c, d) && !LexLess(d, c)
  {
    assert d == c + d[|c|..] && c == c + [];
    LexPrepend(c, [], d[|c|..]);
    LexAsymmetric(c, d);
  }

  lemma FieldTotal(a: TableKey, b: TableKey)
    requires a.Valid() && b.Valid()
    ensures FieldLess(a, b) || a == b || FieldLess(b, a)
  {
    hide LexLess, TableKey.Valid;
    match (a, b)
    case (KChild(p, m), KChild(q, n)) => LexTotal(m, n);
    case (KIndex(_, c, _), KIndex(_, d, _)) => LexTotal(c, d);
    case _ =>
  }

  /** Such a pair: by fields the empty run comes first, by bytes its entity comes last. */
  lemma CrossedPair()
    ensures var a, b := KIndex(0, [], Some(Pow256(15))), KIndex(0, [0], Some(0));
            a.Valid() && b.Valid() && FieldLess(a, b) && KeyLess(b, a)
  {
    hide BigEndian, Pow256;
    TopBytes(15);
    var a, b := KIndex(0, [], Some(Pow256(15))), KIndex(0, [0], Some(0));
    var front := [INDEX_DUP] + BigEndian(0, 4);
    assert Encode(a) == front + BigEndian(Pow256(15), 16);
    assert Encode(b) == front + ([0] + BigEndian(0, 16));
    ZeroFirst(BigEndian(0, 16), BigEndian(Pow256(15), 16));
    LexPrepend(front, [0] + BigEndian(0, 16), BigEndian(Pow256(15), 16));
  }

  lemma ZeroFirst(x: bytes, y: bytes)
    requires y != [] && y[0] > 0
    ensures LexLess([0] + x, y)
  {}

  lemma {:induction false} TopBytes(w: nat)
    ensures Pow256(w) < Pow256(w + 1) && BigEndian(Pow256(w), w + 1)[0] == 1
  {
    if w > 0 {
      TopBytes(w - 1);
      assert Pow256(w) / 256 == Pow256(w - 1);
    } else {
      assert BigEndian(1, 1) == BigEndian(0, 0) + [1];
    }
  }
}
