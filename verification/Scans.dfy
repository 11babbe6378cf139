/** Ordered scans of the index block: dropping one index, and looking up a prefix. */
module Scans {
  import opened Basics
  import opened Bytes
  import opened Skeys
  import opened TableKeys
  import opened Maintenance

  /** Every key fits its sixteen bytes, every id its four. */
  predicate KeysFit(keys: set<TableKey>) { forall k | k in keys :: k.Valid() }

  predicate Ascending(keys: seq<TableKey>) {
    && (forall k | k in keys :: k.Valid())
    && forall i, j | 0 <= i < j < |keys| :: KeyLess(keys[i], keys[j])
  }

  lemma KeyTotal(a: TableKey, b: TableKey)
    requires a.Valid() && b.Valid()
    ensures KeyLess(a, b) || a == b || KeyLess(b, a)
    ensures KeyLess(a, b) ==> !KeyLess(b, a) && a != b
  {
    hide TableKeys.Encode, Decode, LexLess;
    LexTotal(Encode(a), Encode(b));
    DecodeEncode(a);
    DecodeEncode(b);
    if KeyLess(a, b) { LexAsymmetric(Encode(a), Encode(b)); }
  }

  lemma KeyTransitive(a: TableKey, b: TableKey, c: TableKey)
    requires a.Valid() && b.Valid() && c.Valid() && KeyLess(a, b) && KeyLess(b, c)
    ensures KeyLess(a, c)
  {
    hide TableKeys.Encode, LexLess;
    LexTransitive(Encode(a), Encode(b), Encode(c));
  }

  predicate IsFirstKey(a: TableKey, s: set<TableKey>)
    requires KeysFit(s)
  {
    a in s && forall x | x in s && x != a :: KeyLess(a, x)
  }

  lemma {:induction false} HasFirstKey(s: set<TableKey>)
    requires s != {} && KeysFit(s)
    ensures exists a :: IsFirstKey(a, s)
    decreases |s|
  {
    hide KeyLess, TableKey.Valid;
    var x :| x in s;
    if s == {x} {
      assert IsFirstKey(x, s);
    } else {
      var rest := s - {x};
      HasFirstKey(rest);
      var k :| IsFirstKey(k, rest);
      KeyTotal(x, k);
      if KeyLess(x, k) {
        forall y | y in s && y != x ensures KeyLess(x, y) {
          assert y in rest;
          if y != k { KeyTransitive(x, k, y); }
        }
        assert IsFirstKey(x, s);
      } else {
        assert IsFirstKey(k, s);
      }
    }
  }

  /** The table's keys from `lower` on, in byte order. */
  method RangeFrom(data: Entries, lower: TableKey) returns (keys: seq<TableKey>)
    requires KeysFit(data.Keys) && lower.Valid()
    ensures Ascending(keys)
    ensures forall k :: k in keys <==> k in data && !KeyLess(k, lower)
  {
    hide KeyLess, TableKey.Valid;
    keys := [];
    var rest := set k | k in data && !KeyLess(k, lower);
    while rest != {}
      invariant KeysFit(rest) && rest <= data.Keys && Ascending(keys)
      invariant forall k | k in rest :: !KeyLess(k, lower)
      invariant forall k :: k in keys <==> k in data && !KeyLess(k, lower) && k !in rest
      invariant forall i, k | 0 <= i < |keys| && k in rest :: KeyLess(keys[i], k)
      decreases |rest|
    {
      HasFirstKey(rest);
      var k :| k in rest && forall x | x in rest && x != k :: KeyLess(k, x);
      keys := keys + [k];
      rest := rest - {k};
    }
  }

  // ----- blocks -----------------------------------------------------------------

  /** The key of index `id` that comes before all of its entries whose columns start with `cols`. */
  function LowerBound(id: nat, cols: bytes, unique: bool): TableKey {
    KIndex(id, cols, if unique then None else Some(ROOT))
  }

  /** Everything under the id carries an entity exactly when the index is not unique. */
  predicate FormOf(keys: set<TableKey>, id: nat, unique: bool) {
    forall k | k in keys && OfIndex(k, id) :: k.entity.None? <==> unique
  }

  function BlockBytes(tag: byte, id: nat): bytes
    requires id < Pow256(4)
  {
    [tag] + BigEndian(id, 4)
  }

  /** What follows the tag and the id. */
  function RunBytes(k: TableKey): bytes
    requires k.Valid() && k.KIndex?
  {
    match k.entity case Some(e) => k.cols + BigEndian(e, 16) case None => k.cols
  }

  lemma IndexKeyParts(k: TableKey)
    requires k.Valid() && k.KIndex?
    ensures TableKeys.Encode(k) == BlockBytes(Tag(k), k.id) + RunBytes(k)
  {
    hide BigEndian, Pow256;
  }

  lemma SameBlockOrder(a: TableKey, b: TableKey)
    requires a.Valid() && b.Valid() && a.KIndex? && b.KIndex? && Tag(a) == Tag(b) && a.id == b.id
    ensures KeyLess(a, b) <==> LexLess(RunBytes(a), RunBytes(b))
  {
    hide BigEndian, Pow256, LexLess, TableKeys.Encode, RunBytes;
    IndexKeyParts(a);
    IndexKeyParts(b);
    LexPrepend(BlockBytes(Tag(a), a.id), RunBytes(a), RunBytes(b));
  }

  /** A key from the lower bound on that is not under the id lies past all of the index's. */
  lemma PastBlock(lower: TableKey, k: TableKey, e: TableKey)
    requires lower.Valid() && k.Valid() && e.Valid() && lower.KIndex? && OfIndex(e, lower.id)
    requires Tag(e) == Tag(lower) && !KeyLess(k, lower) && !OfIndex(k, lower.id)
    ensures KeyLess(e, k)
  {
    hide BigEndian, Pow256, LexLess, TableKeys.Encode;
    TagThenTail(lower);
    TagThenTail(k);
    TagThenTail(e);
    TagLex(Tag(k), Tail(k), Tag(lower), Tail(lower));
    TagLex(Tag(e), Tail(e), Tag(k), Tail(k));
    if Tag(k) == Tag(lower) {
      IndexTail(k);
      IndexTail(lower);
      IndexTail(e);
      FixedLex(k.id, lower.id, 4, RunBytes(k), RunBytes(lower));
      FixedLex(e.id, k.id, 4, RunBytes(e), RunBytes(k));
    }
  }

  lemma IndexTail(k: TableKey)
    requires k.Valid() && k.KIndex?
    ensures Tail(k) == BigEndian(k.id, 4) + RunBytes(k)
  {
    hide BigEndian, Pow256;
  }

  /** The lower bound is at or before every entry whose columns it begins. */
  lemma BoundBelow(id: nat, cols: bytes, unique: bool, k: TableKey)
    requires k.Valid() && OfIndex(k, id) && (k.entity.None? <==> unique) && cols <= k.cols
    ensures LowerBound(id, cols, unique).Valid() && !KeyLess(k, LowerBound(id, cols, unique))
  {
    hide BigEndian, LexLess, TableKeys.Encode;
    var lower := LowerBound(id, cols, unique);
    SameBlockOrder(k, lower);
    var rest := k.cols[|cols|..];
    assert k.cols == cols + rest;
    if unique {
      LexPrepend(cols, rest, []);
      assert cols + [] == cols;
      NotBelowNothing(rest);
    } else {
      RunAfter(cols, rest, k.entity.value);
    }
  }

  lemma RunAfter(cols: bytes, rest: bytes, entity: nat)
    requires entity < Pow256(16)
    ensures !LexLess(cols + rest + BigEndian(entity, 16), cols + BigEndian(ROOT, 16))
  {
    hide BigEndian, LexLess, Pow256;
    var more := rest + BigEndian(entity, 16);
    assert cols + rest + BigEndian(entity, 16) == cols + more;
    LexPrepend(cols, more, BigEndian(ROOT, 16));
    ZerosLeast(16);
    NotBelowZeros(more, BigEndian(ROOT, 16));
  }

  lemma NotBelowNothing(a: bytes)
    ensures !LexLess(a, [])
  {}

  lemma {:induction false} ZerosLeast(w: nat)
    ensures forall i | 0 <= i < w :: BigEndian(0, w)[i] == 0
  {
    if w > 0 { ZerosLeast(w - 1); }
  }

  /** Nothing of at least that length sorts before a run of zeros. */
  lemma {:induction false} NotBelowZeros(a: bytes, z: bytes)
    requires |z| <= |a| && forall i | 0 <= i < |z| :: z[i] == 0
    ensures !LexLess(a, z)
  {
    if z != [] { NotBelowZeros(a[1..], z[1..]); }
  }

  // ----- dropping an index ------------------------------------------------------

  /** Removes every entry of one index: one forward scan from its lower bound, stopped
      at the first key under another id. No other key goes. */
  method DeleteAll(data: Entries, id: nat, unique: bool) returns (after: Entries)
    requires KeysFit(data.Keys) && FormOf(data.Keys, id, unique) && id < Pow256(4)
    ensures forall k :: k in after <==> k in data && !OfIndex(k, id)
    ensures forall k | k in after :: after[k] == data[k]
  {
    hide KeyLess, TableKey.Valid;
    var lower := LowerBound(id, [], unique);
    LowerFits(id, [], unique);
    var found := RangeFrom(data, lower);
    var keys: seq<TableKey> := [];
    var i := 0;
    while i < |found| && OfIndex(found[i], id)
      invariant 0 <= i <= |found| && keys == found[..i]
      invariant forall j | 0 <= j < i :: OfIndex(found[j], id)
    {
      keys := keys + [found[i]];
      i := i + 1;
    }
    BlockScanned(data, id, unique, found, i);
    after := data;
    for j := 0 to |keys|
      invariant forall k :: k in after <==> k in data && k !in keys[..j]
      invariant forall k | k in after :: after[k] == data[k]
    {
      after := after - {keys[j]};
    }
    assert keys[..|keys|] == keys;
  }

  lemma LowerFits(id: nat, cols: bytes, unique: bool)
    requires id < Pow256(4)
    ensures LowerBound(id, cols, unique).Valid()
  {}

  lemma BlockScanned(data: Entries, id: nat, unique: bool, found: seq<TableKey>, n: nat)
    requires KeysFit(data.Keys) && FormOf(data.Keys, id, unique) && id < Pow256(4)
    requires Ascending(found) && LowerBound(id, [], unique).Valid()
    requires forall k :: k in found <==> k in data && !KeyLess(k, LowerBound(id, [], unique))
    requires n <= |found| && (forall j | 0 <= j < n :: OfIndex(found[j], id)) && (n < |found| ==> !OfIndex(found[n], id))
    ensures forall k :: k in found[..n] <==> k in data && OfIndex(k, id)
  {
    hide KeyLess, TableKey.Valid;
    var lower := LowerBound(id, [], unique);
    forall k | k in data && OfIndex(k, id) ensures k in found[..n] {
      BoundBelow(id, [], unique, k);
      var j :| 0 <= j < |found| && found[j] == k;
      if n < j {
        SameTag(lower, k);
        PastBlock(lower, found[n], k);
        KeyTotal(found[n], k);
      }
      assert found[..n][j] == k;
    }
  }

  lemma SameTag(a: TableKey, b: TableKey)
    requires a.KIndex? && b.KIndex? && (a.entity.None? <==> b.entity.None?)
    ensures Tag(a) == Tag(b)
  {}

  // ----- looking up a prefix ----------------------------------------------------

  predicate Matching(k: TableKey, id: nat, prefix: bytes) { OfIndex(k, id) && prefix <= k.cols }

  /** The entity an index entry names: in its key, or in a unique entry's value. */
  function EntityOf(k: TableKey, v: EntryValue): Option<Skey> {
    if !k.KIndex? then None
    else match (k.entity, v) case (Some(e), _) => Some(e) case (None, VKey(e)) => Some(e) case _ => None
  }

  /** Columns that do not start with the prefix differ from it before it ends. */
  predicate Decisive(keys: set<TableKey>, id: nat, prefix: bytes) {
    forall k | k in keys && OfIndex(k, id) :: prefix <= k.cols || Below(prefix, k.cols) || Below(k.cols, prefix)
  }

  /** Seeks to the first entry at or after the prefix and walks until one no longer
      matches. It finds every matching entry, in key order, and no other. */
  method ScanPrefix(data: Entries, id: nat, prefix: bytes, unique: bool)
    returns (r: Result<seq<Skey>>, ghost hits: seq<TableKey>)
    requires KeysFit(data.Keys) && FormOf(data.Keys, id, unique) && id < Pow256(4) && Decisive(data.Keys, id, prefix)
    ensures r.Ok? <==> forall k | k in data && Matching(k, id, prefix) :: EntityOf(k, data[k]).Some?
    ensures r.Ok? ==> Ascending(hits) && forall k :: k in hits <==> k in data && Matching(k, id, prefix)
    ensures r.Ok? ==> |r.value| == |hits| && forall i | 0 <= i < |hits| :: hits[i] in data && EntityOf(hits[i], data[hits[i]]) == Some(r.value[i])
  {
    hide KeyLess, TableKey.Valid, Below, KeysFit;
    var lower := LowerBound(id, prefix, unique);
    LowerFits(id, prefix, unique);
    var found := RangeFrom(data, lower);
    var entities: seq<Skey> := [];
    hits := [];
    var i := 0;
    while i < |found| && Matching(found[i], id, prefix)
      invariant 0 <= i <= |found| && |entities| == i
      invariant forall j | 0 <= j < i :: Matching(found[j], id, prefix)
      invariant forall j | 0 <= j < i :: EntityOf(found[j], data[found[j]]) == Some(entities[j])
    {
      var entity := EntityOf(found[i], data[found[i]]);
      if entity.None? {
        return Err(Corrupt), [];
      }
      entities := entities + [entity.value];
      i := i + 1;
    }
    hits := found[..i];
    PrefixScanned(data, id, prefix, unique, found, i);
    r := Ok(entities);
  }

  lemma PrefixScanned(data: Entries, id: nat, prefix: bytes, unique: bool, found: seq<TableKey>, n: nat)
    requires KeysFit(data.Keys) && FormOf(data.Keys, id, unique) && id < Pow256(4) && Decisive(data.Keys, id, prefix)
    requires Ascending(found) && LowerBound(id, prefix, unique).Valid()
    requires forall k :: k in found <==> k in data && !KeyLess(k, LowerBound(id, prefix, unique))
    requires n <= |found| && (forall j | 0 <= j < n :: Matching(found[j], id, prefix)) && (n < |found| ==> !Matching(found[n], id, prefix))
    ensures Ascending(found[..n])
    ensures forall k :: k in found[..n] <==> k in data && Matching(k, id, prefix)
  {
    hide KeyLess, TableKey.Valid, Below;
    forall k | k in data && Matching(k, id, prefix) ensures k in found[..n] {
      BoundBelow(id, prefix, unique, k);
      var j :| 0 <= j < |found| && found[j] == k;
      if n < j {
        PastMatch(data, id, prefix, unique, found[n], k);
        KeyTotal(found[n], k);
      }
      assert found[..n][j] == k;
    }
  }

  /** The first key that does not match lies past every key that does. */
  lemma PastMatch(data: Entries, id: nat, prefix: bytes, unique: bool, miss: TableKey, k: TableKey)
    requires KeysFit(data.Keys) && FormOf(data.Keys, id, unique) && Decisive(data.Keys, id, prefix)
    requires LowerBound(id, prefix, unique).Valid() && miss in data && !KeyLess(miss, LowerBound(id, prefix, unique))
    requires !Matching(miss, id, prefix) && k in data && Matching(k, id, prefix)
    ensures KeyLess(k, miss)
  {
    hide KeyLess, TableKey.Valid, Below, LexLess;
    var lower := LowerBound(id, prefix, unique);
    if !OfIndex(miss, id) {
      SameTag(lower, k);
      PastBlock(lower, miss, k);
    } else {
      SameTag(lower, miss);
      SameTag(k, miss);
      SameBlockOrder(miss, lower);
      SameBlockOrder(k, miss);
      if Below(miss.cols, prefix) {
        BelowRuns(miss, miss.cols, lower, prefix);
      } else {
        BelowPrefixed(prefix, k.cols, miss.cols);
        BelowRuns(k, k.cols, miss, miss.cols);
      }
    }
  }

  lemma BelowRuns(a: TableKey, x: bytes, b: TableKey, y: bytes)
    requires a.Valid() && b.Valid() && a.KIndex? && b.KIndex? && a.cols == x && b.cols == y && Below(x, y)
    ensures LexLess(RunBytes(a), RunBytes(b))
  {
    hide BigEndian, Pow256, Below, LexLess;
    var u := match a.entity case Some(e) => BigEndian(e, 16) case None => [];
    var v := match b.entity case Some(e) => BigEndian(e, 16) case None => [];
    BelowAppend(x, y, u, v);
    BelowIsLess(x + u, y + v);
    assert RunBytes(a) == x + u && RunBytes(b) == y + v;
  }

  lemma BelowPrefixed(p: bytes, x: bytes, y: bytes)
    requires p <= x && Below(p, y)
    ensures Below(x, y)
  {
    hide Below;
    BelowAppend(p, y, x[|p|..], []);
    assert x == p + x[|p|..] && y + [] == y;
  }
}
