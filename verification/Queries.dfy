/** Index queries, and their agreement with a brute-force search of the tree. */
module Queries {
  import opened Basics
  import opened Bytes
  import opened Scalars
  import opened ScalarOrder
  import opened Skeys
  import opened Paths
  import opened Trees
  import opened Backends
  import opened Walks
  import opened Repacking
  import opened Patterns
  import opened Columns
  import opened TableKeys
  import opened Maintenance
  import opened Scans
  import opened IndexSets
  import opened TableRuns
  import opened IndexedTables

  // ----- brute force ------------------------------------------------------------

  /** The entity at `q` answers the query: selected, at or under the root, and its
      leading columns have the queried values. */
  predicate Answers(t: Option<Tree>, e: IndexEntry, prefix: seq<Scalar>, root: Path, q: Path)
    requires |prefix| <= |e.def.columns|
  {
    Selected(t, e.def.pattern, q) && root <= q && TupleSame(prefix, ColumnsOf(e.def.columns, AtDoc(t, q))[..|prefix|])
  }

  /** Index order: by columns, each in its direction, then by entity key. */
  predicate Precedes(t: Option<Tree>, e: IndexEntry, p: Path, q: Path)
    requires e.def.Valid()
  {
    var a, b := ColumnsOf(e.def.columns, AtDoc(t, p)), ColumnsOf(e.def.columns, AtDoc(t, q));
    TupleLess(a, b, e.def.descending) || (TupleSame(a, b) && KeyThere(ROOT, t, p) < KeyThere(ROOT, t, q))
  }

  /** `keys` are the entities at `places`: all that answer, once each, in index order or reversed. */
  ghost predicate IsResult(t: Option<Tree>, e: IndexEntry, prefix: seq<Scalar>, root: Path, reverse: bool,
                           keys: seq<Skey>, places: seq<Path>)
    requires e.def.Valid() && |prefix| <= |e.def.columns|
  {
    && |keys| == |places|
    && (forall i | 0 <= i < |places| :: keys[i] == KeyThere(ROOT, t, places[i]))
    && (forall q :: q in places <==> Answers(t, e, prefix, root, q))
    && (forall i, j | 0 <= i < j < |places| :: if reverse then Precedes(t, e, places[j], places[i]) else Precedes(t, e, places[i], places[j]))
  }

  /** `k` is the key of an entity that answers. */
  ghost predicate AnswerKey(t: Option<Tree>, e: IndexEntry, prefix: seq<Scalar>, root: Path, k: Skey)
    requires |prefix| <= |e.def.columns|
  {
    exists q :: Answers(t, e, prefix, root, q) && k == KeyThere(ROOT, t, q)
  }

  lemma AnswerKeys(t: Option<Tree>, e: IndexEntry, prefix: seq<Scalar>, root: Path, reverse: bool, keys: seq<Skey>, places: seq<Path>)
    requires e.def.Valid() && |prefix| <= |e.def.columns| && IsResult(t, e, prefix, root, reverse, keys, places)
    ensures forall k :: k in keys <==> AnswerKey(t, e, prefix, root, k)
  {
    hide Answers, KeyThere, Precedes;
    forall k | k in keys ensures AnswerKey(t, e, prefix, root, k) {
      var i :| 0 <= i < |keys| && keys[i] == k;
      assert places[i] in places;
    }
    forall k | AnswerKey(t, e, prefix, root, k) ensures k in keys {
      var q :| Answers(t, e, prefix, root, q) && k == KeyThere(ROOT, t, q);
      assert q in places;
      var i :| 0 <= i < |places| && places[i] == q;
      assert keys[i] == k;
    }
  }

  // ----- what the entries mean --------------------------------------------------

  /** Encoded prefixes never run out in the middle of a stored key. */
  lemma PrefixDecides(data: Entries, t: Option<Tree>, e: IndexEntry, prefix: seq<Scalar>)
    requires Exact(data, t, e) && e.def.Valid() && |prefix| <= |e.def.columns|
    ensures Decisive(data.Keys, e.id, ColumnKey(prefix, e.def.descending))
  {
    hide Selected, ColumnKey, Below, TupleLess, TupleSame, ColumnsOf;
    forall k | k in data.Keys && OfIndex(k, e.id)
      ensures ColumnKey(prefix, e.def.descending) <= k.cols || Below(ColumnKey(prefix, e.def.descending), k.cols)
              || Below(k.cols, ColumnKey(prefix, e.def.descending))
    {
      assert Implied(t, e, k);
      var q :| Selected(t, e.def.pattern, q) && k == KeyFor(t, e, q);
      PrefixMatches(prefix, ColumnsOf(e.def.columns, AtDoc(t, q)), e.def.descending);
    }
  }

  lemma MatchMeans(t: Option<Tree>, e: IndexEntry, prefix: seq<Scalar>, q: Path)
    requires e.def.Valid() && |prefix| <= |e.def.columns|
    ensures Matching(KeyFor(t, e, q), e.id, ColumnKey(prefix, e.def.descending))
       <==> TupleSame(prefix, ColumnsOf(e.def.columns, AtDoc(t, q))[..|prefix|])
    ensures EntityOf(KeyFor(t, e, q), StoredValue(t, e, q)) == Some(KeyThere(ROOT, t, q))
  {
    hide ColumnKey, Below, TupleLess, TupleSame, ColumnsOf;
    PrefixMatches(prefix, ColumnsOf(e.def.columns, AtDoc(t, q)), e.def.descending);
  }

  /** Byte order of two entries is index order of their entities. */
  lemma EntryOrder(t: Option<Tree>, e: IndexEntry, p: Path, q: Path)
    requires e.def.Valid() && KeyFor(t, e, p).Valid() && KeyFor(t, e, q).Valid() && KeyLess(KeyFor(t, e, p), KeyFor(t, e, q))
    ensures Precedes(t, e, p, q)
  {
    hide ColumnKey, Below, TupleLess, TupleSame, ColumnsOf, LexLess, KeyLess, TableKey.Valid;
    var a, b := ColumnsOf(e.def.columns, AtDoc(t, p)), ColumnsOf(e.def.columns, AtDoc(t, q));
    var x, y := ColumnKey(a, e.def.descending), ColumnKey(b, e.def.descending);
    ColumnOrder(a, b, e.def.descending);
    ColumnOrder(b, a, e.def.descending);
    FieldOrder(KeyFor(t, e, p), KeyFor(t, e, q));
    LessUnlessPrefix(x, y);
    SameBack(a, b);
    NotLessSelf(x);
  }

  lemma NotLessSelf(x: bytes)
    ensures !LexLess(x, x)
  {
    if LexLess(x, x) { LexAsymmetric(x, x); }
  }

  // ----- the query --------------------------------------------------------------

  /** The places behind the entries a scan found. */
  ghost predicate Behind(t: Option<Tree>, e: IndexEntry, hits: seq<TableKey>, places: seq<Path>) {
    && |hits| == |places|
    && forall i | 0 <= i < |hits| :: Selected(t, e.def.pattern, places[i]) && hits[i] == KeyFor(t, e, places[i])
  }

  lemma {:induction false} PlacesBehind(data: Entries, t: Option<Tree>, e: IndexEntry, hits: seq<TableKey>) returns (places: seq<Path>)
    requires Exact(data, t, e) && forall k | k in hits :: k in data && OfIndex(k, e.id)
    ensures Behind(t, e, hits, places)
    decreases |hits|
  {
    hide Selected, KeyFor, StoredValue;
    if hits == [] {
      places := [];
    } else {
      var n := |hits| - 1;
      assert hits[n] in hits && forall k | k in hits[..n] :: k in hits;
      var front := PlacesBehind(data, t, e, hits[..n]);
      assert Implied(t, e, hits[n]);
      var q :| Selected(t, e.def.pattern, q) && hits[n] == KeyFor(t, e, q);
      places := front + [q];
      forall i | 0 <= i < |hits| ensures Selected(t, e.def.pattern, places[i]) && hits[i] == KeyFor(t, e, places[i]) {
        if i < n { assert hits[..n][i] == hits[i] && places[i] == front[i]; }
      }
    }
  }

  /** `hits` are the index's entries that start with the encoded prefix, in key order. */
  ghost predicate IsScan(data: Entries, e: IndexEntry, prefix: seq<Scalar>, hits: seq<TableKey>, keys: seq<Skey>) {
    && Ascending(hits) && (forall k :: k in hits <==> k in data && Matching(k, e.id, ColumnKey(prefix, e.def.descending)))
    && |keys| == |hits| && forall i | 0 <= i < |hits| :: hits[i] in data && EntityOf(hits[i], data[hits[i]]) == Some(keys[i])
  }

  lemma ScanKeys(data: Entries, t: Option<Tree>, e: IndexEntry, prefix: seq<Scalar>, hits: seq<TableKey>, keys: seq<Skey>,
                 places: seq<Path>, i: nat)
    requires Exact(data, t, e) && e.def.Valid() && |prefix| <= |e.def.columns|
    requires IsScan(data, e, prefix, hits, keys) && Behind(t, e, hits, places) && i < |places|
    ensures keys[i] == KeyThere(ROOT, t, places[i]) && Answers(t, e, prefix, [], places[i])
  {
    hide Selected, KeyFor, StoredValue, Matching, EntityOf, TupleSame, ColumnsOf, Ascending, KeyThere, Implied;
    MatchMeans(t, e, prefix, places[i]);
    assert hits[i] in hits;
    assert data[hits[i]] == StoredValue(t, e, places[i]);
  }

  lemma ScanFinds(data: Entries, t: Option<Tree>, e: IndexEntry, prefix: seq<Scalar>, hits: seq<TableKey>, keys: seq<Skey>,
                  places: seq<Path>, q: Path)
    requires Rooted(t) && Exact(data, t, e) && e.def.Valid() && |prefix| <= |e.def.columns|
    requires IsScan(data, e, prefix, hits, keys) && Behind(t, e, hits, places) && Answers(t, e, prefix, [], q)
    ensures q in places
  {
    hide Selected, KeyFor, StoredValue, Matching, EntityOf, TupleSame, ColumnsOf, Ascending, Implied, Rooted;
    MatchMeans(t, e, prefix, q);
    assert KeyFor(t, e, q) in hits;
    var i :| 0 <= i < |hits| && hits[i] == KeyFor(t, e, q);
    EntriesApart(data, t, e, places[i], q);
  }

  /** The scan's entities are the brute-force answer over the whole table. */
  lemma ScanIsResult(data: Entries, t: Option<Tree>, e: IndexEntry, prefix: seq<Scalar>, hits: seq<TableKey>,
                     keys: seq<Skey>, places: seq<Path>)
    requires Rooted(t) && Exact(data, t, e) && e.def.Valid() && |prefix| <= |e.def.columns|
    requires IsScan(data, e, prefix, hits, keys) && Behind(t, e, hits, places)
    ensures IsResult(t, e, prefix, [], false, keys, places)
  {
    hide Selected, KeyFor, KeyLess, TableKey.Valid, Matching, EntityOf, Answers, Precedes, Rooted, Exact, KeyThere;
    forall i | 0 <= i < |places| ensures keys[i] == KeyThere(ROOT, t, places[i]) && Answers(t, e, prefix, [], places[i]) {
      ScanKeys(data, t, e, prefix, hits, keys, places, i);
    }
    forall q | Answers(t, e, prefix, [], q) ensures q in places {
      ScanFinds(data, t, e, prefix, hits, keys, places, q);
    }
    forall i, j | 0 <= i < j < |places| ensures Precedes(t, e, places[i], places[j]) {
      assert hits[i] in hits && hits[j] in hits;
      EntryOrder(t, e, places[i], places[j]);
    }
  }

  /** Keeps the entities a walk of the root's line reaches. */
  method Retain(keys: seq<Skey>, under: seq<Skey>, ghost places: seq<Path>) returns (kept: seq<Skey>, ghost left: seq<Path>, ghost src: seq<nat>)
    requires |keys| == |places|
    ensures |kept| == |left| == |src|
    ensures forall i | 0 <= i < |src| :: src[i] < |keys| && kept[i] == keys[src[i]] && left[i] == places[src[i]] && kept[i] in under
    ensures forall i, j | 0 <= i < j < |src| :: src[i] < src[j]
    ensures forall i | 0 <= i < |keys| && keys[i] in under :: i in src
  {
    kept, left, src := [], [], [];
    for i := 0 to |keys|
      invariant |kept| == |left| == |src|
      invariant forall j | 0 <= j < |src| :: src[j] < i && kept[j] == keys[src[j]] && left[j] == places[src[j]] && kept[j] in under
      invariant forall j, k | 0 <= j < k < |src| :: src[j] < src[k]
      invariant forall j | 0 <= j < i && keys[j] in under :: j in src
    {
      if keys[i] in under {
        kept, left, src := kept + [keys[i]], left + [places[i]], src + [i];
      }
    }
  }

  lemma RetainIsResult(t: Option<Tree>, e: IndexEntry, prefix: seq<Scalar>, root: Path, keys: seq<Skey>, places: seq<Path>,
                       under: seq<Skey>, paths: seq<Path>, kept: seq<Skey>, left: seq<Path>, src: seq<nat>)
    requires Rooted(t) && e.def.Valid() && |prefix| <= |e.def.columns| && |root| <= |e.def.pattern|
    requires IsResult(t, e, prefix, [], false, keys, places) && Lists(e.def.pattern, root, ROOT, t, under, paths)
    requires |kept| == |left| == |src|
    requires forall i | 0 <= i < |src| :: src[i] < |keys| && kept[i] == keys[src[i]] && left[i] == places[src[i]] && kept[i] in under
    requires forall i, j | 0 <= i < j < |src| :: src[i] < src[j]
    requires forall i | 0 <= i < |keys| && keys[i] in under :: i in src
    ensures IsResult(t, e, prefix, root, false, kept, left)
  {
    hide Selected, Precedes, TupleSame, Rooted, ColumnsOf, Hits;
    forall q | q in places ensures KeyThere(ROOT, t, q) in under <==> root <= q {
      assert Answers(t, e, prefix, [], q);
      UnderRoot(t, e, root, under, paths, q);
    }
    forall q ensures q in left <==> Answers(t, e, prefix, root, q) {
      if q in left {
        var i :| 0 <= i < |left| && left[i] == q;
        assert q == places[src[i]] && q in places && KeyThere(ROOT, t, q) in under;
      }
      if Answers(t, e, prefix, root, q) {
        assert [] <= q && q in places;
        var i :| 0 <= i < |places| && places[i] == q;
        assert i in src;
        var j :| 0 <= j < |src| && src[j] == i;
        assert left[j] == q;
      }
    }
  }

  lemma UnderRoot(t: Option<Tree>, e: IndexEntry, root: Path, under: seq<Skey>, paths: seq<Path>, q: Path)
    requires Rooted(t) && Selected(t, e.def.pattern, q) && |root| <= |e.def.pattern|
    requires Lists(e.def.pattern, root, ROOT, t, under, paths)
    ensures KeyThere(ROOT, t, q) in under <==> root <= q
  {
    hide Rooted, KeyThere, Selected, Hits;
    SelectedHits(t, e.def.pattern, root, q);
    SameDepth(t, e.def.pattern, q);
    if root <= q {
      var i :| 0 <= i < |paths| && paths[i] == q;
    }
    if KeyThere(ROOT, t, q) in under {
      var i :| 0 <= i < |under| && under[i] == KeyThere(ROOT, t, q);
      SelectedHits(t, e.def.pattern, root, paths[i]);
      SelectedThere(t, e.def.pattern, q);
      SelectedThere(t, e.def.pattern, paths[i]);
      RootedPlaces(t, q, paths[i]);
      ShorterPrefix(root, q);
    }
  }

  lemma SameDepth(t: Option<Tree>, pat: Pattern, q: Path)
    requires Selected(t, pat, q)
    ensures |q| == |pat|
  {}

  lemma SelectedThere(t: Option<Tree>, pat: Pattern, q: Path)
    requires Selected(t, pat, q)
    ensures q == [] || AtDoc(t, q).Some?
  {}

  lemma RootedPlaces(t: Option<Tree>, p: Path, q: Path)
    requires Rooted(t) && (p == [] || AtDoc(t, p).Some?) && (q == [] || AtDoc(t, q).Some?)
    requires KeyThere(ROOT, t, p) == KeyThere(ROOT, t, q)
    ensures p == q
  {
    hide Distinct;
    PlacesApart(t, p, q);
  }

  lemma ShorterPrefix(root: Path, q: Path)
    requires Comparable(root, q) && |root| <= |q|
    ensures root <= q
  {
    if q <= root { assert q == root[..|q|] == root; }
  }

  function Reversed<T>(s: seq<T>): (r: seq<T>)
    ensures |r| == |s| && forall i | 0 <= i < |s| :: r[i] == s[|s| - 1 - i]
  {
    seq(|s|, i requires 0 <= i < |s| => s[|s| - 1 - i])
  }

  lemma ReversedIsResult(t: Option<Tree>, e: IndexEntry, prefix: seq<Scalar>, root: Path, keys: seq<Skey>, places: seq<Path>)
    requires e.def.Valid() && |prefix| <= |e.def.columns| && IsResult(t, e, prefix, root, false, keys, places)
    ensures IsResult(t, e, prefix, root, true, Reversed(keys), Reversed(places))
  {
    hide Answers, Precedes, KeyThere;
    var back := Reversed(places);
    forall q ensures q in back <==> q in places {
      if q in places {
        var i :| 0 <= i < |places| && places[i] == q;
        assert back[|places| - 1 - i] == q;
      }
    }
  }

  /** Nothing can lie at or under a root deeper than the pattern reaches. */
  lemma TooDeep(t: Option<Tree>, e: IndexEntry, prefix: seq<Scalar>, root: Path, reverse: bool)
    requires e.def.Valid() && |prefix| <= |e.def.columns| && |e.def.pattern| < |root|
    ensures IsResult(t, e, prefix, root, reverse, [], [])
  {
    hide TupleSame, ColumnsOf;
  }

  /** Runs a query: a prefix scan, narrowed to the root's line, reversed on demand. It
      returns exactly the entities a search of the whole tree would, in index order. */
  method ExecuteQuery(it: IndexedTable, name: string, prefix: seq<Scalar>, reverse: bool, root: Path)
    returns (r: Result<seq<Skey>>, ghost at: nat, ghost places: seq<Path>)
    requires it.Valid() && it.table.issued <= Pow256(16)
    ensures r == Err(IndexNotFound) <==> forall i | 0 <= i < |it.indexes| :: it.indexes[i].def.name != name
    ensures r.Err? ==> r.error == IndexNotFound || r.error == IndexArity
    ensures r != Err(IndexNotFound) ==> at < |it.indexes| && it.indexes[at].def.name == name && it.indexes[at].def.Valid()
    ensures r == Err(IndexArity) ==> |prefix| > |it.indexes[at].def.columns|
    ensures r.Ok? ==> |prefix| <= |it.indexes[at].def.columns|
    ensures r.Ok? ==> IsResult(it.table.tree, it.indexes[at], prefix, root, reverse, r.value, places)
    ensures r.Ok? ==> forall k :: k in r.value <==> AnswerKey(it.table.tree, it.indexes[at], prefix, root, k)
  {
    hide AnswerKey, Rep, Distinct, Keys, Exact, Owned, IsResult, KeysFit, Pow256, Sound;
    at, places := 0, [];
    var found := it.FindIndex(name);
    if found.None? {
      return Err(IndexNotFound), at, places;
    }
    at := found.value;
    var e := it.indexes[found.value];
    if |prefix| > |e.def.columns| {
      return Err(IndexArity), at, places;
    }
    var entities: seq<Skey>;
    entities, places := Scan(it, found.value, prefix);
    if root != [] {
      if |e.def.pattern| < |root| {
        TooDeep(it.table.tree, e, prefix, root, reverse);
        AnswerKeys(it.table.tree, e, prefix, root, reverse, [], []);
        return Ok([]), at, [];
      }
      entities, places := Narrow(it, found.value, prefix, root, entities, places);
    }
    if reverse {
      ReversedIsResult(it.table.tree, e, prefix, root, entities, places);
      places := Reversed(places);
      entities := Reversed(entities);
    }
    AnswerKeys(it.table.tree, e, prefix, root, reverse, entities, places);
    r := Ok(entities);
  }

  method Scan(it: IndexedTable, at: nat, prefix: seq<Scalar>) returns (entities: seq<Skey>, ghost places: seq<Path>)
    requires it.Valid() && it.table.issued <= Pow256(16)
    requires at < |it.indexes| && |prefix| <= |it.indexes[at].def.columns|
    ensures IsResult(it.table.tree, it.indexes[at], prefix, [], false, entities, places)
  {
    hide Rep, Distinct, Keys, Inv, IsResult, KeysFit, Decisive, ColumnKey, FormOf, Exact, Rooted, EntityOf, Ascending, Behind, Pow256, TupleSame;
    var e := it.indexes[at];
    ScanReady(it.View(), at, prefix);
    var cols := EncodeColumns(prefix, e.def.descending);
    var scanned: Result<seq<Skey>>;
    ghost var hits: seq<TableKey>;
    scanned, hits := ScanPrefix(it.data, e.id, cols, e.def.unique);
    entities := scanned.value;
    places := PlacesBehind(it.data, it.table.tree, e, hits);
    ScanIsResult(it.data, it.table.tree, e, prefix, hits, entities, places);
  }

  /** A table is ready to be scanned for any prefix of an index's columns. */
  lemma ScanReady(s: Table, at: nat, prefix: seq<Scalar>)
    requires Inv(s) && s.next <= Pow256(16) && at < |s.indexes| && |prefix| <= |s.indexes[at].def.columns|
    ensures var e := s.indexes[at];
            && KeysFit(s.data.Keys) && FormOf(s.data.Keys, e.id, e.def.unique) && e.id < Pow256(4)
            && e.def.Valid() && Exact(s.data, s.tree, e) && Rooted(s.tree)
            && Decisive(s.data.Keys, e.id, ColumnKey(prefix, e.def.descending))
            && forall k | k in s.data && OfIndex(k, e.id) :: EntityOf(k, s.data[k]).Some?
  {
    hide Distinct, Keys, Exact, Owned, KeysFit, Decisive, ColumnKey, FormOf, Pow256;
    var e := s.indexes[at];
    EntriesFit(s);
    DropForm(s, at);
    PrefixDecides(s.data, s.tree, e, prefix);
    EntitiesKnown(s.data, s.tree, e);
  }

  lemma EntitiesKnown(data: Entries, t: Option<Tree>, e: IndexEntry)
    requires Exact(data, t, e)
    ensures forall k | k in data && OfIndex(k, e.id) :: EntityOf(k, data[k]).Some?
  {
    hide Selected, ColumnKey, ColumnsOf;
    forall k | k in data && OfIndex(k, e.id) ensures EntityOf(k, data[k]).Some? {
      assert Implied(t, e, k);
    }
  }

  method Narrow(it: IndexedTable, at: nat, prefix: seq<Scalar>, root: Path, entities: seq<Skey>, ghost places: seq<Path>)
    returns (kept: seq<Skey>, ghost left: seq<Path>)
    requires it.Valid() && at < |it.indexes| && |prefix| <= |it.indexes[at].def.columns| && |root| <= |it.indexes[at].def.pattern|
    requires IsResult(it.table.tree, it.indexes[at], prefix, [], false, entities, places)
    ensures IsResult(it.table.tree, it.indexes[at], prefix, root, false, kept, left)
  {
    hide Rep, Distinct, Keys, Exact, Owned, Lists;
    var e := it.indexes[at];
    TableHeld(it.table.store, it.table.tree);
    var under: seq<Skey>;
    ghost var paths: seq<Path>;
    under, paths := AffectedEntities(it.table.store, e.def.pattern, root, it.table.tree);
    ghost var src: seq<nat>;
    kept, left, src := Retain(entities, under, places);
    RetainIsResult(it.table.tree, e, prefix, root, entities, places, under, paths, kept, left, src);
  }
}
