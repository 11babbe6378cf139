/** Several indexes over one tree: the mutation bracket run for each of them, and when
    it clashes. */
module IndexSets {
  import opened Basics
  import opened Bytes
  import opened Scalars
  import opened Skeys
  import opened Paths
  import opened Values
  import opened Trees
  import opened Backends
  import opened Walks
  import opened Patterns
  import opened Columns
  import opened TableKeys
  import opened Maintenance
  import opened Scans

  // ----- several indexes at once ------------------------------------------------

  predicate DistinctIds(indexes: seq<IndexEntry>) {
    forall i, j | 0 <= i < j < |indexes| :: indexes[i].id != indexes[j].id
  }

  /** Both tables hold the same under the index. */
  ghost predicate SameOn(data: Entries, after: Entries, id: nat) {
    forall k | OfIndex(k, id) :: (k in after <==> k in data) && (k in data ==> after[k] == data[k])
  }

  ghost predicate AllDeleted(data: Entries, after: Entries, t: Option<Tree>, indexes: seq<IndexEntry>, scope: Path) {
    forall i | 0 <= i < |indexes| :: Deleted(data, after, t, indexes[i], scope)
  }

  ghost predicate AllInserted(data: Entries, after: Entries, t: Option<Tree>, indexes: seq<IndexEntry>, scope: Path) {
    forall i | 0 <= i < |indexes| :: Inserted(data, after, t, indexes[i], scope)
  }

  ghost predicate AllExact(data: Entries, t: Option<Tree>, indexes: seq<IndexEntry>) {
    forall i | 0 <= i < |indexes| :: Exact(data, t, indexes[i])
  }

  /** Every key belongs to one of the indexes. */
  ghost predicate Owned(data: Entries, indexes: seq<IndexEntry>) {
    forall k | k in data :: OwnedKey(k, indexes)
  }

  ghost predicate OwnedKey(k: TableKey, indexes: seq<IndexEntry>) {
    exists i :: 0 <= i < |indexes| && OfIndex(k, indexes[i].id)
  }

  lemma DeletedFrame(data: Entries, a: Entries, b: Entries, t: Option<Tree>, e: IndexEntry, scope: Path, other: nat)
    requires Deleted(data, a, t, e, scope) && OthersSame(a, b, other) && e.id != other
    ensures Deleted(data, b, t, e, scope)
  {
    hide Touched;
  }

  lemma DeletedFrom(data: Entries, a: Entries, b: Entries, t: Option<Tree>, e: IndexEntry, scope: Path)
    requires SameOn(data, a, e.id) && Deleted(a, b, t, e, scope)
    ensures Deleted(data, b, t, e, scope)
  {
    hide Touched;
  }

  /** Removes the affected entities' entries from each index in turn. */
  method DeleteEach(b: Backend, data: Entries, indexes: seq<IndexEntry>, scope: Path, ghost t: Option<Tree>)
    returns (after: Entries)
    requires !b.Archived? && HoldsAt(b, ROOT, t) && (t.Some? ==> Distinct(t.value)) && DistinctIds(indexes)
    ensures AllDeleted(data, after, t, indexes, scope)
    ensures Owned(data, indexes) ==> Owned(after, indexes)
  {
    hide HoldsAt, Distinct, Deleted;
    after := data;
    for i := 0 to |indexes|
      invariant forall j | 0 <= j < i :: Deleted(data, after, t, indexes[j], scope)
      invariant forall j | i <= j < |indexes| :: SameOn(data, after, indexes[j].id)
      invariant Owned(data, indexes) ==> Owned(after, indexes)
    {
      ghost var before := after;
      after := Delete(b, after, indexes[i], scope, t);
      DeletedFrom(data, before, after, t, indexes[i], scope);
      forall j | 0 <= j < i ensures Deleted(data, after, t, indexes[j], scope) {
        DeletedFrame(data, before, after, t, indexes[j], scope, indexes[i].id);
      }
      OwnedStep(before, after, indexes, i);
    }
  }

  lemma OwnedStep(before: Entries, after: Entries, indexes: seq<IndexEntry>, i: nat)
    requires i < |indexes| && OthersSame(before, after, indexes[i].id)
    ensures Owned(before, indexes) ==> Owned(after, indexes)
  {
    if Owned(before, indexes) {
      forall k | k in after ensures OwnedKey(k, indexes) {
        if !OfIndex(k, indexes[i].id) { assert k in before; }
      }
    }
  }

  lemma InsertedFrame(data: Entries, a: Entries, b: Entries, t: Option<Tree>, e: IndexEntry, scope: Path, other: nat)
    requires Inserted(data, a, t, e, scope) && OthersSame(a, b, other) && e.id != other
    ensures Inserted(data, b, t, e, scope)
  {
    hide Touched, Hits, ColumnKey, ColumnsOf;
    forall q | Hits(e.def.pattern, scope, t, q) ensures OfIndex(KeyFor(t, e, q), e.id) {}
  }

  lemma InsertedFrom(data: Entries, a: Entries, b: Entries, t: Option<Tree>, e: IndexEntry, scope: Path)
    requires SameOn(data, a, e.id) && Inserted(a, b, t, e, scope)
    ensures Inserted(data, b, t, e, scope)
  {
    hide Touched, Hits, KeyFor, StoredValue;
  }

  lemma NoClashFrom(data: Entries, a: Entries, t: Option<Tree>, e: IndexEntry, scope: Path)
    requires SameOn(data, a, e.id)
    ensures NoClash(data, t, e, scope) <==> NoClash(a, t, e, scope)
  {
    hide Hits, ColumnKey, ColumnsOf;
    forall q ensures OfIndex(KeyFor(t, e, q), e.id) {}
  }

  ghost predicate Forms(data: Entries, indexes: seq<IndexEntry>) {
    forall i, k | 0 <= i < |indexes| && k in data && OfIndex(k, indexes[i].id) :: data[k].VKey? <==> indexes[i].def.unique
  }

  /** Inserts the affected entities' entries into each index in turn, or stops at a
      unique index two entities would share an entry of. */
  method InsertEach(b: Backend, data: Entries, indexes: seq<IndexEntry>, scope: Path, ghost t: Option<Tree>)
    returns (r: Result<Entries>)
    requires !b.Archived? && HoldsAt(b, ROOT, t) && (t.Some? ==> Distinct(t.value)) && DistinctIds(indexes) && Forms(data, indexes)
    ensures r.Ok? ==> AllInserted(data, r.value, t, indexes, scope)
    ensures r.Ok? && Owned(data, indexes) ==> Owned(r.value, indexes)
    ensures r.Ok? <==> forall i | 0 <= i < |indexes| :: NoClash(data, t, indexes[i], scope)
  {
    hide HoldsAt, Distinct, Inserted, NoClash;
    var after := data;
    for i := 0 to |indexes|
      invariant forall j | 0 <= j < i :: Inserted(data, after, t, indexes[j], scope) && NoClash(data, t, indexes[j], scope)
      invariant forall j | i <= j < |indexes| :: SameOn(data, after, indexes[j].id)
      invariant Owned(data, indexes) ==> Owned(after, indexes)
    {
      ghost var before := after;
      var step := Insert(b, after, indexes[i], scope, t);
      NoClashFrom(data, before, t, indexes[i], scope);
      if step.Err? {
        return Err(step.error);
      }
      after := step.value;
      InsertedFrom(data, before, after, t, indexes[i], scope);
      forall j | 0 <= j < i ensures Inserted(data, after, t, indexes[j], scope) {
        InsertedFrame(data, before, after, t, indexes[j], scope, indexes[i].id);
      }
      OwnedStep(before, after, indexes, i);
    }
    r := Ok(after);
  }

  // ----- when a mutation clashes ------------------------------------------------

  /** No two selected entities have the same entry. For an index that is not unique this always holds. */
  ghost predicate NoTwins(t: Option<Tree>, e: IndexEntry) {
    forall p, q | Selected(t, e.def.pattern, p) && Selected(t, e.def.pattern, q) && KeyFor(t, e, p) == KeyFor(t, e, q) :: p == q
  }

  lemma TwinsMeet(t: Option<Tree>, e: IndexEntry, p: Path, q: Path)
    requires Rooted(t) && Selected(t, e.def.pattern, p) && Selected(t, e.def.pattern, q)
    requires KeyFor(t, e, p) == KeyFor(t, e, q) && !Clash(StoredValue(t, e, p), StoredValue(t, e, q))
    ensures p == q
  {
    hide Distinct, Matches, ColumnKey, ColumnsOf;
    PlacesApart(t, p, q);
  }

  /** An entry left in place by the deletion is the entry of an unaffected entity. */
  lemma LeftEntry(data: Entries, d1: Entries, t: Option<Tree>, t': Option<Tree>, e: IndexEntry, scope: Path, k: TableKey)
    returns (p: Path)
    requires Exact(data, t, e) && Bracketed(t, t', e.def.pattern, scope) && Deleted(data, d1, t, e, scope)
    requires k in d1 && OfIndex(k, e.id)
    ensures Selected(t', e.def.pattern, p) && k == KeyFor(t', e, p) && d1[k] == StoredValue(t', e, p)
  {
    hide Matches, KeyFor, StoredValue, Selected, Hits, SamePlace;
    assert Implied(t, e, k);
    var q :| Selected(t, e.def.pattern, q) && k == KeyFor(t, e, q);
    SelectedHits(t, e.def.pattern, scope, q);
    assert StillThere(t, q, t', e.def.pattern);
    p :| Selected(t', e.def.pattern, p) && SamePlace(t, q, t', p);
    SamePlaceSameEntry(t, q, t', p, e);
  }

  /** An unaffected entity's entry is left in place. */
  lemma KeptEntry(data: Entries, d1: Entries, t: Option<Tree>, t': Option<Tree>, e: IndexEntry, scope: Path, q: Path)
    requires Rooted(t) && Exact(data, t, e) && Bracketed(t, t', e.def.pattern, scope) && Deleted(data, d1, t, e, scope)
    requires Selected(t', e.def.pattern, q) && !Comparable(scope, q)
    ensures KeyFor(t', e, q) in d1 && d1[KeyFor(t', e, q)] == StoredValue(t', e, q)
  {
    hide Rooted, Matches, KeyFor, StoredValue, Selected, Hits, SamePlace;
    assert WasThere(t, t', q, e.def.pattern, scope);
    var p :| Selected(t, e.def.pattern, p) && !Comparable(scope, p) && SamePlace(t, p, t', q);
    SamePlaceSameEntry(t, p, t', q, e);
    var k := KeyFor(t, e, p);
    KeyOfIndex(t, e, p);
    if Touched(t, e, scope, k) {
      var p' :| Hits(e.def.pattern, scope, t, p') && k == KeyFor(t, e, p');
      SelectedHits(t, e.def.pattern, scope, p');
      EntriesApart(data, t, e, p, p');
    }
  }

  lemma KeyOfIndex(t: Option<Tree>, e: IndexEntry, q: Path)
    ensures OfIndex(KeyFor(t, e, q), e.id)
  {}

  lemma NoTwinsNoClash(data: Entries, d1: Entries, t: Option<Tree>, t': Option<Tree>, e: IndexEntry, scope: Path)
    requires Rooted(t') && Exact(data, t, e) && Bracketed(t, t', e.def.pattern, scope) && Deleted(data, d1, t, e, scope)
    requires NoTwins(t', e)
    ensures NoClash(d1, t', e, scope)
  {
    hide Rooted, Matches, KeyFor, StoredValue, Selected, Hits, Exact, Bracketed, Deleted;
    forall q | Hits(e.def.pattern, scope, t', q) && KeyFor(t', e, q) in d1 ensures !Clash(d1[KeyFor(t', e, q)], StoredValue(t', e, q)) {
      SelectedHits(t', e.def.pattern, scope, q);
      KeyOfIndex(t', e, q);
      var p := LeftEntry(data, d1, t, t', e, scope, KeyFor(t', e, q));
    }
    forall p, q | Hits(e.def.pattern, scope, t', p) && Hits(e.def.pattern, scope, t', q) && KeyFor(t', e, p) == KeyFor(t', e, q)
      ensures !Clash(StoredValue(t', e, p), StoredValue(t', e, q))
    {
      SelectedHits(t', e.def.pattern, scope, p);
      SelectedHits(t', e.def.pattern, scope, q);
    }
  }

  lemma NoClashNoTwins(data: Entries, d1: Entries, t: Option<Tree>, t': Option<Tree>, e: IndexEntry, scope: Path)
    requires Rooted(t) && Rooted(t') && Exact(data, t, e) && Bracketed(t, t', e.def.pattern, scope) && Deleted(data, d1, t, e, scope)
    requires NoClash(d1, t', e, scope)
    ensures NoTwins(t', e)
  {
    hide Rooted, Matches, KeyFor, StoredValue, Selected, Hits, Exact, Bracketed, Deleted;
    forall p, q | Selected(t', e.def.pattern, p) && Selected(t', e.def.pattern, q) && KeyFor(t', e, p) == KeyFor(t', e, q) ensures p == q {
      SelectedHits(t', e.def.pattern, scope, p);
      SelectedHits(t', e.def.pattern, scope, q);
      if !Comparable(scope, p) { KeptEntry(data, d1, t, t', e, scope, p); }
      if !Comparable(scope, q) { KeptEntry(data, d1, t, t', e, scope, q); }
      SameNoClash(StoredValue(t', e, p), StoredValue(t', e, q));
      TwinsMeet(t', e, p, q);
    }
  }

  lemma SameNoClash(x: EntryValue, y: EntryValue)
    ensures Clash(x, y) <==> Clash(y, x)
    ensures x == y ==> !Clash(x, y)
  {}

  /** The bracket clashes exactly when the mutated table has two entities with one entry. */
  lemma ClashMeansTwins(data: Entries, d1: Entries, t: Option<Tree>, t': Option<Tree>, indexes: seq<IndexEntry>, scope: Path)
    requires Rooted(t) && Rooted(t') && AllExact(data, t, indexes) && AllDeleted(data, d1, t, indexes, scope)
    requires forall i | 0 <= i < |indexes| :: Bracketed(t, t', indexes[i].def.pattern, scope)
    ensures (forall i | 0 <= i < |indexes| :: NoClash(d1, t', indexes[i], scope)) <==> (forall i | 0 <= i < |indexes| :: NoTwins(t', indexes[i]))
  {
    hide Rooted, Exact, Bracketed, Deleted, NoClash, NoTwins;
    forall i | 0 <= i < |indexes| ensures NoClash(d1, t', indexes[i], scope) <==> NoTwins(t', indexes[i]) {
      if NoClash(d1, t', indexes[i], scope) { NoClashNoTwins(data, d1, t, t', indexes[i], scope); }
      if NoTwins(t', indexes[i]) { NoTwinsNoClash(data, d1, t, t', indexes[i], scope); }
    }
  }

  lemma AllKeep(data: Entries, d1: Entries, d2: Entries, t: Option<Tree>, t': Option<Tree>, indexes: seq<IndexEntry>, scope: Path)
    requires Rooted(t) && Rooted(t') && AllExact(data, t, indexes) && AllDeleted(data, d1, t, indexes, scope)
    requires AllInserted(d1, d2, t', indexes, scope)
    requires forall i | 0 <= i < |indexes| :: Bracketed(t, t', indexes[i].def.pattern, scope)
    ensures AllExact(d2, t', indexes)
  {
    hide Rooted, Exact, Bracketed, Deleted, Inserted;
    forall i | 0 <= i < |indexes| ensures Exact(d2, t', indexes[i]) {
      BracketKeeps(data, d1, d2, t, t', indexes[i], scope);
    }
  }

  lemma FormsKept(data: Entries, d1: Entries, t: Option<Tree>, indexes: seq<IndexEntry>, scope: Path)
    requires AllExact(data, t, indexes) && AllDeleted(data, d1, t, indexes, scope)
    ensures Forms(d1, indexes)
  {
    hide Touched, Selected, KeyFor;
    forall i, k | 0 <= i < |indexes| && k in d1 && OfIndex(k, indexes[i].id) ensures d1[k].VKey? <==> indexes[i].def.unique {
      assert Exact(data, t, indexes[i]) && Deleted(data, d1, t, indexes[i], scope);
      assert Implied(t, indexes[i], k);
    }
  }

  // ----- the registered indexes -------------------------------------------------

  ghost predicate Registered(indexes: seq<IndexEntry>, nextId: nat) {
    && DistinctIds(indexes) && nextId <= Pow256(4)
    && (forall i | 0 <= i < |indexes| :: indexes[i].id < nextId && indexes[i].def.Valid())
    && (forall i, j | 0 <= i < j < |indexes| :: indexes[i].def.name != indexes[j].def.name)
  }

  /** The index of that name, at position `i`, is gone, with its entries and no others. */
  ghost predicate Dropped(was: seq<IndexEntry>, now: seq<IndexEntry>, data: Entries, left: Entries, name: string, i: nat) {
    && i < |was| && was[i].def.name == name && now == was[..i] + was[i + 1..]
    && (forall k :: k in left <==> k in data && !OfIndex(k, was[i].id))
    && forall k | k in left :: left[k] == data[k]
  }

  // ----- schema facts -----------------------------------------------------------

  function Defs(indexes: seq<IndexEntry>): seq<IndexDef> {
    seq(|indexes|, i requires 0 <= i < |indexes| => indexes[i].def)
  }

  /** A new name, an id left to give, and no two entities the index could not tell apart. */
  ghost predicate Creatable(def: IndexDef, indexes: seq<IndexEntry>, nextId: nat, t: Option<Tree>) {
    && (forall i | 0 <= i < |indexes| :: indexes[i].def.name != def.name)
    && nextId + 1 < Pow256(4)
    && NoTwins(t, IndexEntry(nextId, def))
  }

  lemma NamedOnce(indexes: seq<IndexEntry>, nextId: nat, at: nat, def: IndexDef)
    requires Registered(indexes, nextId) && at < |indexes| && indexes[at].def.name == def.name
    ensures def in Defs(indexes) <==> indexes[at].def == def
    ensures !(forall i | 0 <= i < |indexes| :: indexes[i].def.name != def.name)
    ensures indexes[at].def != def <==> exists i :: 0 <= i < |indexes| && indexes[i].def.name == def.name && indexes[i].def != def
  {
    if indexes[at].def == def { assert Defs(indexes)[at] == def; }
    if def in Defs(indexes) {
      var i :| 0 <= i < |indexes| && Defs(indexes)[i] == def;
    }
  }

  lemma NotNamed(indexes: seq<IndexEntry>, def: IndexDef)
    requires forall i | 0 <= i < |indexes| :: indexes[i].def.name != def.name
    ensures def !in Defs(indexes)
  {}

  lemma NothingUnder(data: Entries, indexes: seq<IndexEntry>, nextId: nat)
    requires Registered(indexes, nextId) && Owned(data, indexes)
    ensures forall k | k in data :: !OfIndex(k, nextId)
  {
    forall k | k in data ensures !OfIndex(k, nextId) {
      assert OwnedKey(k, indexes);
    }
  }

  lemma RootScope(t: Option<Tree>, pat: Pattern, q: Path)
    ensures Hits(pat, [], t, q) <==> Selected(t, pat, q)
  {
    SelectedHits(t, pat, [], q);
    assert [] <= q;
  }

  /** With nothing stored yet, an insertion over the whole table clashes on twins alone. */
  lemma FilledWhole(data: Entries, t: Option<Tree>, e: IndexEntry)
    requires Rooted(t) && forall k | k in data :: !OfIndex(k, e.id)
    ensures NoClash(data, t, e, []) <==> NoTwins(t, e)
  {
    hide Rooted, Matches, KeyFor, StoredValue, Selected, Hits;
    forall p, q | Selected(t, e.def.pattern, p) && Selected(t, e.def.pattern, q) && KeyFor(t, e, p) == KeyFor(t, e, q)
      ensures !Clash(StoredValue(t, e, p), StoredValue(t, e, q)) <==> p == q
    {
      if !Clash(StoredValue(t, e, p), StoredValue(t, e, q)) { TwinsMeet(t, e, p, q); }
    }
    forall q ensures OfIndex(KeyFor(t, e, q), e.id) && (Hits(e.def.pattern, [], t, q) <==> Selected(t, e.def.pattern, q)) {
      KeyOfIndex(t, e, q);
      RootScope(t, e.def.pattern, q);
    }
  }

  lemma FilledExact(data: Entries, after: Entries, t: Option<Tree>, e: IndexEntry)
    requires Inserted(data, after, t, e, []) && forall k | k in data :: !OfIndex(k, e.id)
    ensures Exact(after, t, e)
  {
    hide Matches, KeyFor, StoredValue, Selected, Hits;
    forall q ensures Hits(e.def.pattern, [], t, q) <==> Selected(t, e.def.pattern, q) {
      RootScope(t, e.def.pattern, q);
    }
    forall k | k in after && OfIndex(k, e.id) ensures Implied(t, e, k) {
      assert Touched(t, e, [], k);
    }
  }

  lemma ExactFrame(data: Entries, after: Entries, t: Option<Tree>, e: IndexEntry)
    requires Exact(data, t, e) && SameOn(data, after, e.id)
    ensures Exact(after, t, e)
  {
    hide Selected, Implied, StoredValue, ColumnKey, ColumnsOf;
    forall q ensures OfIndex(KeyFor(t, e, q), e.id) {}
  }

  lemma GrownExact(data: Entries, after: Entries, t: Option<Tree>, indexes: seq<IndexEntry>, e: IndexEntry)
    requires AllExact(data, t, indexes) && OthersSame(data, after, e.id) && Exact(after, t, e) && Owned(data, indexes)
    requires forall i | 0 <= i < |indexes| :: indexes[i].id != e.id
    ensures AllExact(after, t, indexes + [e]) && Owned(after, indexes + [e])
  {
    hide Exact;
    var all := indexes + [e];
    forall i | 0 <= i < |all| ensures Exact(after, t, all[i]) {
      if i < |indexes| { ExactFrame(data, after, t, indexes[i]); }
    }
    forall k | k in after ensures OwnedKey(k, all) {
      if OfIndex(k, e.id) {
        assert OfIndex(k, all[|indexes|].id);
      } else {
        assert OwnedKey(k, indexes);
        var i :| 0 <= i < |indexes| && OfIndex(k, indexes[i].id);
        assert OfIndex(k, all[i].id);
      }
    }
  }

  lemma ExactForms(data: Entries, t: Option<Tree>, e: IndexEntry)
    requires Exact(data, t, e)
    ensures FormOf(data.Keys, e.id, e.def.unique)
  {
    hide Selected, ColumnKey, ColumnsOf;
    forall k | k in data.Keys && OfIndex(k, e.id) ensures k.entity.None? <==> e.def.unique {
      assert Implied(t, e, k);
    }
  }

  lemma ShrunkExact(data: Entries, left: Entries, t: Option<Tree>, indexes: seq<IndexEntry>, at: nat, nextId: nat)
    requires Registered(indexes, nextId) && Owned(data, indexes) && AllExact(data, t, indexes) && at < |indexes|
    requires forall k :: k in left <==> k in data && !OfIndex(k, indexes[at].id)
    requires forall k | k in left :: left[k] == data[k]
    ensures Registered(indexes[..at] + indexes[at + 1..], nextId)
    ensures Owned(left, indexes[..at] + indexes[at + 1..]) && AllExact(left, t, indexes[..at] + indexes[at + 1..])
  {
    hide Exact;
    var rest := indexes[..at] + indexes[at + 1..];
    forall i | 0 <= i < |rest| ensures Exact(left, t, rest[i]) {
      var j := if i < at then i else i + 1;
      assert rest[i] == indexes[j] && indexes[j].id != indexes[at].id;
      ExactFrame(data, left, t, indexes[j]);
    }
    forall k | k in left ensures OwnedKey(k, rest) {
      assert OwnedKey(k, indexes);
      var j :| 0 <= j < |indexes| && OfIndex(k, indexes[j].id);
      assert rest[if j < at then j else j - 1] == indexes[j];
    }
  }
}
