/** Keeping index entries in step with the tree: the entries of the entities a
    mutation can affect are removed before it and put back after it. */
module Maintenance {
  import opened Basics
  import opened Bytes
  import opened Scalars
  import opened Skeys
  import opened Paths
  import opened Values
  import opened Trees
  import opened TreeLaws
  import opened Blobs
  import opened Backends
  import opened Walks
  import opened Edits
  import opened Patterns
  import opened Columns
  import opened TableKeys

  /** A definition, its pattern both as given and as read. */
  datatype IndexDef = IndexDef(name: string, text: string, pattern: Pattern, columns: seq<Path>, descending: seq<bool>, unique: bool)
  {
    predicate Valid() { |columns| == |descending| }
  }

  datatype IndexEntry = IndexEntry(id: nat, def: IndexDef)

  /** What an index entry's value holds: the entity of a unique index, or nothing. */
  datatype EntryValue = VUnit | VKey(key: Skey)

  type Entries = map<TableKey, EntryValue>

  // ----- column values ----------------------------------------------------------

  function LeafOf(u: Option<Tree>): Option<Scalar> {
    match u case Some(Leaf(_, s)) => Some(s) case _ => None
  }

  /** The leaf at `rel` below an entity; a packed entity's own blob is entered. */
  function ColumnLeaf(u: Option<Tree>, rel: Path): Option<Scalar> {
    match u
    case Some(Packed(_, inner)) => LeafOf(At(inner, rel))
    case _ => LeafOf(AtDoc(u, rel))
  }

  function DocumentLeaf(doc: Document, rel: Path): Option<Scalar> {
    match SubDoc(doc, rel) case Some(VLeaf(s)) => Some(s) case _ => None
  }

  /** A column reads what the document shows, unless its leaf lies inside a packed
      entity strictly below the indexed one: there the index reads nothing. */
  lemma ColumnReadsDocument(u: Option<Tree>, rel: Path)
    requires u.Some? ==> Distinct(u.value)
    ensures ColumnLeaf(u, rel) == DocumentLeaf(DocumentOf(u), rel)
       <==> !(u.Some? && !u.value.Packed? && Locate(u.value, rel).Inside? && DocumentLeaf(DocumentOf(u), rel).Some?)
  {
    hide Distinct, Keys, Denote;
    if u.Some? {
      LocateReadsDocument(u.value, rel);
      var at := if u.value.Packed? then At(u.value.inner, rel) else At(u.value, rel);
      if u.value.Packed? && at.Some? { InnerLeaf(u.value, rel); }
      if at.Some? && !at.value.Packed? { LeafDenotes(at); }
    }
  }

  lemma LeafDenotes(u: Option<Tree>)
    requires u.Some? && !u.value.Packed?
    ensures LeafOf(u) == match Denote(u.value) case VLeaf(s) => Some(s) case _ => None
  {}

  lemma InnerLeaf(e: Tree, rel: Path)
    requires e.Packed? && Distinct(e) && At(e.inner, rel).Some?
    ensures !At(e.inner, rel).value.Packed?
  {
    AtKeys(e.inner, rel);
  }

  method EntityLeaf(b: Backend, entity: Skey, rel: Path, ghost u: Option<Tree>) returns (s: Option<Scalar>)
    requires !b.Archived? && HoldsAt(b, entity, u) && (u.Some? ==> Distinct(u.value))
    ensures s == ColumnLeaf(u, rel)
  {
    hide Backend.NodeOf, Backend.LinkOf, FromBlob, WellFormed, Keys, Distinct;
    var node := b.NodeOf(entity);
    if node.Some? && node.value.NPacked? {
      PackedInner(u.value);
      DecodePackedHolds(b, u.value);
      var mem := DecodePacked(b, entity).value;
      s := LeafFrom(mem, ROOT, rel, Some(u.value.inner));
    } else {
      s := LeafFrom(b, entity, rel, u);
    }
  }

  lemma PackedInner(e: Tree)
    requires e.Packed? && Distinct(e)
    ensures e.inner.key == ROOT
  {}

  method LeafFrom(b: Backend, base: Skey, rel: Path, ghost u: Option<Tree>) returns (s: Option<Scalar>)
    requires HoldsAt(b, base, u)
    ensures s == LeafOf(AtDoc(u, rel))
  {
    hide Backend.NodeOf, Backend.LinkOf, FromBlob, WellFormed;
    WalkFollowsTree(b, base, u, rel);
    var key := ResolveFrom(b, base, rel);
    s := None;
    if key.Some? {
      if AtDoc(u, rel).Some? { AtRep(b, u.value, rel); }
      if rel == [] && u.Some? { assert At(u.value, rel) == u; }
      match b.NodeOf(key.value)
      case Some(NLeaf(x)) => s := Some(x);
      case _ =>
    }
  }

  // ----- index keys -------------------------------------------------------------

  function Column(u: Option<Tree>, rel: Path): Scalar {
    match ColumnLeaf(u, rel) case Some(s) => s case None => Null
  }

  function ColumnsOf(columns: seq<Path>, u: Option<Tree>): (values: seq<Scalar>)
    ensures |values| == |columns|
    ensures forall i | 0 <= i < |columns| :: values[i] == Column(u, columns[i])
  {
    seq(|columns|, i requires 0 <= i < |columns| => Column(u, columns[i]))
  }

  function EntryKey(e: IndexEntry, k: Skey, u: Option<Tree>): TableKey {
    KIndex(e.id, ColumnKey(ColumnsOf(e.def.columns, u), e.def.descending), if e.def.unique then None else Some(k))
  }

  function ValueFor(e: IndexEntry, k: Skey): EntryValue { if e.def.unique then VKey(k) else VUnit }

  method IndexKey(b: Backend, e: IndexEntry, entity: Skey, ghost u: Option<Tree>) returns (key: TableKey, value: EntryValue)
    requires !b.Archived? && HoldsAt(b, entity, u) && (u.Some? ==> Distinct(u.value))
    ensures key == EntryKey(e, entity, u) && value == ValueFor(e, entity)
  {
    hide HoldsAt, Distinct, ColumnLeaf, ColumnKey;
    var values: seq<Scalar> := [];
    for i := 0 to |e.def.columns|
      invariant |values| == i && forall j | 0 <= j < i :: values[j] == Column(u, e.def.columns[j])
    {
      var s := EntityLeaf(b, entity, e.def.columns[i], u);
      values := values + [match s case Some(x) => x case None => Null];
    }
    assert values == ColumnsOf(e.def.columns, u);
    var cols := EncodeColumns(values, e.def.descending);
    key := KIndex(e.id, cols, if e.def.unique then None else Some(entity));
    value := if e.def.unique then VKey(entity) else VUnit;
  }

  // ----- what an index should hold ----------------------------------------------

  /** The pattern selects the place `q` of the table. The root counts even while the table is empty. */
  predicate Selected(t: Option<Tree>, pat: Pattern, q: Path) {
    Matches(pat, q) && (q == [] || AtDoc(t, q).Some?)
  }

  function KeyFor(t: Option<Tree>, e: IndexEntry, q: Path): TableKey {
    EntryKey(e, KeyThere(ROOT, t, q), AtDoc(t, q))
  }

  function StoredValue(t: Option<Tree>, e: IndexEntry, q: Path): EntryValue {
    ValueFor(e, KeyThere(ROOT, t, q))
  }

  /** The entries stored under the index's id are those of the selected places, and no others. */
  ghost predicate Exact(data: Entries, t: Option<Tree>, e: IndexEntry) {
    && (forall q | Selected(t, e.def.pattern, q) :: KeyFor(t, e, q) in data && data[KeyFor(t, e, q)] == StoredValue(t, e, q))
    && (forall k | k in data && OfIndex(k, e.id) :: Implied(t, e, k))
  }

  predicate OfIndex(k: TableKey, id: nat) { k.KIndex? && k.id == id }

  /** The two tables agree on every key outside the index. */
  ghost predicate OthersSame(data: Entries, after: Entries, id: nat) {
    forall k | !OfIndex(k, id) :: (k in after <==> k in data) && (k in data ==> after[k] == data[k])
  }

  ghost predicate Implied(t: Option<Tree>, e: IndexEntry, k: TableKey) {
    exists q :: Selected(t, e.def.pattern, q) && k == KeyFor(t, e, q)
  }

  /** In an exact unique index no two selected places have the same columns. */
  lemma UniqueMeansUnique(data: Entries, t: Option<Tree>, e: IndexEntry, p: Path, q: Path)
    requires Exact(data, t, e) && e.def.unique && (t.Some? ==> Distinct(t.value) && t.value.key == ROOT)
    requires Selected(t, e.def.pattern, p) && Selected(t, e.def.pattern, q)
    requires ColumnKey(ColumnsOf(e.def.columns, AtDoc(t, p)), e.def.descending) == ColumnKey(ColumnsOf(e.def.columns, AtDoc(t, q)), e.def.descending)
    ensures p == q
  {
    hide Distinct, Matches, ColumnKey, ColumnsOf;
    PlacesApart(t, p, q);
  }

  /** A key belongs to one place. */
  lemma PlacesApart(t: Option<Tree>, p: Path, q: Path)
    requires t.Some? ==> Distinct(t.value) && t.value.key == ROOT
    requires (p == [] || AtDoc(t, p).Some?) && (q == [] || AtDoc(t, q).Some?)
    requires KeyThere(ROOT, t, p) == KeyThere(ROOT, t, q)
    ensures p == q
  {
    hide Distinct;
    if t.Some? { KeysApart(t.value, p, q); }
  }

  lemma {:induction false} KeysApart(t: Tree, p: Path, q: Path)
    requires Distinct(t) && At(t, p).Some? && At(t, q).Some? && At(t, p).value.key == At(t, q).value.key
    ensures p == q
    decreases p
  {
    hide Keys, Distinct;
    if p == [] && q == [] {
    } else if p == [] {
      BelowOwnKey(t, q);
    } else if q == [] {
      BelowOwnKey(t, p);
    } else {
      var c, d := Child(t, p[0]).value, Child(t, q[0]).value;
      ChildKeys(t, p[0]);
      AtKeys(c, p[1..]);
      AtKeys(d, q[1..]);
      KeyIsOwn(At(t, p).value);
      KeyIsOwn(At(t, q).value);
      if p[0] == q[0] {
        KeysApart(c, p[1..], q[1..]);
        assert p == [p[0]] + p[1..] && q == [q[0]] + q[1..];
      } else {
        SiblingKeys(t, p[0], q[0]);
      }
    }
  }

  lemma BelowOwnKey(t: Tree, q: Path)
    requires Distinct(t) && q != [] && At(t, q).Some?
    ensures At(t, q).value.key != t.key
  {
    hide Keys, Distinct;
    ChildKeys(t, q[0]);
    AtKeys(Child(t, q[0]).value, q[1..]);
    KeyIsOwn(At(t, q).value);
  }

  // ----- the bracket ------------------------------------------------------------

  /** The entries of the affected entities, in walk order. */
  method EntriesFor(b: Backend, e: IndexEntry, scope: Path, ghost t: Option<Tree>)
    returns (out: seq<(TableKey, EntryValue)>, ghost paths: seq<Path>)
    requires !b.Archived? && HoldsAt(b, ROOT, t) && (t.Some? ==> Distinct(t.value))
    ensures ListsEntries(t, e, scope, out, paths)
  {
    hide HoldsAt, Distinct, KeyFor, Matches, Keys;
    var entities: seq<Skey>;
    entities, paths := AffectedEntities(b, e.def.pattern, scope, t);
    out := [];
    for i := 0 to |entities|
      invariant |out| == i && forall j | 0 <= j < i :: out[j] == (KeyFor(t, e, paths[j]), StoredValue(t, e, paths[j]))
    {
      PlaceHeld(b, t, e.def.pattern, scope, paths[i]);
      var key, value := IndexKey(b, e, entities[i], AtDoc(t, paths[i]));
      KeyForIs(t, e, paths[i]);
      out := out + [(key, value)];
    }
  }

  lemma KeyForIs(t: Option<Tree>, e: IndexEntry, q: Path)
    ensures KeyFor(t, e, q) == EntryKey(e, KeyThere(ROOT, t, q), AtDoc(t, q))
  {}

  lemma PlaceHeld(b: Backend, t: Option<Tree>, pat: Pattern, scope: Path, q: Path)
    requires HoldsAt(b, ROOT, t) && (t.Some? ==> Distinct(t.value)) && Hits(pat, scope, t, q)
    ensures HoldsAt(b, KeyThere(ROOT, t, q), AtDoc(t, q)) && (AtDoc(t, q).Some? ==> Distinct(AtDoc(t, q).value))
  {
    hide Distinct, Matches, Rep, Keys;
    if AtDoc(t, q).Some? {
      AtRep(b, t.value, q);
      AtKeys(t.value, q);
    }
  }

  ghost predicate ListsEntries(t: Option<Tree>, e: IndexEntry, scope: Path, out: seq<(TableKey, EntryValue)>, paths: seq<Path>) {
    && |out| == |paths|
    && (forall i | 0 <= i < |paths| :: Hits(e.def.pattern, scope, t, paths[i]) && out[i] == (KeyFor(t, e, paths[i]), StoredValue(t, e, paths[i])))
    && (forall q | Hits(e.def.pattern, scope, t, q) :: q in paths)
  }

  /** `k` is the entry of some affected entity. */
  ghost predicate Touched(t: Option<Tree>, e: IndexEntry, scope: Path, k: TableKey) {
    exists q :: Hits(e.def.pattern, scope, t, q) && k == KeyFor(t, e, q)
  }

  ghost predicate Deleted(data: Entries, after: Entries, t: Option<Tree>, e: IndexEntry, scope: Path) {
    forall k | OfIndex(k, e.id) :: (k in after <==> k in data && !Touched(t, e, scope, k)) && (k in after ==> after[k] == data[k])
  }

  /** Removes the entries the affected entities have now. */
  method Delete(b: Backend, data: Entries, e: IndexEntry, scope: Path, ghost t: Option<Tree>) returns (after: Entries)
    requires !b.Archived? && HoldsAt(b, ROOT, t) && (t.Some? ==> Distinct(t.value))
    ensures Deleted(data, after, t, e, scope) && OthersSame(data, after, e.id)
  {
    hide HoldsAt, Distinct, KeyFor, Matches, Hits;
    var out: seq<(TableKey, EntryValue)>;
    ghost var paths: seq<Path>;
    out, paths := EntriesFor(b, e, scope, t);
    EntryForms(t, e, scope, out, paths);
    after := data;
    for i := 0 to |out|
      invariant forall k :: k in after <==> k in data && forall j | 0 <= j < i :: k != out[j].0
      invariant forall k | k in after :: after[k] == data[k]
    {
      after := after - {out[i].0};
    }
    forall k ensures Touched(t, e, scope, k) <==> exists j :: 0 <= j < |out| && k == out[j].0 {
      if Touched(t, e, scope, k) {
        var q :| Hits(e.def.pattern, scope, t, q) && k == KeyFor(t, e, q);
        var j :| 0 <= j < |paths| && paths[j] == q;
        assert k == out[j].0;
      }
      if exists j :: 0 <= j < |out| && k == out[j].0 {
        var j :| 0 <= j < |out| && k == out[j].0;
        assert Hits(e.def.pattern, scope, t, paths[j]);
      }
    }
  }

  /** Two entries under one key name different entities. */
  predicate Clash(x: EntryValue, y: EntryValue) { x.VKey? && y.VKey? && x.key != y.key }

  /** `after` is `data` with every affected entity's entry put in, none over another entity's. */
  ghost predicate Inserted(data: Entries, after: Entries, t: Option<Tree>, e: IndexEntry, scope: Path) {
    && (forall q | Hits(e.def.pattern, scope, t, q) :: KeyFor(t, e, q) in after && after[KeyFor(t, e, q)] == StoredValue(t, e, q))
    && (forall k | k in data && OfIndex(k, e.id) :: k in after && !Clash(data[k], after[k]) && (after[k] == data[k] || Touched(t, e, scope, k)))
    && (forall k | k in after && OfIndex(k, e.id) && k !in data :: Touched(t, e, scope, k))
    && (forall k | k in after && OfIndex(k, e.id) :: after[k].VKey? <==> e.def.unique)
  }

  /** No entry to insert meets another entity's, stored or in the same batch. */
  ghost predicate NoClash(data: Entries, t: Option<Tree>, e: IndexEntry, scope: Path) {
    && (forall q | Hits(e.def.pattern, scope, t, q) && KeyFor(t, e, q) in data :: !Clash(data[KeyFor(t, e, q)], StoredValue(t, e, q)))
    && (forall p, q | Hits(e.def.pattern, scope, t, p) && Hits(e.def.pattern, scope, t, q) && KeyFor(t, e, p) == KeyFor(t, e, q) ::
          !Clash(StoredValue(t, e, p), StoredValue(t, e, q)))
  }

  /** What the inserting loop has done with the first `n` entries. */
  ghost predicate InsertedUpTo(data: Entries, after: Entries, out: seq<(TableKey, EntryValue)>, n: nat)
    requires n <= |out|
  {
    && (forall i | 0 <= i < n :: out[i].0 in after && !Clash(after[out[i].0], out[i].1) && (after[out[i].0].VKey? <==> out[i].1.VKey?))
    && (forall k | k in data :: k in after && !Clash(data[k], after[k]) && (after[k] == data[k] || exists i :: 0 <= i < n && out[i].0 == k))
    && (forall k | k in after && k !in data :: exists i :: 0 <= i < n && out[i].0 == k)
    && (forall k | k in after && (k !in data || after[k] != data[k]) :: exists i :: 0 <= i < n && out[i] == (k, after[k]))
  }

  /** Inserts the entries the affected entities now imply; a unique index refuses an
      entry whose key another entity holds. */
  method Insert(b: Backend, data: Entries, e: IndexEntry, scope: Path, ghost t: Option<Tree>) returns (r: Result<Entries>)
    requires !b.Archived? && HoldsAt(b, ROOT, t) && (t.Some? ==> Distinct(t.value))
    requires forall k | k in data && OfIndex(k, e.id) :: data[k].VKey? <==> e.def.unique
    ensures r.Ok? ==> Inserted(data, r.value, t, e, scope) && OthersSame(data, r.value, e.id)
    ensures r.Ok? <==> NoClash(data, t, e, scope)
    ensures r.Err? ==> r.error == UniqueViolation && e.def.unique
  {
    hide HoldsAt, Distinct, KeyFor, Matches, Hits, StoredValue, Inserted, NoClash, ListsEntries, InsertedUpTo;
    var out: seq<(TableKey, EntryValue)>;
    ghost var paths: seq<Path>;
    out, paths := EntriesFor(b, e, scope, t);
    NothingYet(data, out);
    EntryForms(t, e, scope, out, paths);
    var after := data;
    for i := 0 to |out|
      invariant InsertedUpTo(data, after, out, i)
      invariant forall k | k in after && OfIndex(k, e.id) :: after[k].VKey? <==> e.def.unique
      invariant OthersSame(data, after, e.id)
    {
      var key, value := out[i].0, out[i].1;
      if e.def.unique && key in after && Clash(after[key], value) {
        ClashFound(data, after, t, e, scope, out, paths, i);
        return Err(UniqueViolation);
      }
      InsertStep(data, after, out, i);
      after := after[key := value];
    }
    InsertedAll(data, after, t, e, scope, out, paths);
    r := Ok(after);
  }

  lemma NothingYet(data: Entries, out: seq<(TableKey, EntryValue)>)
    ensures InsertedUpTo(data, data, out, 0)
  {}

  lemma EntryForms(t: Option<Tree>, e: IndexEntry, scope: Path, out: seq<(TableKey, EntryValue)>, paths: seq<Path>)
    requires ListsEntries(t, e, scope, out, paths)
    ensures forall i | 0 <= i < |out| :: OfIndex(out[i].0, e.id) && (out[i].1.VKey? <==> e.def.unique)
  {
    hide Hits, ColumnKey, ColumnsOf;
  }

  lemma InsertStep(data: Entries, after: Entries, out: seq<(TableKey, EntryValue)>, n: nat)
    requires n < |out| && InsertedUpTo(data, after, out, n)
    requires out[n].0 in after ==> !Clash(after[out[n].0], out[n].1) && (after[out[n].0].VKey? <==> out[n].1.VKey?)
    ensures InsertedUpTo(data, after[out[n].0 := out[n].1], out, n + 1)
  {
    var now := after[out[n].0 := out[n].1];
    forall k | k in now && (k !in data || now[k] != data[k]) ensures exists i :: 0 <= i < n + 1 && out[i] == (k, now[k]) {
      if k == out[n].0 { assert out[n] == (k, now[k]); }
    }
    forall k | k in data ensures k in now && !Clash(data[k], now[k]) && (now[k] == data[k] || exists i :: 0 <= i < n + 1 && out[i].0 == k) {
      if k == out[n].0 { assert out[n].0 == k; }
    }
    forall k | k in now && k !in data ensures exists i :: 0 <= i < n + 1 && out[i].0 == k {
      if k == out[n].0 { assert out[n].0 == k; }
    }
  }

  lemma ClashFound(data: Entries, after: Entries, t: Option<Tree>, e: IndexEntry, scope: Path,
                   out: seq<(TableKey, EntryValue)>, paths: seq<Path>, n: nat)
    requires ListsEntries(t, e, scope, out, paths) && n < |out| && InsertedUpTo(data, after, out, n)
    requires out[n].0 in after && Clash(after[out[n].0], out[n].1)
    ensures !NoClash(data, t, e, scope)
  {
    hide Hits, KeyFor, StoredValue;
    var k := out[n].0;
    if !(k in data && after[k] == data[k]) {
      var i :| 0 <= i < n && out[i] == (k, after[k]);
      assert Hits(e.def.pattern, scope, t, paths[i]) && Hits(e.def.pattern, scope, t, paths[n]);
    }
  }

  lemma InsertedAll(data: Entries, after: Entries, t: Option<Tree>, e: IndexEntry, scope: Path,
                    out: seq<(TableKey, EntryValue)>, paths: seq<Path>)
    requires ListsEntries(t, e, scope, out, paths) && InsertedUpTo(data, after, out, |out|)
    requires forall k | k in after && OfIndex(k, e.id) :: after[k].VKey? <==> e.def.unique
    ensures Inserted(data, after, t, e, scope) && NoClash(data, t, e, scope)
  {
    hide Hits, KeyFor, StoredValue;
    forall q | Hits(e.def.pattern, scope, t, q)
      ensures KeyFor(t, e, q) in after && after[KeyFor(t, e, q)] == StoredValue(t, e, q)
    {
      var i :| 0 <= i < |paths| && paths[i] == q;
      assert out[i] == (KeyFor(t, e, q), StoredValue(t, e, q));
      SameWhenNoClash(after[out[i].0], out[i].1);
    }
    forall k | k in data ensures k in after && !Clash(data[k], after[k]) && (after[k] == data[k] || Touched(t, e, scope, k)) {
      if after[k] != data[k] {
        var i :| 0 <= i < |out| && out[i].0 == k;
        assert Hits(e.def.pattern, scope, t, paths[i]);
      }
    }
    forall k | k in after && k !in data ensures Touched(t, e, scope, k) {
      var i :| 0 <= i < |out| && out[i].0 == k;
      assert Hits(e.def.pattern, scope, t, paths[i]);
    }
  }

  lemma SameWhenNoClash(x: EntryValue, y: EntryValue)
    requires !Clash(x, y) && (x.VKey? <==> y.VKey?)
    ensures x == y
  {}

  // ----- why the bracket is enough ----------------------------------------------

  /** The same entity, at a place of one tree and a place of another. */
  predicate SamePlace(t: Option<Tree>, q: Path, t': Option<Tree>, q': Path) {
    KeyThere(ROOT, t, q) == KeyThere(ROOT, t', q') && AtDoc(t, q) == AtDoc(t', q')
  }

  /** A mutation at `scope` leaves every selected entity off its line selected and as it was. */
  ghost predicate Bracketed(t: Option<Tree>, t': Option<Tree>, pat: Pattern, scope: Path) {
    && (forall q | Selected(t, pat, q) && !Comparable(scope, q) :: StillThere(t, q, t', pat))
    && (forall q | Selected(t', pat, q) && !Comparable(scope, q) :: WasThere(t, t', q, pat, scope))
  }

  ghost predicate StillThere(t: Option<Tree>, q: Path, t': Option<Tree>, pat: Pattern) {
    exists q' :: Selected(t', pat, q') && SamePlace(t, q, t', q')
  }

  ghost predicate WasThere(t: Option<Tree>, t': Option<Tree>, q': Path, pat: Pattern, scope: Path) {
    exists q :: Selected(t, pat, q) && !Comparable(scope, q) && SamePlace(t, q, t', q')
  }

  ghost predicate Rooted(t: Option<Tree>) { t.Some? ==> Distinct(t.value) && t.value.key == ROOT }

  /** Deleting before and inserting after keeps the index exact, for any mutation that
      leaves the entities off its line alone. */
  lemma BracketKeeps(data: Entries, d1: Entries, d2: Entries, t: Option<Tree>, t': Option<Tree>, e: IndexEntry, scope: Path)
    requires Rooted(t) && Rooted(t') && Exact(data, t, e) && Bracketed(t, t', e.def.pattern, scope)
    requires Deleted(data, d1, t, e, scope) && Inserted(d1, d2, t', e, scope)
    ensures Exact(d2, t', e)
  {
    hide Rooted, Matches, KeyFor, StoredValue, Bracketed, Deleted, Inserted, SamePlace, Exact, Selected, Implied;
    forall q | Selected(t', e.def.pattern, q) ensures KeyFor(t', e, q) in d2 && d2[KeyFor(t', e, q)] == StoredValue(t', e, q) {
      EntryKept(data, d1, d2, t, t', e, scope, q);
    }
    forall k | k in d2 && OfIndex(k, e.id) ensures Implied(t', e, k) {
      EntryImplied(data, d1, d2, t, t', e, scope, k);
    }
    ExactIs(d2, t', e);
  }

  lemma ExactIs(data: Entries, t: Option<Tree>, e: IndexEntry)
    requires forall q | Selected(t, e.def.pattern, q) :: KeyFor(t, e, q) in data && data[KeyFor(t, e, q)] == StoredValue(t, e, q)
    requires forall k | k in data && OfIndex(k, e.id) :: Implied(t, e, k)
    ensures Exact(data, t, e)
  {}

  lemma SamePlaceSameEntry(t: Option<Tree>, q: Path, t': Option<Tree>, q': Path, e: IndexEntry)
    requires SamePlace(t, q, t', q')
    ensures KeyFor(t, e, q) == KeyFor(t', e, q') && StoredValue(t, e, q) == StoredValue(t', e, q')
  {}

  lemma SelectedHits(t: Option<Tree>, pat: Pattern, scope: Path, q: Path)
    ensures Hits(pat, scope, t, q) <==> Selected(t, pat, q) && Comparable(scope, q)
  {}

  /** `k` is no node's entry. */
  ghost predicate Nodeless(t: Option<Tree>, e: IndexEntry, k: TableKey) {
    forall q | AtDoc(t, q).Some? :: KeyFor(t, e, q) != k
  }

  /** An exact index holds an entry for a node that is not there in one case alone: it
      indexes the root, and the table is empty. */
  lemma EmptyRootEntry(data: Entries, t: Option<Tree>, e: IndexEntry)
    requires Exact(data, t, e)
    ensures (exists k :: k in data && OfIndex(k, e.id) && Nodeless(t, e, k)) <==> e.def.pattern == [] && t.None?
  {
    hide ColumnKey, ColumnsOf;
    if e.def.pattern == [] && t.None? {
      var k := KeyFor(t, e, []);
      assert Selected(t, e.def.pattern, []);
      assert k in data && OfIndex(k, e.id) && Nodeless(t, e, k);
    }
    forall k | k in data && OfIndex(k, e.id) && Nodeless(t, e, k) ensures e.def.pattern == [] && t.None? {
      assert Implied(t, e, k);
      var q :| Selected(t, e.def.pattern, q) && k == KeyFor(t, e, q);
    }
  }

  /** Two selected places with one entry are one place. */
  lemma EntriesApart(data: Entries, t: Option<Tree>, e: IndexEntry, p: Path, q: Path)
    requires Rooted(t) && Exact(data, t, e) && Selected(t, e.def.pattern, p) && Selected(t, e.def.pattern, q)
    requires KeyFor(t, e, p) == KeyFor(t, e, q)
    ensures p == q
  {
    hide Distinct, Matches, ColumnKey, ColumnsOf;
    PlacesApart(t, p, q);
  }

  lemma EntryKept(data: Entries, d1: Entries, d2: Entries, t: Option<Tree>, t': Option<Tree>, e: IndexEntry, scope: Path, q: Path)
    requires Rooted(t) && Exact(data, t, e) && Bracketed(t, t', e.def.pattern, scope)
    requires Deleted(data, d1, t, e, scope) && Inserted(d1, d2, t', e, scope) && Selected(t', e.def.pattern, q)
    ensures KeyFor(t', e, q) in d2 && d2[KeyFor(t', e, q)] == StoredValue(t', e, q)
  {
    hide Rooted, Matches, KeyFor, Selected, Hits, SamePlace;
    SelectedHits(t', e.def.pattern, scope, q);
    if !Comparable(scope, q) {
      assert WasThere(t, t', q, e.def.pattern, scope);
      var p :| Selected(t, e.def.pattern, p) && !Comparable(scope, p) && SamePlace(t, p, t', q);
      SamePlaceSameEntry(t, p, t', q, e);
      var k := KeyFor(t, e, p);
      KeyForIs(t, e, p);
      if Touched(t, e, scope, k) {
        var p' :| Hits(e.def.pattern, scope, t, p') && k == KeyFor(t, e, p');
        SelectedHits(t, e.def.pattern, scope, p');
        EntriesApart(data, t, e, p, p');
      }
      SameWhenNoClash(d1[k], d2[k]);
    }
  }

  lemma EntryImplied(data: Entries, d1: Entries, d2: Entries, t: Option<Tree>, t': Option<Tree>, e: IndexEntry, scope: Path, k: TableKey)
    requires Exact(data, t, e) && Bracketed(t, t', e.def.pattern, scope)
    requires Deleted(data, d1, t, e, scope) && Inserted(d1, d2, t', e, scope)
    requires k in d2 && OfIndex(k, e.id)
    ensures Implied(t', e, k)
  {
    hide Matches, KeyFor, StoredValue, Selected, Hits, SamePlace;
    if Touched(t', e, scope, k) {
      var q :| Hits(e.def.pattern, scope, t', q) && k == KeyFor(t', e, q);
      SelectedHits(t', e.def.pattern, scope, q);
    } else {
      assert k in data && !Touched(t, e, scope, k);
      assert Implied(t, e, k);
      var q :| Selected(t, e.def.pattern, q) && k == KeyFor(t, e, q);
      SelectedHits(t, e.def.pattern, scope, q);
      assert StillThere(t, q, t', e.def.pattern);
      var q' :| Selected(t', e.def.pattern, q') && SamePlace(t, q, t', q');
      SamePlaceSameEntry(t, q, t', q', e);
    }
  }
}
