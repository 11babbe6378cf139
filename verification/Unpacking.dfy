/** Spilling a packed entity back into the store as ordinary nodes. */
module Unpacking {
  import opened Basics
  import opened Bytes
  import opened Scalars
  import opened Skeys
  import opened Paths
  import opened Values
  import opened Trees
  import opened TreeLaws
  import opened Blobs
  import opened Backends
  import opened Walks
  import opened Edits
  import opened Repacking
  import opened TreeStores
  import opened Elsewhere
  import Containers
  import Removal

  /** The inner tree under the entity's own key: only the blob's internal root is re-keyed. */
  function Rekeyed(inner: Tree, k: Skey): Tree { inner.(key := k) }

  function UnpackT(t: Tree, at: Path): Tree
    requires At(t, at).Some? && At(t, at).value.Packed?
  {
    Subst(t, at, Rekeyed(At(t, at).value.inner, At(t, at).value.key))
  }

  lemma RekeyedShape(inner: Tree, k: Skey)
    requires Distinct(Packed(k, inner))
    ensures Keys(Rekeyed(inner, k)) == Keys(Packed(k, inner)) && Distinct(Rekeyed(inner, k))
    ensures Denote(Rekeyed(inner, k)) == Denote(inner) && !Rekeyed(inner, k).Packed?
  {
    match inner
    case Leaf(_, _) =>
    case List(r, items) =>
      forall i | 0 <= i < |items| ensures ROOT !in Keys(items[i]) && Keys(items[i]) <= Keys(inner) {}
    case Object(r, fields) =>
      forall n | n in fields ensures ROOT !in Keys(fields[n]) && Keys(fields[n]) <= Keys(inner) {}
  }

  /** Unpacking cannot be seen: the document, every key in use, the entity's own key
      and every key inside it stay as they were. */
  lemma UnpackInvisible(t: Tree, at: Path, q: Path)
    requires Distinct(t) && At(t, at).Some? && At(t, at).value.Packed?
    ensures Denote(UnpackT(t, at)) == Denote(t) && UnpackT(t, at).key == t.key
    ensures Keys(UnpackT(t, at)) == Keys(t) && Distinct(UnpackT(t, at))
    ensures KeyAt(Some(UnpackT(t, at)), at) == KeyAt(Some(t), at)
    ensures q != [] ==> At(UnpackT(t, at), at + q) == At(At(t, at).value.inner, q)
    ensures Untouched(Some(t), Some(UnpackT(t, at)), at)
  {
    hide Keys, Distinct, Denote, SetIn;
    var e := At(t, at).value;
    var u := Rekeyed(e.inner, e.key);
    AtKeys(t, at);
    RekeyedShape(e.inner, e.key);
    SubstShape(t, at, u);
    SubstUntouched(t, at, u);
    Removal.AtIsOpen(t, at);
    DenoteSubst(t, at, u);
    DenotePacked(e);
    DenoteSubst(t, at, e);
    SubstSame(t, at);
    AtSplit(UnpackT(t, at), at, q);
    if q != [] { assert Child(u, q[0]) == Child(e.inner, q[0]); }
  }

  lemma DenotePacked(e: Tree)
    requires e.Packed?
    ensures Denote(e) == Denote(e.inner)
  {}

  lemma {:induction false} SubstSame(t: Tree, p: Path)
    requires At(t, p).Some?
    ensures Subst(t, p, At(t, p).value) == t
    decreases p
  {
    if p != [] {
      var c := Child(t, p[0]).value;
      SubstSame(c, p[1..]);
      match t
      case List(_, items) => assert items[p[0].index := c] == items;
      case Object(_, fields) => assert fields[p[0].name := c] == fields;
    }
  }

  // ----- the entries --------------------------------------------------------------

  function CellLink(cell: MemNode, n: string): Option<Skey> {
    if cell.MObject? && n in cell.children then Some(cell.children[n]) else None
  }

  /** `b` holds, under `k`, exactly the entries of `cell`. */
  ghost predicate HoldsCell(b: Backend, k: Skey, cell: MemNode) {
    b.NodeOf(k) == Some(EngineNode(cell)) && forall n :: b.LinkOf(k, n) == CellLink(cell, n)
  }

  /** Writes one node and, for an object, each of its links. */
  method SpillNode(b: Backend, key: Skey, cell: MemNode) returns (c: Backend)
    requires b.Engine? && NoLinks(b, key)
    ensures c.Engine? && SameOff(b, c, {key}) && HoldsCell(c, key, cell)
  {
    PutNodeEffect(b, key, EngineNode(cell));
    c := Engine(b.nodes[key := EngineNode(cell)], b.links);
    if cell.MObject? {
      var pairs := DrainNames(cell.children);
      assert PairsToMap(pairs[..0]) == map[];
      for i := 0 to |pairs|
        invariant c.Engine? && SameOff(b, c, {key}) && c.NodeOf(key) == Some(NObject)
        invariant Links(c, key, PairsToMap(pairs[..i]))
      {
        assert pairs[..i + 1][..i] == pairs[..i];
        PutLinkEffect(c, key, pairs[i].0, pairs[i].1);
        SameOffTrans(b, c, c.PutLink(key, pairs[i].0, pairs[i].1).value, {key}, {key});
        c := Engine(c.nodes, c.links[(key, pairs[i].0) := pairs[i].1]);
      }
      assert pairs[..|pairs|] == pairs;
    }
  }

  ghost predicate Links(b: Backend, k: Skey, children: map<string, Skey>) {
    forall n :: b.LinkOf(k, n) == CellLink(MObject(children), n)
  }

  /** The key an entry is written under: the blob's root becomes the entity. */
  function Target(k: Skey, entity: Skey): Skey { if k == ROOT then entity else k }

  ghost predicate Spilled(c: Backend, cells: MemNodes, done: set<Skey>, entity: Skey) {
    forall k | k in done && k in cells :: HoldsCell(c, Target(k, entity), cells[k])
  }

  function Targets(done: set<Skey>, entity: Skey): set<Skey> {
    set k | k in done :: Target(k, entity)
  }

  lemma SpillStep(b: Backend, before: Backend, after: Backend, cells: MemNodes, done: set<Skey>, k: Skey, entity: Skey)
    requires k in cells && k !in done && (entity in cells ==> entity == ROOT)
    requires done <= cells.Keys && SameOff(b, before, Targets(done, entity)) && Spilled(before, cells, done, entity)
    requires SameOff(before, after, {Target(k, entity)}) && HoldsCell(after, Target(k, entity), cells[k])
    ensures SameOff(b, after, Targets(done + {k}, entity)) && Spilled(after, cells, done + {k}, entity)
  {
    hide Backend.NodeOf, Backend.LinkOf;
    SameOffTrans(b, before, after, Targets(done, entity), {Target(k, entity)});
    assert Targets(done + {k}, entity) == Targets(done, entity) + {Target(k, entity)};
    forall j | j in done ensures HoldsCell(after, Target(j, entity), cells[j]) {
      assert Target(j, entity) != Target(k, entity);
      assert SameAt(before, after, Target(j, entity));
    }
  }

  lemma FreshTarget(b: Backend, c: Backend, cells: MemNodes, done: set<Skey>, k: Skey, entity: Skey)
    requires k in cells && k !in done && done <= cells.Keys && (entity in cells ==> entity == ROOT)
    requires SameOff(b, c, Targets(done, entity)) && NoLinks(b, Target(k, entity))
    ensures NoLinks(c, Target(k, entity))
  {
    hide Backend.NodeOf, Backend.LinkOf;
    assert Target(k, entity) !in Targets(done, entity);
    assert SameAt(b, c, Target(k, entity));
  }

  /** Writes every entry of the decoded table, its root re-keyed to the entity. */
  method Spill(b: Backend, cells: MemNodes, entity: Skey) returns (c: Backend)
    requires b.Engine? && (entity in cells ==> entity == ROOT)
    requires forall k | k in cells :: NoLinks(b, Target(k, entity))
    ensures c.Engine? && SameOff(b, c, Targets(cells.Keys, entity)) && Spilled(c, cells, cells.Keys, entity)
  {
    hide Backend.NodeOf, Backend.LinkOf, Targets, HoldsCell;
    c := b;
    var rest := cells.Keys;
    assert cells.Keys - rest == {};
    while rest != {}
      invariant rest <= cells.Keys && c.Engine?
      invariant SameOff(b, c, Targets(cells.Keys - rest, entity)) && Spilled(c, cells, cells.Keys - rest, entity)
      decreases |rest|
    {
      HasLeast(rest);
      var k :| k in rest && forall x | x in rest :: k <= x;
      ghost var before, done := c, cells.Keys - rest;
      FreshTarget(b, c, cells, done, k, entity);
      c := SpillNode(c, Target(k, entity), cells[k]);
      SpillStep(b, before, c, cells, done, k, entity);
      rest := rest - {k};
      assert cells.Keys - rest == done + {k};
    }
    assert cells.Keys - rest == cells.Keys;
  }

  lemma {:induction false} KeysStored(b: Backend, t: Tree, k: Skey)
    requires Rep(b, t) && PackedFree(t) && k in Keys(t)
    ensures b.NodeOf(k).Some?
  {
    hide Backend.NodeOf, Backend.LinkOf;
    match t
    case List(_, items) =>
      if k != t.key {
        var i :| 0 <= i < |items| && k in Keys(items[i]);
        KeysStored(b, items[i], k);
      }
    case Object(_, fields) =>
      if k != t.key {
        var n :| n in fields && k in Keys(fields[n]);
        KeysStored(b, fields[n], k);
      }
    case _ =>
  }

  lemma CellKeys(cells: MemNodes, inner: Tree)
    requires Holds(Mem(cells), Some(inner)) && PackedFree(inner)
    ensures cells.Keys == Keys(inner)
  {
    hide Rep, Keys, PackedFree;
    forall k ensures k in cells <==> k in Keys(inner) {
      if k in Keys(inner) {
        KeysStored(Mem(cells), inner, k);
      } else {
        assert Blank(Mem(cells), k);
      }
    }
  }

  /** The spilled entries represent the re-keyed inner tree. */
  lemma SpilledRep(c: Backend, cells: MemNodes, inner: Tree, entity: Skey)
    requires Holds(Mem(cells), Some(inner)) && Distinct(Packed(entity, inner))
    requires Spilled(c, cells, cells.Keys, entity) && cells.Keys == Keys(inner)
    ensures Rep(c, Rekeyed(inner, entity))
  {
    hide Backend.NodeOf, Backend.LinkOf;
    KeyIsOwn(inner);
    CellReads(c, cells, ROOT, entity, entity);
    match inner
    case Leaf(_, _) =>
    case List(_, items) =>
      forall i | 0 <= i < |items| ensures Rep(c, items[i]) {
        SpilledChild(c, cells, inner, Index(i), entity);
      }
    case Object(_, fields) =>
      forall n | n in fields ensures Rep(c, fields[n]) {
        SpilledChild(c, cells, inner, Name(n), entity);
      }
  }

  lemma CellReads(c: Backend, cells: MemNodes, k: Skey, entity: Skey, at: Skey)
    requires k in cells && at == Target(k, entity) && HoldsCell(c, at, cells[k])
    ensures c.NodeOf(at) == Mem(cells).NodeOf(k) && forall n :: c.LinkOf(at, n) == Mem(cells).LinkOf(k, n)
  {}

  lemma SpilledChild(c: Backend, cells: MemNodes, inner: Tree, seg: Segment, entity: Skey)
    requires Rep(Mem(cells), inner) && Distinct(inner) && inner.key == ROOT && Child(inner, seg).Some?
    requires Spilled(c, cells, cells.Keys, entity) && cells.Keys == Keys(inner)
    ensures Rep(c, Child(inner, seg).value)
  {
    hide Backend.NodeOf, Backend.LinkOf, Rep, Keys;
    var u := Child(inner, seg).value;
    ChildKeys(inner, seg);
    ChildRep(Mem(cells), inner, seg);
    forall k | k in Keys(u) ensures SameAt(Mem(cells), c, k) {
      assert HoldsCell(c, Target(k, entity), cells[k]);
      CellReads(c, cells, k, entity, k);
    }
    RepFrame(Mem(cells), c, u);
  }

  lemma SpilledHolds(b: Backend, c: Backend, t: Tree, at: Path, cells: MemNodes, next: Skey)
    requires b.Engine? && Holds(b, Some(t)) && Sound(Some(t), next) && At(t, at).Some? && At(t, at).value.Packed?
    requires Holds(Mem(cells), Some(At(t, at).value.inner)) && cells.Keys == Keys(At(t, at).value.inner)
    requires SameOff(b, c, Targets(cells.Keys, At(t, at).value.key)) && Spilled(c, cells, cells.Keys, At(t, at).value.key)
    ensures Holds(c, Some(UnpackT(t, at))) && Sound(Some(UnpackT(t, at)), next)
  {
    hide Backend.NodeOf, Backend.LinkOf, Rep, Keys, Distinct;
    var e := At(t, at).value;
    AtKeys(t, at);
    SpilledRep(c, cells, e.inner, e.key);
    TargetsAre(e, cells.Keys);
    SubstRep(b, c, t, at, Rekeyed(e.inner, e.key));
    UnpackInvisible(t, at, []);
    forall k | k !in Keys(t) ensures Blank(c, k) {
      assert SameAt(b, c, k) && Blank(b, k);
    }
  }

  lemma TargetsAre(e: Tree, ks: set<Skey>)
    requires e.Packed? && Distinct(e) && ks == Keys(e.inner)
    ensures Targets(ks, e.key) == Keys(e)
  {
    KeyIsOwn(e.inner);
    assert ROOT in ks && Target(ROOT, e.key) == e.key;
    forall k | k in ks - {ROOT} ensures Target(k, e.key) == k {}
  }

  lemma SpillReady(b: Backend, t: Tree, at: Path, cells: MemNodes, next: Skey)
    requires Holds(b, Some(t)) && Sound(Some(t), next) && At(t, at).Some? && At(t, at).value.Packed?
    requires b.NodeOf(At(t, at).value.key).Some? && b.NodeOf(At(t, at).value.key).value.NPacked?
    requires FromBlob(b.NodeOf(At(t, at).value.key).value.blob) == Ok(cells)
    ensures Holds(Mem(cells), Some(At(t, at).value.inner)) && cells.Keys == Keys(At(t, at).value.inner)
    ensures At(t, at).value.key in cells ==> At(t, at).value.key == ROOT
    ensures forall k | k in cells :: NoLinks(b, Target(k, At(t, at).value.key))
  {
    hide Backend.NodeOf, Backend.LinkOf, Keys;
    var e := At(t, at).value;
    AtRep(b, t, at);
    AtKeys(t, at);
    CellKeys(cells, e.inner);
    forall k | k in cells ensures NoLinks(b, Target(k, e.key)) {
      if k != ROOT { assert Blank(b, k); }
    }
  }

  /** Spills the packed entity `entity` into plain nodes; anything else is refused. */
  method UnpackEntity(s: TreeStore, entity: Skey, ghost at: Path) returns (r: Result<()>)
    requires s.Valid() && s.store.Engine? && Containers.Names(s.tree, entity, at)
    modifies s`store, s`tree
    ensures r.Ok? <==> AtDoc(old(s.tree), at).Some? && AtDoc(old(s.tree), at).value.Packed?
    ensures r.Ok? ==> s.Valid() && s.store.Engine? && s.tree == Some(UnpackT(old(s.tree).value, at))
    ensures r.Err? ==> s.store == old(s.store) && s.tree == old(s.tree)
  {
    hide Rep, Keys, Distinct, FromBlob;
    Containers.NamedEntry(s.store, s.tree, entity, at);
    var node := s.store.NodeOf(entity);
    if node.None? || !node.value.NPacked? {
      return Err(Corrupt);
    }
    PackedEntry(s.store, s.tree.value, at, s.issued);
    var cells := FromBlob(node.value.blob).value;
    SpillReady(s.store, s.tree.value, at, cells, s.issued);
    var spilled := Spill(s.store, cells, entity);
    SpilledHolds(s.store, spilled, s.tree.value, at, cells, s.issued);
    s.store := spilled;
    s.tree := Some(UnpackT(s.tree.value, at));
    r := Ok(());
  }
}
