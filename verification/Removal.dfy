/** Removing a subtree, wherever it is kept, and what that means for the document. */
module Removal {
  import opened Basics
  import opened Scalars
  import opened Skeys
  import opened Paths
  import opened Values
  import opened Trees
  import opened TreeLaws
  import opened Blobs
  import opened Backends
  import opened Walks
  import opened Edits
  import opened Repacking
  import opened TreeStores

  // ----- the tree removal -----------------------------------------------------

  /** Whether a removal at `p` reports that something was removed. At the table
      root it always does, even when the table is empty. */
  predicate Removes(t: Option<Tree>, p: Path) {
    match LocateDoc(t, p)
    case Inside(e, _, rel) => rel == [] || At(e.inner, rel).Some?
    case _ => p == [] || AtDoc(t, p).Some?
  }

  /** The table after a removal at `p`: the blob is edited when the path ends inside one. */
  function RemoveT(t: Option<Tree>, p: Path): Option<Tree> {
    match LocateDoc(t, p)
    case Inside(e, at, rel) =>
      if rel == [] then RemoveWhole(t, p)
      else (match RemoveRelT(e.inner, rel)
            case Some(inner) => Some(Subst(t.value, at, Packed(e.key, inner)))
            case None => t)
    case _ => RemoveWhole(t, p)
  }

  function RemoveWhole(t: Option<Tree>, p: Path): Option<Tree> {
    if p == [] then None
    else match AtDoc(t, p)
         case Some(_) => RemoveRelT(t.value, p)
         case None => t
  }

  // ----- the document removal -------------------------------------------------

  function RemoveDoc(doc: Document, p: Path): Document {
    match doc
    case Some(v) => if p == [] then None else Some(RemoveIn(v, p))
    case None => None
  }

  lemma {:induction false} RemoveNothing(v: Value, p: Path)
    requires p != [] && Subtree(v, p).None?
    ensures RemoveIn(v, p) == v
    decreases p
  {
    if |p| > 1 {
      match (v, p[0])
      case (VNode(entries), Name(n)) =>
        if n in entries {
          RemoveNothing(entries[n], p[1..]);
          assert entries[n := entries[n]] == entries;
        }
      case (VList(items), Index(i)) =>
        if i < |items| {
          RemoveNothing(items[i], p[1..]);
          assert items[i := items[i]] == items;
        }
      case _ =>
    } else {
      assert p == [p[0]] && (Step(v, p[0]).Some? ==> Subtree(Step(v, p[0]).value, p[1..]).Some?);
      match (v, p[0])
      case (VNode(entries), Name(n)) => assert entries - {n} == entries;
      case _ =>
    }
  }

  /** Removing below a place edits the subtree found there. */
  lemma {:induction false} RemoveBelowPlace(v: Value, p: Path, q: Path)
    requires q != [] && Subtree(v, p).Some?
    ensures SetIn(v, p, RemoveIn(Subtree(v, p).value, q)) == Some(RemoveIn(v, p + q))
    decreases p
  {
    if p == [] {
      assert p + q == q;
    } else {
      assert (p + q)[1..] == p[1..] + q;
      RemoveBelowPlace(Step(v, p[0]).value, p[1..], q);
    }
  }

  lemma {:induction false} AtIsOpen(t: Tree, p: Path)
    requires At(t, p).Some?
    ensures Open(t, p)
    decreases p
  {
    if p != [] {
      AtIsOpen(Child(t, p[0]).value, p[1..]);
    }
  }

  lemma RemoveRelDenotes(t: Tree, p: Path)
    requires p != [] && At(t, p).Some?
    ensures Denote(RemoveRelT(t, p).value) == RemoveIn(Denote(t), p)
  {
    hide SetIn, RemoveIn, Denote, Subst, WithoutChild, Open;
    assert p == Parent(p) + [Last(p)];
    AtSplit(t, Parent(p), [Last(p)]);
    var u := At(t, Parent(p)).value;
    ChildAt(u, Last(p));
    AtIsOpen(t, Parent(p));
    OpenRead(t, Parent(p));
    DenoteSubst(t, Parent(p), WithoutChild(u, Last(p)));
    DenoteWithoutChild(u, Last(p));
    RemoveBelowPlace(Denote(t), Parent(p), [Last(p)]);
  }

  /** A removal reports what the document shows, and leaves the document without that subtree. */
  lemma RemoveDenotes(t: Option<Tree>, p: Path)
    requires t.Some? ==> Distinct(t.value)
    ensures Removes(t, p) <==> p == [] || SubDoc(DocumentOf(t), p).Some?
    ensures DocumentOf(RemoveT(t, p)) == RemoveDoc(DocumentOf(t), p)
  {
    hide Distinct, RemoveIn, SetIn, Keys;
    if t.Some? && p != [] {
      LocateReadsDocument(t.value, p);
      match Locate(t.value, p)
      case Inside(e, at, rel) =>
        if rel != [] { RemoveInsideDenotes(t.value, p); } else { RemoveWholeDenotes(t.value, p); }
      case _ => RemoveWholeDenotes(t.value, p);
    }
  }

  lemma RemoveWholeDenotes(t: Tree, p: Path)
    requires p != [] && (Locate(t, p).Inside? ==> Locate(t, p).rel == [])
    requires Distinct(t)
    ensures DocumentOf(RemoveWhole(Some(t), p)) == Some(RemoveIn(Denote(t), p))
  {
    hide Distinct, RemoveIn, Keys;
    LocateReadsDocument(t, p);
    if At(t, p).Some? {
      RemoveRelDenotes(t, p);
    } else {
      RemoveNothing(Denote(t), p);
    }
  }

  lemma RemoveInsideDenotes(t: Tree, p: Path)
    requires Distinct(t) && Locate(t, p).Inside? && Locate(t, p).rel != []
    ensures DocumentOf(RemoveT(Some(t), p)) == Some(RemoveIn(Denote(t), p))
  {
    hide Distinct, RemoveIn, SetIn, Keys;
    var Inside(e, at, rel) := Locate(t, p);
    LocateReadsDocument(t, p);
    if At(e.inner, rel).Some? {
      LocateOpen(t, p);
      OpenRead(t, at);
      RemoveRelDenotes(e.inner, rel);
      DenoteSubstPacked(t, at, e, RemoveRelT(e.inner, rel).value);
      RemoveBelowPlace(Denote(t), at, rel);
    } else {
      RemoveNothing(Denote(t), p);
    }
  }

  // ----- what a removal leaves readable ---------------------------------------

  lemma {:induction false} SubtreeSplit(v: Value, p: Path, q: Path)
    ensures Subtree(v, p + q) == match Subtree(v, p) case Some(u) => Subtree(u, q) case None => None
    decreases p
  {
    if p == [] {
      assert p + q == q;
    } else {
      assert (p + q)[1..] == p[1..] + q;
      if Step(v, p[0]).Some? {
        SubtreeSplit(Step(v, p[0]).value, p[1..], q);
      }
    }
  }

  /** What is read below the parent of a removed place: the name is gone, the rest
      of an object is as before, and a list's later elements each move up by one. */
  lemma ReadAfterRemove(v: Value, p: Path, seg: Segment, q: Path)
    requires p != [] && Subtree(v, p).Some?
    ensures Subtree(RemoveIn(v, p), Parent(p) + [seg] + q)
         == match (Last(p), seg)
            case (Index(i), Index(j)) => Subtree(v, Parent(p) + [Index(if j < i then j else j + 1)] + q)
            case (Name(n), Name(m)) => if m == n then None else Subtree(v, Parent(p) + [seg] + q)
            case _ => None
  {
    RemovedParent(v, p);
    var u := Subtree(v, Parent(p)).value;
    ReadBelow(RemoveIn(v, p), Parent(p), seg, q);
    ReadBelow(v, Parent(p), seg, q);
    match (Last(p), seg) {
      case (Index(i), Index(j)) => ReadBelow(v, Parent(p), Index(if j < i then j else j + 1), q);
      case _ =>
    }
  }

  lemma RemovedParent(v: Value, p: Path)
    requires p != [] && Subtree(v, p).Some?
    ensures Subtree(v, Parent(p)).Some? && Step(Subtree(v, Parent(p)).value, Last(p)).Some?
    ensures Subtree(RemoveIn(v, p), Parent(p)) == Some(RemoveIn(Subtree(v, Parent(p)).value, [Last(p)]))
  {
    hide SetIn, RemoveIn;
    var parent := Parent(p);
    assert p == parent + [Last(p)];
    SubtreeSplit(v, parent, [Last(p)]);
    var u := Subtree(v, parent).value;
    RemoveBelowPlace(v, parent, [Last(p)]);
    ReadAfterSet(v, parent, RemoveIn(u, [Last(p)]));
    StepInto(u, Last(p));
  }

  lemma ReadBelow(v: Value, p: Path, seg: Segment, q: Path)
    ensures Subtree(v, p + [seg] + q)
         == match Subtree(v, p) case None => None
            case Some(u) => (match Step(u, seg) case Some(c) => Subtree(c, q) case None => None)
  {
    SubtreeSplit(v, p, [seg] + q);
    assert p + [seg] + q == p + ([seg] + q);
    if Subtree(v, p).Some? {
      assert ([seg] + q)[0] == seg && ([seg] + q)[1..] == q;
    }
  }

  lemma StepInto(u: Value, seg: Segment)
    ensures Subtree(u, [seg]) == Step(u, seg)
  {
    if Step(u, seg).Some? { assert Subtree(Step(u, seg).value, [seg][1..]) == Step(u, seg); }
  }

  /** Off the removed place's line and its parent's, nothing changes. */
  lemma RemoveLeavesElsewhere(v: Value, p: Path, q: Path)
    requires p != [] && Subtree(v, p).Some? && !Comparable(Parent(p), q)
    ensures Subtree(RemoveIn(v, p), q) == Subtree(v, q)
  {
    var parent := Parent(p);
    assert p == parent + [Last(p)];
    SubtreeSplit(v, parent, [Last(p)]);
    RemoveBelowPlace(v, parent, [Last(p)]);
    ReadElsewhere(v, parent, q, RemoveIn(Subtree(v, parent).value, [Last(p)]));
  }

  // ----- the store's removal --------------------------------------------------

  lemma WithoutChildPackedFree(t: Tree, seg: Segment)
    requires PackedFree(t)
    ensures PackedFree(WithoutChild(t, seg))
  {}

  lemma RemoveExtends(inner: Tree, rel: Path, next: Skey)
    requires Sound(Some(inner), next) && PackedFree(inner) && rel != [] && At(inner, rel).Some?
    ensures Extends(Some(inner), next, Grown(RemoveRelT(inner, rel).value, next))
  {
    hide Distinct, Keys, PackedFree;
    assert rel == Parent(rel) + [Last(rel)];
    AtSplit(inner, Parent(rel), [Last(rel)]);
    var u := At(inner, Parent(rel)).value;
    ChildAt(u, Last(rel));
    AtKeys(inner, Parent(rel));
    WithoutChildKeys(u, Last(rel));
    WithoutChildDistinct(u, Last(rel));
    WithoutChildPackedFree(u, Last(rel));
    SubstShape(inner, Parent(rel), WithoutChild(u, Last(rel)));
    SubstPackedFree(inner, Parent(rel), WithoutChild(u, Last(rel)));
  }

  /** Removes the subtree at `path`; inside a packed entity its blob is edited, and
      rewritten only when something was there. */
  method RemovePathAt(s: TreeStore, path: Path) returns (removed: bool)
    requires s.Valid() && !s.store.Mem?
    modifies s`store, s`tree
    ensures s.Valid() && SameMode(old(s.store), s.store)
    ensures removed <==> Removes(old(s.tree), path)
    ensures s.tree == RemoveT(old(s.tree), path)
  {
    hide Rep, Keys, Distinct;
    TableHeld(s.store, s.tree);
    var found := LocateKey(s.store, path, s.tree);
    if found.AtPacked? && found.rel != [] {
      removed := RemoveInside(s, found.entity, found.rel, LocateDoc(s.tree, path).at);
    } else {
      removed := s.RemoveRel(path);
    }
  }

  method RemoveInside(s: TreeStore, entity: Skey, rel: Path, ghost at: Path) returns (removed: bool)
    requires s.Valid() && !s.store.Mem? && IsPacked(s.tree, at, entity) && rel != []
    modifies s`store, s`tree
    ensures s.Valid() && SameMode(old(s.store), s.store)
    ensures removed <==> At(At(old(s.tree).value, at).value.inner, rel).Some?
    ensures s.tree == if removed
                      then Some(Subst(old(s.tree).value, at, Packed(entity, RemoveRelT(At(old(s.tree).value, at).value.inner, rel).value)))
                      else old(s.tree)
  {
    hide Rep, Keys, Distinct, FromBlob;
    ghost var t, inner := s.tree.value, At(s.tree.value, at).value.inner;
    PackedEntry(s.store, t, at, s.issued);
    var cells := FromBlob(s.store.NodeOf(entity).value.blob).value;
    var mem := new TreeStore.Decoded(Mem(cells), s.issued, inner);
    removed := mem.RemoveRel(rel);
    if removed {
      RemoveExtends(inner, rel, s.issued);
      GrownFits(t, at, s.issued, Grown(RemoveRelT(inner, rel).value, s.issued));
      var node := IntoPacked(mem.store.cells, mem.tree);
      s.WritePacked(entity, node, at, mem.tree.value);
    }
  }
}
