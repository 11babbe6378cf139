/** Rewriting a packed entity in place: its blob edited, built afresh, or spilled
    back into the store. */
module Repacking {
  import opened Basics
  import opened Scalars
  import opened ScalarCodec
  import opened Skeys
  import opened Paths
  import opened Values
  import opened Trees
  import opened TreeLaws
  import opened Blobs
  import opened Backends
  import opened Walks
  import opened Edits

  /** The inner tree's keys, but for its root, are the entity's own or fresh. */
  predicate OwnOrFresh(t: Tree, e: Tree, inner: Tree)
    requires e.Packed?
  {
    forall k | k in Keys(inner) :: k == ROOT || k in Keys(e.inner) || k !in Keys(t)
  }

  /** A packed node rewritten under its own key holds the new inner tree there. */
  lemma RepackHolds(b: Backend, c: Backend, t: Tree, at: Path, inner: Tree)
    requires Holds(b, Some(t)) && Distinct(t) && At(t, at).Some? && At(t, at).value.Packed?
    requires SameOff(b, c, {At(t, at).value.key}) && NoLinks(c, At(t, at).value.key)
    requires c.NodeOf(At(t, at).value.key).Some? && Lone(c.NodeOf(At(t, at).value.key).value, Packed(At(t, at).value.key, inner))
    requires Distinct(Packed(At(t, at).value.key, inner)) && OwnOrFresh(t, At(t, at).value, inner)
    ensures Holds(c, Some(Subst(t, at, Packed(At(t, at).value.key, inner))))
  {
    var e := At(t, at).value;
    var e' := Packed(e.key, inner);
    AtRep(b, t, at);
    AtKeys(t, at);
    KeyIsOwn(e);
    forall x | x in Keys(e') - {e.key} ensures Blank(c, x) {
      assert Blank(b, x) && SameAt(b, c, x);
    }
    LoneRep(c, c.NodeOf(e.key).value, e');
    SubstRep(b, c, t, at, e');
    SubstShape(t, at, e');
    RepackBlank(b, c, t, e, e', Keys(Subst(t, at, e')));
  }

  lemma RepackBlank(b: Backend, c: Backend, t: Tree, e: Tree, e': Tree, keys: set<Skey>)
    requires Holds(b, Some(t)) && Rep(b, e) && e.Packed? && e'.Packed? && e.key == e'.key
    requires SameOff(b, c, {e.key}) && keys == Keys(t) - Keys(e) + Keys(e')
    ensures forall k | k !in keys :: Blank(c, k)
  {
    KeyIsOwn(e');
    forall k | k !in keys ensures Blank(c, k) {
      assert SameAt(b, c, k);
      assert k !in Keys(t) ==> Blank(b, k);
    }
  }

  lemma {:induction false} KindAfterSubst(t: Tree, p: Path, u: Tree)
    requires At(t, p).Some? && KindOf(u) == KindOf(At(t, p).value)
    ensures KindOf(Subst(t, p, u)) == KindOf(t)
  {
    if p != [] {
      match t
      case List(_, _) =>
      case Object(_, _) =>
    }
  }

  /** One leaf of an in-memory table overwritten under its own key. */
  lemma LeafOverwritten(cells: MemNodes, inner: Tree, rel: Path, s: Scalar)
    requires Holds(Mem(cells), Some(inner)) && Distinct(inner)
    requires At(inner, rel).Some? && At(inner, rel).value.Leaf?
    ensures Holds(Mem(cells[At(inner, rel).value.key := MLeaf(s)]), Some(Subst(inner, rel, Leaf(At(inner, rel).value.key, s))))
  {
    var k := At(inner, rel).value.key;
    var b, c := Mem(cells), Mem(cells[k := MLeaf(s)]);
    AtRep(b, inner, rel);
    AtKeys(inner, rel);
    PutNodeEffect(b, k, NLeaf(s));
    assert SameOff(b, c, {k}) by {
      assert b.PutNode(k, NLeaf(s)).value == c;
    }
    LoneRep(c, NLeaf(s), Leaf(k, s));
    SubstRep(b, c, inner, rel, Leaf(k, s));
    SubstShape(inner, rel, Leaf(k, s));
    forall x | x !in Keys(inner) ensures Blank(c, x) {
      assert Blank(b, x) && SameAt(b, c, x);
    }
  }

  /** Navigating the archived blob follows the inner tree. */
  lemma ArchivedHolds(blob: Blob, inner: Tree)
    requires HoldsBlob(blob, inner)
    ensures Rep(Archived(blob), inner)
  {
    forall k ensures SameAt(Mem(FromBlob(blob).value), Archived(blob), k) {
      ArchiveAgrees(blob, k);
    }
    RepFrame(Mem(FromBlob(blob).value), Archived(blob), inner);
  }

  /** The leaf a path inside a blob leads to, when its encoding is as long as the new one. */
  method SameLengthLeaf(blob: Blob, rel: Path, s: Scalar, ghost inner: Tree) returns (span: Option<(nat, nat)>)
    requires HoldsBlob(blob, inner) && inner.key == ROOT
    ensures span.Some? <==> SameLength(inner, rel, s)
    ensures span.Some? ==> LeafByteSpan(blob, At(inner, rel).value.key) == span && span.value.1 == |Encode(s)|
  {
    var encoded := Encode(s);
    ArchivedHolds(blob, inner);
    WalkFollowsTree(Archived(blob), ROOT, Some(inner), rel);
    var key := ResolveFrom(Archived(blob), ROOT, rel);
    if key.None? {
      return None;
    }
    if rel == [] { assert At(inner, rel) == Some(inner); }
    SpanIsLeaf(blob, inner, rel);
    span := LeafByteSpan(blob, key.value);
    if span.Some? && span.value.1 != |encoded| {
      span := None;
    }
  }

  predicate SameLength(inner: Tree, rel: Path, s: Scalar) {
    && At(inner, rel).Some? && At(inner, rel).value.Leaf?
    && |Encode(At(inner, rel).value.scalar)| == |Encode(s)|
  }

  lemma SpanIsLeaf(blob: Blob, inner: Tree, rel: Path)
    requires HoldsBlob(blob, inner) && At(inner, rel).Some?
    ensures LeafByteSpan(blob, At(inner, rel).value.key).Some? <==> At(inner, rel).value.Leaf?
    ensures At(inner, rel).value.Leaf? ==>
              LeafByteSpan(blob, At(inner, rel).value.key).value.1 == |Encode(At(inner, rel).value.scalar)|
  {
    AtRep(Mem(FromBlob(blob).value), inner, rel);
    SpanLength(blob, At(inner, rel).value.key);
  }

  /** The fast write: the new encoding spliced over the old leaf's bytes. */
  lemma SpliceHolds(blob: Blob, inner: Tree, rel: Path, s: Scalar)
    requires HoldsBlob(blob, inner) && Distinct(inner)
    requires At(inner, rel).Some? && At(inner, rel).value.Leaf?
    requires |Encode(At(inner, rel).value.scalar)| == |Encode(s)|
    ensures LeafByteSpan(blob, At(inner, rel).value.key).Some?
    ensures var span := LeafByteSpan(blob, At(inner, rel).value.key).value;
            span.0 + |Encode(s)| <= |blob.bytes|
            && HoldsBlob(Blob(blob.nodes, Splice(blob.bytes, span.0, Encode(s))), Subst(inner, rel, Leaf(At(inner, rel).value.key, s)))
  {
    var k := At(inner, rel).value.key;
    AtRep(Mem(FromBlob(blob).value), inner, rel);
    SpanLength(blob, k);
    SpliceOneLeaf(blob, k, s);
    LeafOverwritten(FromBlob(blob).value, inner, rel, s);
  }

  /** Packs an in-memory table: its root's kind, and its blob. A store never written packs as an empty object. */
  method IntoPacked(cells: MemNodes, ghost t: Option<Tree>) returns (node: Node)
    requires Holds(Mem(cells), t) && (t.Some? ==> t.value.key == ROOT)
    ensures node.NPacked? && node.root == KindOf(PackedRoot(t)) && HoldsBlob(node.blob, PackedRoot(t))
  {
    var root := if ROOT in cells then NodeKind(EngineNode(cells[ROOT])) else KObject;
    var blob := IntoBlob(cells);
    if t.Some? {
      NodeKindIs(Mem(cells), t.value);
      assert ROOT in cells;
    } else {
      assert forall k :: Blank(Mem(cells), k);
      EmptyTable(cells);
      EmptyRootHolds();
    }
    node := NPacked(root, blob);
  }

  /** What a table packs as. */
  function PackedRoot(t: Option<Tree>): Tree {
    match t case Some(u) => u case None => Object(ROOT, map[])
  }

  lemma EmptyTable(cells: MemNodes)
    requires forall k :: Blank(Mem(cells), k)
    ensures cells == map[]
  {
    forall k ensures k !in cells {
      assert Blank(Mem(cells), k);
    }
  }

  lemma EmptyRootHolds()
    ensures Holds(Mem(map[ROOT := MObject(map[])]), Some(Object(ROOT, map[])))
  {
    var b := Mem(map[ROOT := MObject(map[])]);
    LoneRep(b, NObject, Object(ROOT, map[]));
  }

  predicate IsPacked(t: Option<Tree>, at: Path, entity: Skey) {
    AtDoc(t, at).Some? && AtDoc(t, at).value.Packed? && AtDoc(t, at).value.key == entity
  }

  /** The outcome of an edit inside the entity at `at`, seen from the whole table. */
  function Repacked(t: Tree, at: Path, r: Option<Grown>): Option<Grown>
    requires At(t, at).Some?
  {
    match r
    case Some(g) => Some(Grown(Subst(t, at, Packed(At(t, at).value.key, g.tree)), g.next))
    case None => None
  }

  lemma PackedEntry(b: Backend, t: Tree, at: Path, next: Skey)
    requires Holds(b, Some(t)) && Sound(Some(t), next) && At(t, at).Some? && At(t, at).value.Packed?
    ensures b.NodeOf(At(t, at).value.key).Some?
    ensures Lone(b.NodeOf(At(t, at).value.key).value, At(t, at).value)
    ensures Sound(Some(At(t, at).value.inner), next) && PackedFree(At(t, at).value.inner) && Distinct(At(t, at).value.inner)
  {
    AtRep(b, t, at);
    AtKeys(t, at);
    InnerSound(t, at, next);
  }

  lemma GrownFits(t: Tree, at: Path, next: Skey, g: Grown)
    requires Sound(Some(t), next) && At(t, at).Some? && At(t, at).value.Packed?
    requires Extends(Some(At(t, at).value.inner), next, g)
    ensures OwnOrFresh(t, At(t, at).value, g.tree)
    ensures Distinct(Packed(At(t, at).value.key, g.tree))
    ensures Sound(Some(Subst(t, at, Packed(At(t, at).value.key, g.tree))), g.next)
  {
    AtKeys(t, at);
    KeyIsOwn(At(t, at).value);
    RepackSound(t, at, next, g);
  }

  lemma PutInsideReady(t: Tree, at: Path, rel: Path, s: Scalar, next: Skey)
    requires Sound(Some(t), next) && At(t, at).Some? && At(t, at).value.Packed?
    requires PutInsideT(At(t, at).value.inner, rel, s, next).Some?
    ensures OwnOrFresh(t, At(t, at).value, PutInsideT(At(t, at).value.inner, rel, s, next).value.tree)
    ensures Distinct(Packed(At(t, at).value.key, PutInsideT(At(t, at).value.inner, rel, s, next).value.tree))
    ensures Sound(Some(Subst(t, at, Packed(At(t, at).value.key, PutInsideT(At(t, at).value.inner, rel, s, next).value.tree))),
                  PutInsideT(At(t, at).value.inner, rel, s, next).value.next)
    ensures next <= PutInsideT(At(t, at).value.inner, rel, s, next).value.next
  {
    InnerSound(t, at, next);
    PutInsideExtends(At(t, at).value.inner, rel, s, next);
    GrownFits(t, at, next, PutInsideT(At(t, at).value.inner, rel, s, next).value);
  }

  lemma SpliceKind(inner: Tree, rel: Path, s: Scalar)
    requires SameLength(inner, rel, s)
    ensures KindOf(Subst(inner, rel, Leaf(At(inner, rel).value.key, s))) == KindOf(inner)
  {
    KindAfterSubst(inner, rel, Leaf(At(inner, rel).value.key, s));
  }

  lemma NotSameLength(inner: Tree, rel: Path, s: Scalar, next: Skey)
    requires !SameLength(inner, rel, s)
    ensures PutInsideT(inner, rel, s, next) == PutRelT(Some(inner), rel, s, next)
  {}

  /** A later supply keeps a table sound. */
  lemma KeysRise(t: Option<Tree>, next: Skey, later: Skey)
    requires Sound(t, next) && next <= later
    ensures Sound(t, later)
  {}

  lemma TableHeld(b: Backend, t: Option<Tree>)
    requires Holds(b, t) && (t.Some? ==> t.value.key == ROOT)
    ensures HoldsAt(b, ROOT, t)
  {
    if t.None? { assert Blank(b, ROOT); }
  }
}
