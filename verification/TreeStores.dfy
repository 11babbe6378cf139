/** The tree operations, run on a store in the engine's own steps.

    `tree` is the keyed tree the store holds between operations. A mutation that
    reports success leaves the store holding exactly the tree its counterpart in
    Trees yields; after an error nothing is promised, since a path write may stop
    with some containers already made. */
module TreeStores {
  import opened Basics
  import opened Scalars
  import opened ScalarCodec
  import opened Skeys
  import opened Paths
  import opened Values
  import opened Trees
  import opened TreeLaws
  import opened Blobs
  import opened Backends
  import opened Walks
  import opened Edits
  import opened Repacking

  class TreeStore {
    var store: Backend
    var issued: Skey
    ghost var tree: Option<Tree>

    ghost predicate Valid()
      reads this
    {
      !store.Archived? && Sound(tree, issued) && Holds(store, tree)
    }

    /** The store is in a valid state and holds the outcome `r`. */
    ghost predicate Reached(r: Option<Grown>)
      reads this
    {
      Valid() && r.Some? && tree == Some(r.value.tree) && issued == r.value.next
    }

    /** A store over an empty backend; `next` is where the key generator stands. */
    constructor (b: Backend, next: Skey)
      requires next > ROOT && !b.Archived? && forall k :: Blank(b, k)
      ensures Valid() && tree == None && issued == next && store == b
    {
      store, issued, tree := b, next, None;
    }

    /** A store over the decoded table of a packed entity. */
    constructor Decoded(b: Backend, next: Skey, ghost inner: Tree)
      requires b.Mem? && Holds(b, Some(inner)) && Sound(Some(inner), next)
      ensures Valid() && tree == Some(inner) && issued == next && store == b
    {
      store, issued, tree := b, next, Some(inner);
    }

    /** A key the generator has not produced before. */
    method Generate() returns (key: Skey)
      modifies this`issued
      ensures key == old(issued) && issued == key + 1
    {
      key := issued;
      issued := issued + 1;
    }

    // ----- containers ---------------------------------------------------------

    /** Ensures the anchor itself: its kind is checked, and an absent table root is made. */
    method EnsureAnchor(root: Skey, list: bool, ghost base: Path) returns (r: Result<Skey>)
      requires Valid() && Anchored(tree, root, base)
      modifies this
      ensures r.Ok? <==> EnsureT(old(tree), base, list, old(issued)).Some?
      ensures r.Ok? ==> Reached(EnsureT(old(tree), base, list, old(issued))) && SameMode(old(store), store)
      ensures r.Ok? ==> r.value == root
      ensures r.Ok? ==> At(tree.value, base).Some? && At(tree.value, base).value.key == root
    {
      assert base + [] == base;
      AnchorHolds(store, tree, issued, root, base, []);
      var found := store.NodeOf(root);
      if found.Some? {
        NodeKindIs(store, AtDoc(tree, base).value);
        return if NodeKind(found.value) == ContainerKind(list) then Ok(root) else Err(UnexpectedNode);
      }
      if root != ROOT {
        return Err(Corrupt);
      }
      PutNodeEffect(store, ROOT, EmptyNode(list));
      EmptyHolds(store, store.PutNode(ROOT, EmptyNode(list)).value, list);
      store := store.PutNode(ROOT, EmptyNode(list)).value;
      tree := Some(EmptyContainer(ROOT, list));
      return Ok(ROOT);
    }

    /** The container already at `rel`, its kind checked, or `None` when nothing is there. */
    method FindContainer(root: Skey, rel: Path, list: bool, ghost base: Path) returns (r: Option<Result<Skey>>)
      requires Valid() && Anchored(tree, root, base) && rel != []
      ensures r.None? <==> AtDoc(tree, base + rel).None?
      ensures r.Some? && r.value.Ok? ==> r.value.value == AtDoc(tree, base + rel).value.key
      ensures r.Some? ==> (r.value.Ok? <==> KindOf(AtDoc(tree, base + rel).value) == ContainerKind(list))
    {
      AnchorHolds(store, tree, issued, root, base, rel);
      WalkFollowsTree(store, root, AtDoc(tree, base), rel);
      var resolved := ResolveFrom(store, root, rel);
      if resolved.None? {
        return None;
      }
      AtRep(store, tree.value, base + rel);
      NodeKindIs(store, At(tree.value, base + rel).value);
      var node := store.NodeOf(resolved.value).value;
      return Some(if NodeKind(node) == ContainerKind(list) then Ok(resolved.value) else Err(UnexpectedNode));
    }

    /** Ensures a container at `rel` below the anchor, creating missing ancestors, and returns its key. */
    method EnsureContainerRel(root: Skey, rel: Path, list: bool, ghost base: Path) returns (r: Result<Skey>)
      requires Valid() && Anchored(tree, root, base) && OpenDoc(tree, base + rel)
      modifies this
      ensures r.Ok? <==> EnsureT(old(tree), base + rel, list, old(issued)).Some?
      ensures r.Ok? ==> Reached(EnsureT(old(tree), base + rel, list, old(issued))) && SameMode(old(store), store)
      ensures r.Ok? ==> r.value == At(tree.value, base + rel).value.key
      decreases |rel|, 1
    {
      if rel == [] {
        assert base + rel == base;
        r := EnsureAnchor(root, list, base);
        return;
      }
      var found := FindContainer(root, rel, list, base);
      if found.Some? {
        return found.value;
      }
      r := MakeContainer(root, rel, list, base);
    }

    /** Creates the missing container at `rel`, after its parent. */
    method MakeContainer(root: Skey, rel: Path, list: bool, ghost base: Path) returns (r: Result<Skey>)
      requires Valid() && Anchored(tree, root, base) && OpenDoc(tree, base + rel)
      requires rel != [] && AtDoc(tree, base + rel).None?
      modifies this
      ensures r.Ok? <==> EnsureT(old(tree), base + rel, list, old(issued)).Some?
      ensures r.Ok? ==> Reached(EnsureT(old(tree), base + rel, list, old(issued))) && SameMode(old(store), store)
      ensures r.Ok? ==> r.value == At(tree.value, base + rel).value.key
      decreases |rel|, 0
    {
      hide Rep, Keys, Distinct, AttachT, WithChild, Subst, EnsureT, Open;
      ghost var t, next, full := tree, issued, base + rel;
      assert Parent(full) == base + Parent(rel) && Last(full) == Last(rel);
      OpenParent(tree, full);
      EnsureUnfolds(tree, full, list, issued);
      var parent := EnsureContainerRel(root, Parent(rel), Last(rel).Index?, base);
      if parent.Err? {
        return Err(parent.error);
      }
      ghost var g := Grown(tree.value, issued);
      ghost var made := AttachT(g, full, EmptyContainer(g.next, list));
      assert EnsureT(t, full, list, next) == made;
      var key := Generate();
      var linked := LinkContainer(store, parent.value, Last(rel), key, list, t, next, full, g);
      if linked.Err? {
        return Err(linked.error);
      }
      store := linked.value;
      tree := Some(made.value.tree);
      r := Ok(key);
    }

    // ----- scalars ------------------------------------------------------------

    /** Makes the table root a leaf, dropping whatever it held. */
    method PutRootScalar(s: Scalar)
      requires Valid()
      modifies this
      ensures Reached(PutRelT(old(tree), [], s, old(issued))) && SameMode(old(store), store)
    {
      var cleared := store;
      assert tree.None? ==> Blank(store, ROOT);
      if store.NodeOf(ROOT).Some? {
        cleared := CascadeDelete(store, ROOT, tree.value);
      }
      RootCleared(store, cleared, tree);
      assert Blank(cleared, ROOT);
      PutNodeEffect(cleared, ROOT, NLeaf(s));
      RootLeafHolds(cleared, cleared.PutNode(ROOT, NLeaf(s)).value, s);
      store := cleared.PutNode(ROOT, NLeaf(s)).value;
      tree := Some(Leaf(ROOT, s));
    }

    /** Stores a scalar at `rel` below the anchor, creating ancestors and replacing what was there. */
    method PutScalarRel(root: Skey, rel: Path, s: Scalar, ghost base: Path) returns (r: Result<()>)
      requires Valid() && Anchored(tree, root, base) && OpenDoc(tree, base + rel) && (rel == [] ==> base == [])
      modifies this
      ensures r.Ok? <==> PutRelT(old(tree), base + rel, s, old(issued)).Some?
      ensures r.Ok? ==> Reached(PutRelT(old(tree), base + rel, s, old(issued))) && SameMode(old(store), store)
    {
      if rel == [] {
        PutRootScalar(s);
        return Ok(());
      }
      r := PutScalarBelow(root, rel, s, base);
    }

    method PutScalarBelow(root: Skey, rel: Path, s: Scalar, ghost base: Path) returns (r: Result<()>)
      requires Valid() && Anchored(tree, root, base) && OpenDoc(tree, base + rel) && rel != []
      modifies this
      ensures r.Ok? <==> PutRelT(old(tree), base + rel, s, old(issued)).Some?
      ensures r.Ok? ==> Reached(PutRelT(old(tree), base + rel, s, old(issued))) && SameMode(old(store), store)
    {
      hide Rep, Keys, Distinct, AttachT, WithChild, Subst, Open;
      ghost var t, next, full := tree, issued, base + rel;
      assert Parent(full) == base + Parent(rel) && Last(full) == Last(rel);
      OpenParent(tree, full);
      var parent := EnsureContainerRel(root, Parent(rel), Last(rel).Index?, base);
      if parent.Err? {
        return Err(parent.error);
      }
      ghost var g := Grown(tree.value, issued);
      ghost var c := Leaf(issued, s);
      EnsuredFits(t, full, next);
      FreshLeaf(g.tree, g.next, s);
      var leaf := Generate();
      var linked := ReplaceAtLast(store, parent.value, Last(rel), leaf, NLeaf(s), g, full, c);
      if linked.Err? {
        return Err(linked.error);
      }
      store := linked.value;
      tree := Some(AttachT(g, full, c).value.tree);
      r := Ok(());
    }

    // ----- removal ------------------------------------------------------------

    /** Removes the subtree at `rel` and reports whether anything was removed; at the
        empty path it always reports so, even over an empty table. */
    method RemoveRel(rel: Path) returns (removed: bool)
      requires Valid()
      modifies this`store, this`tree
      ensures Valid() && SameMode(old(store), store)
      ensures rel == [] ==> removed && tree == None
      ensures rel != [] ==> (removed <==> AtDoc(old(tree), rel).Some?)
      ensures rel != [] ==> tree == if removed then RemoveRelT(old(tree).value, rel) else old(tree)
    {
      AnchorHolds(store, tree, issued, ROOT, [], rel);
      WalkFollowsTree(store, ROOT, tree, rel);
      assert [] + rel == rel;
      var key := ResolveFrom(store, ROOT, rel);
      if key.None? {
        return false;
      }
      if rel == [] {
        RemoveRoot();
      } else {
        RemoveBelow(rel, key.value);
      }
      return true;
    }

    /** Deletes the whole table; over an empty one there is no node to delete. */
    method RemoveRoot()
      requires Valid()
      modifies this`store, this`tree
      ensures Valid() && SameMode(old(store), store) && tree == None
    {
      var cleared := store;
      assert tree.None? ==> Blank(store, ROOT);
      if store.NodeOf(ROOT).Some? {
        cleared := CascadeDelete(store, ROOT, tree.value);
      }
      RootCleared(store, cleared, tree);
      store := cleared;
      tree := None;
    }

    method RemoveBelow(rel: Path, key: Skey)
      requires Valid() && rel != [] && AtDoc(tree, rel).Some? && AtDoc(tree, rel).value.key == key
      modifies this`store, this`tree
      ensures Valid() && SameMode(old(store), store)
      ensures tree == RemoveRelT(old(tree).value, rel) && tree.Some?
    {
      hide Rep, Keys, Distinct, Subst;
      ghost var t := tree.value;
      RemovalPoint(store, t, rel);
      var cleared := CascadeDelete(store, key, At(t, rel).value);
      WalkToParent(store, cleared, t, rel);
      var parent := ResolveFrom(cleared, ROOT, Parent(rel));
      ParentEntry(store, cleared, t, rel);
      var detached := DetachChild(cleared, parent.value, Last(rel));
      DetachedHolds(store, cleared, detached, t, rel);
      RemoveSound(t, rel, issued);
      store := detached;
      tree := RemoveRelT(t, rel);
    }

    // ----- packed entities ----------------------------------------------------

    /** Overwrites a packed node under its own key, the entity's link untouched. */
    method WritePacked(entity: Skey, node: Node, ghost at: Path, ghost inner: Tree)
      requires Valid() && !store.Mem? && IsPacked(tree, at, entity)
      requires Lone(node, Packed(entity, inner)) && OwnOrFresh(tree.value, At(tree.value, at).value, inner)
      requires Distinct(Packed(entity, inner)) && Sound(Some(Subst(tree.value, at, Packed(entity, inner))), issued)
      modifies this`store, this`tree
      ensures Valid() && SameMode(old(store), store)
      ensures tree == Some(Subst(old(tree).value, at, Packed(entity, inner)))
    {
      AtRep(store, tree.value, at);
      PutNodeEffect(store, entity, node);
      RepackHolds(store, store.PutNode(entity, node).value, tree.value, at, inner);
      store := store.PutNode(entity, node).value;
      tree := Some(Subst(tree.value, at, Packed(entity, inner)));
    }

    /** Stores a scalar inside a packed entity: spliced over an equally long leaf, or
        through the decoded table otherwise. */
    method PutScalarIntoPacked(entity: Skey, rel: Path, s: Scalar, ghost at: Path) returns (r: Result<()>)
      requires Valid() && !store.Mem? && IsPacked(tree, at, entity)
      modifies this
      ensures r.Ok? <==> PutInsideT(At(old(tree).value, at).value.inner, rel, s, old(issued)).Some?
      ensures r.Ok? ==> Reached(Repacked(old(tree).value, at, PutInsideT(At(old(tree).value, at).value.inner, rel, s, old(issued))))
      ensures r.Ok? ==> SameMode(old(store), store)
    {
      hide Rep, Keys, Distinct, Decode, Encode, Denote, PutRelT, KindOf;
      ghost var t, inner := tree.value, At(tree.value, at).value.inner;
      PackedEntry(store, t, at, issued);
      var blob := store.NodeOf(entity).value.blob;
      var span := SameLengthLeaf(blob, rel, s, inner);
      if span.Some? {
        SpliceScalar(entity, rel, s, span.value.0, at);
        return Ok(());
      }
      NotSameLength(inner, rel, s, issued);
      r := RewritePacked(entity, blob, rel, s, at);
    }

    /** The fast write: the new encoding replaces the old leaf's bytes, and nothing is decoded. */
    method SpliceScalar(entity: Skey, rel: Path, s: Scalar, offset: nat, ghost at: Path)
      requires Valid() && !store.Mem? && IsPacked(tree, at, entity)
      requires SameLength(At(tree.value, at).value.inner, rel, s)
      requires store.NodeOf(entity).Some? && Lone(store.NodeOf(entity).value, At(tree.value, at).value)
      requires LeafByteSpan(store.NodeOf(entity).value.blob, At(At(tree.value, at).value.inner, rel).value.key)
            == Some((offset, |Encode(s)|))
      modifies this`store, this`tree
      ensures Reached(Repacked(old(tree).value, at, PutInsideT(At(old(tree).value, at).value.inner, rel, s, issued)))
      ensures SameMode(old(store), store)
    {
      hide Rep, Keys, Distinct, Decode, Encode, Denote, PutRelT, KindOf;
      ghost var t, inner := tree.value, At(tree.value, at).value.inner;
      var packed := store.NodeOf(entity).value;
      PackedEntry(store, t, at, issued);
      PutInsideReady(t, at, rel, s, issued);
      SpliceHolds(packed.blob, inner, rel, s);
      SpliceKind(inner, rel, s);
      var patched := Blob(packed.blob.nodes, Splice(packed.blob.bytes, offset, Encode(s)));
      WritePacked(entity, NPacked(packed.root, patched), at, Subst(inner, rel, Leaf(At(inner, rel).value.key, s)));
    }

    /** The general write: decode the blob, store in the decoded table, and pack it again. */
    method RewritePacked(entity: Skey, blob: Blob, rel: Path, s: Scalar, ghost at: Path) returns (r: Result<()>)
      requires Valid() && !store.Mem? && IsPacked(tree, at, entity)
      requires HoldsBlob(blob, At(tree.value, at).value.inner)
      requires PutInsideT(At(tree.value, at).value.inner, rel, s, issued)
            == PutRelT(Some(At(tree.value, at).value.inner), rel, s, issued)
      modifies this
      ensures r.Ok? <==> PutInsideT(At(old(tree).value, at).value.inner, rel, s, old(issued)).Some?
      ensures r.Ok? ==> Reached(Repacked(old(tree).value, at, PutInsideT(At(old(tree).value, at).value.inner, rel, s, old(issued))))
      ensures r.Ok? ==> SameMode(old(store), store)
    {
      hide Rep, Keys, Distinct, Subst, Encode, WellFormed, FromBlob;
      ghost var t, inner, next := tree.value, At(tree.value, at).value.inner, issued;
      InnerSound(t, at, issued);
      DenoteAt(inner, rel);
      var mem := new TreeStore.Decoded(Mem(FromBlob(blob).value), issued, inner);
      assert [] + rel == rel;
      var put := mem.PutScalarRel(ROOT, rel, s, []);
      if put.Err? {
        return Err(put.error);
      }
      PutInsideReady(t, at, rel, s, next);
      var node := IntoPacked(mem.store.cells, mem.tree);
      KeysRise(tree, issued, mem.issued);
      issued := mem.issued;
      WritePacked(entity, node, at, mem.tree.value);
      r := Ok(());
    }

    /** Stores a scalar at `path`, wherever the path leads. */
    method PutScalarPath(path: Path, s: Scalar) returns (r: Result<()>)
      requires Valid() && !store.Mem?
      modifies this
      ensures r.Ok? <==> PutT(old(tree), path, s, old(issued)).Some?
      ensures r.Ok? ==> Reached(PutT(old(tree), path, s, old(issued))) && SameMode(old(store), store)
    {
      TableHeld(store, tree);
      assert [] + path == path;
      var found := LocateKey(store, path, tree);
      match found
      case AtPacked(entity, rel) =>
        r := PutScalarIntoPacked(entity, rel, s, LocateDoc(tree, path).at);
      case _ =>
        r := PutScalarRel(ROOT, path, s, []);
    }
  }
}
