/** Storing a whole value: decomposed into nodes, or packed into one entity. */
module Storing {
  import opened Basics
  import opened Bytes
  import opened Scalars
  import opened Skeys
  import opened Paths
  import opened Values
  import opened Trees
  import opened TreeLaws
  import opened Blobs
  import opened Backends
  import opened Walks
  import opened Edits
  import opened Repacking
  import opened TreeStores
  import opened Removal
  import opened Elsewhere

  // ----- writing a value node by node -------------------------------------------

  /** No entry is named `.` or `..`. */
  predicate GoodNames(v: Value) {
    match v
    case VLeaf(_) => true
    case VList(items) => forall i | 0 <= i < |items| :: GoodNames(items[i])
    case VNode(entries) => forall n | n in entries :: n != "." && n != ".." && GoodNames(entries[n])
  }

  predicate PackedThere(t: Option<Tree>, p: Path) { AtDoc(t, p).Some? && AtDoc(t, p).value.Packed? }

  /** No packed entity stands at `p` or below. */
  ghost predicate NothingPacked(t: Option<Tree>, p: Path) { forall q | p <= q :: !PackedThere(t, q) }

  /** At `p` stands one packed entity, or else nothing is packed there or below. */
  ghost predicate Formed(t: Option<Tree>, p: Path, packed: bool) {
    if packed then PackedThere(t, p) else NothingPacked(t, p)
  }

  /** `v` now stands at `p`, node by node on new keys, and nothing off its path has changed. */
  ghost predicate Wrote(t: Option<Tree>, next: Skey, t': Option<Tree>, next': Skey, p: Path, v: Value) {
    && t'.Some?
    && SetDoc(DocumentOf(t), p, v) == Some(Denote(t'.value))
    && Extends(t, next, Grown(t'.value, next'))
    && Untouched(t, t', p)
    && At(t'.value, p).Some? && NothingPacked(t', p)
  }

  /** A leaf or an empty container has nothing below it. */
  lemma PlainPlace(t: Tree, p: Path, x: Value)
    requires Subtree(Denote(t), p) == Some(x) && At(t, p).Some? && !At(t, p).value.Packed?
    requires x.VLeaf? || x == VList([]) || x == VNode(map[])
    ensures NothingPacked(Some(t), p)
  {
    var u := At(t, p).value;
    AtIsOpen(t, p);
    OpenRead(t, p);
    forall q | p <= q ensures !PackedThere(Some(t), q) {
      assert q == p + q[|p|..];
      AtSplit(t, p, q[|p|..]);
      if p != q {
        assert u.Object? ==> forall n | n in u.fields :: n in Denote(u).entries;
        assert Child(u, q[|p|]).None?;
      }
    }
  }

  /** Of one child nothing is packed, and of the others nothing was. */
  lemma NothingPackedBelow(t1: Option<Tree>, t2: Option<Tree>, p: Path, seg: Segment)
    requires NothingPacked(t1, p) && NothingPacked(t2, p + [seg]) && Untouched(t1, t2, p + [seg])
    requires AtDoc(t2, p + [seg]).Some?
    ensures NothingPacked(t2, p)
  {
    forall q | p <= q ensures !PackedThere(t2, q) {
      if p == q {
        AtSplit(t2.value, p, [seg]);
        ChildAt(At(t2.value, p).value, seg);
      } else if q[|p|] == seg {
        assert p + [seg] <= q;
      } else {
        assert !Comparable(p + [seg], q) by { assert (p + [seg])[|p|] != q[|p|]; }
        assert AtDoc(t2, q) == AtDoc(t1, q) && !PackedThere(t1, q);
      }
    }
  }

  lemma ExtendsTrans(t: Option<Tree>, next: Skey, g: Grown, h: Grown)
    requires Extends(t, next, g) && Extends(Some(g.tree), g.next, h)
    ensures Extends(t, next, h)
  {
    hide Distinct, Keys, PackedFree;
  }

  /** Writing a child of a value just written is writing the larger value. */
  lemma WroteBelow(t: Option<Tree>, next: Skey, t1: Option<Tree>, n1: Skey, t2: Option<Tree>, n2: Skey,
                   p: Path, y: Value, seg: Segment, x: Value, y': Value)
    requires Wrote(t, next, t1, n1, p, y) && Wrote(t1, n1, t2, n2, p + [seg], x)
    requires SetIn(y, [seg], x) == Some(y')
    ensures Wrote(t, next, t2, n2, p, y')
  {
    hide Denote, SetIn, Extends;
    SetDocThenSet(DocumentOf(t), p, y, [seg], x);
    ExtendsTrans(t, next, Grown(t1.value, n1), Grown(t2.value, n2));
    assert p <= p + [seg];
    UntouchedTrans(t, t1, t2, p, p + [seg]);
    AtSplit(t2.value, p, [seg]);
    NothingPackedBelow(t1, t2, p, seg);
  }

  /** The place for the next child is free and can be reached. */
  lemma ReadyBelow(t: Option<Tree>, next: Skey, t1: Option<Tree>, n1: Skey, p: Path, y: Value, seg: Segment)
    requires Wrote(t, next, t1, n1, p, y) && Step(y, seg).None?
    ensures OpenDoc(t1, p + [seg]) && AtDoc(t1, p + [seg]).None?
  {
    hide Extends;
    var u := At(t1.value, p).value;
    AtIsOpen(t1.value, p);
    assert !PackedThere(t1, p);
    assert Open(u, [seg]) by { if Child(u, seg).Some? { assert Open(Child(u, seg).value, [seg][1..]); } }
    OpenSplit(t1.value, p, [seg]);
    OpenRead(t1.value, p + [seg]);
    ReadAfterSetDoc(DocumentOf(t), p, y);
    SubtreeSplit(Denote(t1.value), p, [seg]);
    StepInto(y, seg);
  }

  /** A child of a place that could be written can be written. */
  lemma ChildWrites(t: Option<Tree>, next: Skey, t1: Option<Tree>, n1: Skey, p: Path, y: Value, seg: Segment, x: Value, y': Value)
    requires Wrote(t, next, t1, n1, p, y) && SetIn(y, [seg], x) == Some(y')
    ensures SetDoc(DocumentOf(t1), p + [seg], x).Some?
  {
    hide Extends;
    SetDocThenSet(DocumentOf(t), p, y, [seg], x);
    SetDocIgnoresValue(DocumentOf(t), p, y, y');
  }

  lemma AnchorKept(t: Option<Tree>, t': Option<Tree>, root: Skey, base: Path, full: Path)
    requires Anchored(t, root, base) && base <= full && Untouched(t, t', full) && (base == full ==> base == [])
    ensures Anchored(t', root, base)
  {
    if base != [] { assert base < full && KeyAt(t', base) == KeyAt(t, base); }
  }

  lemma ItemSets(items: seq<Value>, i: nat)
    requires i < |items|
    ensures SetIn(VList(items[..i]), [Index(i)], items[i]) == Some(VList(items[..i + 1]))
    ensures Step(VList(items[..i]), Index(i)).None?
  {
    assert BuildFresh([Index(i)][1..], items[i]) == Some(items[i]);
    assert items[..i] + [items[i]] == items[..i + 1];
  }

  lemma EntrySets(done: map<string, Value>, n: string, x: Value)
    requires n !in done
    ensures SetIn(VNode(done), [Name(n)], x) == Some(VNode(done[n := x]))
    ensures Step(VNode(done), Name(n)).None?
  {
    assert BuildFresh([Name(n)][1..], x) == Some(x);
  }

  lemma PutWrote(t: Option<Tree>, p: Path, x: Scalar, next: Skey)
    requires Sound(t, next) && OpenDoc(t, p)
    ensures PutRelT(t, p, x, next).Some? <==> SetDoc(DocumentOf(t), p, VLeaf(x)).Some?
    ensures PutRelT(t, p, x, next).Some? ==>
              Wrote(t, next, Some(PutRelT(t, p, x, next).value.tree), PutRelT(t, p, x, next).value.next, p, VLeaf(x))
  {
    hide SetDoc, Sound;
    PutRelDenotes(t, p, x, next);
    if PutRelT(t, p, x, next).Some? {
      PutRelExtends(t, p, x, next);
      PutRelUntouched(t, p, x, next);
      ReadAfterSetDoc(DocumentOf(t), p, VLeaf(x));
      PlainPlace(PutRelT(t, p, x, next).value.tree, p, VLeaf(x));
    }
  }

  lemma EnsureWrote(t: Option<Tree>, p: Path, list: bool, next: Skey)
    requires Sound(t, next) && OpenDoc(t, p) && AtDoc(t, p).None?
    ensures EnsureT(t, p, list, next).Some? <==> SetDoc(DocumentOf(t), p, EmptyValue(list)).Some?
    ensures EnsureT(t, p, list, next).Some? ==>
              Wrote(t, next, Some(EnsureT(t, p, list, next).value.tree), EnsureT(t, p, list, next).value.next, p, EmptyValue(list))
  {
    hide SetDoc, Sound;
    if t.Some? { OpenRead(t.value, p); }
    EnsureDenotes(t, p, list, next);
    if EnsureT(t, p, list, next).Some? {
      EnsureExtends(t, p, list, next);
      EnsureUntouched(t, p, list, next);
      ReadAfterSetDoc(DocumentOf(t), p, EmptyValue(list));
      PlainPlace(EnsureT(t, p, list, next).value.tree, p, EmptyValue(list));
    }
  }

  /** Writes `v` at `rel` below the anchor. The place has been cleared, so containers
      start empty. */
  method WriteValue(s: TreeStore, root: Skey, rel: Path, v: Value, ghost base: Path) returns (r: Result<()>)
    requires s.Valid() && Anchored(s.tree, root, base) && OpenDoc(s.tree, base + rel) && (rel == [] ==> base == [])
    requires AtDoc(s.tree, base + rel).None? && GoodNames(v)
    modifies s
    ensures r.Ok? <==> SetDoc(DocumentOf(old(s.tree)), base + rel, v).Some?
    ensures r.Ok? ==> s.Valid() && SameMode(old(s.store), s.store)
    ensures r.Ok? ==> Wrote(old(s.tree), old(s.issued), s.tree, s.issued, base + rel, v)
    decreases v, 1
  {
    hide Denote, Sound, SetDoc, Rep, EnsureT, PutRelT, Wrote;
    match v
    case VLeaf(x) =>
      PutWrote(s.tree, base + rel, x, s.issued);
      r := s.PutScalarRel(root, rel, x, base);
    case VList(_) =>
      EnsureWrote(s.tree, base + rel, true, s.issued);
      SetDocIgnoresValue(DocumentOf(s.tree), base + rel, v, EmptyValue(true));
      var made := s.EnsureContainerRel(root, rel, true, base);
      if made.Err? {
        return Err(made.error);
      }
      WriteItems(s, root, rel, v, base, old(s.tree), old(s.issued));
      r := Ok(());
    case VNode(_) =>
      EnsureWrote(s.tree, base + rel, false, s.issued);
      SetDocIgnoresValue(DocumentOf(s.tree), base + rel, v, EmptyValue(false));
      var made := s.EnsureContainerRel(root, rel, false, base);
      if made.Err? {
        return Err(made.error);
      }
      WriteEntries(s, root, rel, v, base, old(s.tree), old(s.issued));
      r := Ok(());
  }

  /** The elements of a list, each appended after the last. */
  method WriteItems(s: TreeStore, root: Skey, rel: Path, v: Value, ghost base: Path, ghost t: Option<Tree>, ghost next: Skey)
    requires s.Valid() && Anchored(t, root, base) && (rel == [] ==> base == [])
    requires v.VList? && GoodNames(v) && Wrote(t, next, s.tree, s.issued, base + rel, VList([]))
    modifies s
    ensures s.Valid() && SameMode(old(s.store), s.store)
    ensures Wrote(t, next, s.tree, s.issued, base + rel, v)
    decreases v, 0
  {
    hide Denote, Sound, SetDoc, SetIn, Rep, Extends;
    ghost var full := base + rel;
    assert v.items[..0] == [];
    for i := 0 to |v.items|
      invariant s.Valid() && SameMode(old(s.store), s.store)
      invariant Wrote(t, next, s.tree, s.issued, full, VList(v.items[..i]))
    {
      ghost var t1, n1 := s.tree, s.issued;
      ItemSets(v.items, i);
      AnchorKept(t, t1, root, base, full);
      ReadyBelow(t, next, t1, n1, full, VList(v.items[..i]), Index(i));
      ChildWrites(t, next, t1, n1, full, VList(v.items[..i]), Index(i), v.items[i], VList(v.items[..i + 1]));
      assert base + (rel + [Index(i)]) == full + [Index(i)];
      var wrote := WriteValue(s, root, rel + [Index(i)], v.items[i], base);
      WroteBelow(t, next, t1, n1, s.tree, s.issued, full, VList(v.items[..i]), Index(i), v.items[i], VList(v.items[..i + 1]));
    }
    assert v.items[..|v.items|] == v.items;
  }

  /** The entries of an object, in name order. */
  method WriteEntries(s: TreeStore, root: Skey, rel: Path, v: Value, ghost base: Path, ghost t: Option<Tree>, ghost next: Skey)
    requires s.Valid() && Anchored(t, root, base) && (rel == [] ==> base == [])
    requires v.VNode? && GoodNames(v) && Wrote(t, next, s.tree, s.issued, base + rel, VNode(map[]))
    modifies s
    ensures s.Valid() && SameMode(old(s.store), s.store)
    ensures Wrote(t, next, s.tree, s.issued, base + rel, v)
    decreases v, 0
  {
    hide Denote, Sound, SetDoc, SetIn, Rep, Extends;
    ghost var full := base + rel;
    var rest := v.entries.Keys;
    assert v.entries - rest == map[];
    while rest != {}
      invariant rest <= v.entries.Keys
      invariant s.Valid() && SameMode(old(s.store), s.store)
      invariant Wrote(t, next, s.tree, s.issued, full, VNode(v.entries - rest))
      decreases |rest|
    {
      HasFirstName(rest);
      var n :| n in rest && forall x | x in rest && x != n :: NameLess(n, x);
      ghost var t1, n1, done := s.tree, s.issued, v.entries - rest;
      EntrySets(done, n, v.entries[n]);
      DrainStep(v.entries, rest, n);
      AnchorKept(t, t1, root, base, full);
      ReadyBelow(t, next, t1, n1, full, VNode(done), Name(n));
      ChildWrites(t, next, t1, n1, full, VNode(done), Name(n), v.entries[n], VNode(done[n := v.entries[n]]));
      assert base + (rel + [Name(n)]) == full + [Name(n)];
      var wrote := WriteValue(s, root, PushName(rel, n), v.entries[n], base);
      WroteBelow(t, next, t1, n1, s.tree, s.issued, full, VNode(done), Name(n), v.entries[n], VNode(done[n := v.entries[n]]));
      rest := rest - {n};
    }
    assert v.entries - {} == v.entries;
  }

  // ----- packed entities --------------------------------------------------------

  /** Places a packed entity at `p`: over another packed entity its blob is replaced
      and its key kept; anything else there is dropped and a new entity linked. */
  function StorePackedT(g: Grown, p: Path, inner: Tree): Option<Grown>
    requires p != [] && At(g.tree, Parent(p)).Some?
  {
    match Child(At(g.tree, Parent(p)).value, Last(p))
    case Some(Packed(k, _)) =>
      LastAt(g.tree, p);
      Some(Grown(Subst(g.tree, p, Packed(k, inner)), g.next))
    case _ => AttachT(g, p, Packed(g.next, inner))
  }

  lemma LastAt(t: Tree, p: Path)
    requires p != [] && At(t, Parent(p)).Some?
    ensures At(t, p) == Child(At(t, Parent(p)).value, Last(p))
  {
    assert p == Parent(p) + [Last(p)];
    AtSplit(t, Parent(p), [Last(p)]);
    ChildAt(At(t, Parent(p)).value, Last(p));
  }

  /** A packed table whose keys the store has issued but does not use yet. */
  ghost predicate Loose(t: Tree, next: Skey, inner: Tree) {
    && Distinct(inner) && PackedFree(inner) && inner.key == ROOT
    && forall k | k in Keys(inner) :: k == ROOT || (k !in Keys(t) && k < next)
  }

  lemma PackedKeys(k: Skey, inner: Tree)
    ensures Keys(Packed(k, inner)) == {k} + (Keys(inner) - {ROOT})
    ensures Distinct(Packed(k, inner)) <==> Distinct(inner) && PackedFree(inner) && inner.key == ROOT && k !in Keys(inner) - {ROOT}
  {}

  lemma LooseFits(t: Tree, next: Skey, inner: Tree)
    requires Sound(Some(t), next) && Loose(t, next, inner)
    ensures FreshChild(t, Packed(next, inner), next)
  {
    PackedKeys(next, inner);
    KeyIsOwn(t);
  }

  lemma LooseReplaces(t: Tree, p: Path, next: Skey, inner: Tree)
    requires Sound(Some(t), next) && Loose(t, next, inner) && At(t, p).Some? && At(t, p).value.Packed?
    ensures OwnOrFresh(t, At(t, p).value, inner) && Distinct(Packed(At(t, p).value.key, inner))
    ensures Sound(Some(Subst(t, p, Packed(At(t, p).value.key, inner))), next)
    ensures KeyIs(Subst(t, p, Packed(At(t, p).value.key, inner)), t.key)
  {
    hide Keys, Distinct, PackedFree;
    var e := At(t, p).value;
    AtKeys(t, p);
    KeyIsOwn(e);
    KeyIsOwn(t);
    PackedKeys(e.key, inner);
    SubstShape(t, p, Packed(e.key, inner));
  }

  predicate KeyIs(t: Tree, k: Skey) { t.key == k }

  method StorePackedUnder(s: TreeStore, parent: Skey, last: Segment, node: Node, ghost p: Path, ghost inner: Tree)
    returns (r: Result<()>)
    requires s.Valid() && !s.store.Mem? && s.tree.Some? && p != [] && Last(p) == last
    requires At(s.tree.value, Parent(p)).Some? && At(s.tree.value, Parent(p)).value.key == parent
    requires Fits(At(s.tree.value, Parent(p)).value, last)
    requires node.NPacked? && node.root == KindOf(inner) && HoldsBlob(node.blob, inner)
    requires Loose(s.tree.value, s.issued, inner)
    modifies s
    ensures r.Ok? <==> StorePackedT(Grown(old(s.tree).value, old(s.issued)), p, inner).Some?
    ensures r.Ok? ==> s.Reached(StorePackedT(Grown(old(s.tree).value, old(s.issued)), p, inner))
    ensures r.Ok? ==> SameMode(old(s.store), s.store)
  {
    hide Keys, Distinct, PackedFree, HoldsBlob, KindOf, Subst;
    ghost var t, u := s.tree.value, At(s.tree.value, Parent(p)).value;
    LastAt(t, p);
    AtRep(s.store, t, Parent(p));
    ChildKeyWalks(s.store, parent, Some(u), last);
    var old_ := ChildKey(s.store, parent, last);
    if old_.Some? {
      var there := s.store.NodeOf(old_.value);
      if there.Some? && there.value.NPacked? {
        LooseReplaces(t, p, s.issued, inner);
        s.WritePacked(old_.value, node, p, inner);
        return Ok(());
      }
    }
    r := LinkPacked(s, parent, last, node, p, inner);
  }

  method LinkPacked(s: TreeStore, parent: Skey, last: Segment, node: Node, ghost p: Path, ghost inner: Tree)
    returns (r: Result<()>)
    requires s.Valid() && !s.store.Mem? && s.tree.Some? && p != [] && Last(p) == last
    requires At(s.tree.value, Parent(p)).Some? && At(s.tree.value, Parent(p)).value.key == parent
    requires Fits(At(s.tree.value, Parent(p)).value, last)
    requires node.NPacked? && node.root == KindOf(inner) && HoldsBlob(node.blob, inner)
    requires Loose(s.tree.value, s.issued, inner)
    modifies s
    ensures r.Ok? <==> AttachT(Grown(old(s.tree).value, old(s.issued)), p, Packed(old(s.issued), inner)).Some?
    ensures r.Ok? ==> s.Reached(AttachT(Grown(old(s.tree).value, old(s.issued)), p, Packed(old(s.issued), inner)))
    ensures r.Ok? ==> SameMode(old(s.store), s.store)
  {
    hide Keys, Distinct, PackedFree, HoldsBlob, KindOf, Rep;
    ghost var g := Grown(s.tree.value, s.issued);
    ghost var c := Packed(s.issued, inner);
    LooseFits(g.tree, g.next, inner);
    var entity := s.Generate();
    var linked := ReplaceAtLast(s.store, parent, last, entity, node, g, p, c);
    if linked.Err? {
      return Err(linked.error);
    }
    s.store := linked.value;
    s.tree := Some(AttachT(g, p, c).value.tree);
    r := Ok(());
  }

  lemma StorePackedDenotes(g: Grown, p: Path, inner: Tree)
    requires p != [] && At(g.tree, Parent(p)).Some? && Open(g.tree, p)
    ensures SetIn(Denote(g.tree), p, Denote(inner))
         == match StorePackedT(g, p, inner) case Some(r) => Some(Denote(r.tree)) case None => None
  {
    hide SetIn, Subst;
    LastAt(g.tree, p);
    match Child(At(g.tree, Parent(p)).value, Last(p))
    case Some(Packed(k, _)) => DenoteSubst(g.tree, p, Packed(k, inner));
    case _ => AttachDenotes(g, p, Packed(g.next, inner));
  }

  lemma StorePackedUntouched(g: Grown, p: Path, inner: Tree)
    requires p != [] && At(g.tree, Parent(p)).Some? && StorePackedT(g, p, inner).Some?
    ensures Untouched(Some(g.tree), Some(StorePackedT(g, p, inner).value.tree), p)
  {
    hide Subst, Untouched;
    LastAt(g.tree, p);
    match Child(At(g.tree, Parent(p)).value, Last(p))
    case Some(Packed(k, _)) => SubstUntouched(g.tree, p, Packed(k, inner));
    case _ => AttachUntouched(g, p, Packed(g.next, inner));
  }

  lemma StorePackedThere(g: Grown, p: Path, inner: Tree)
    requires p != [] && At(g.tree, Parent(p)).Some? && StorePackedT(g, p, inner).Some?
    ensures PackedThere(Some(StorePackedT(g, p, inner).value.tree), p)
  {
    hide Subst;
    LastAt(g.tree, p);
    match Child(At(g.tree, Parent(p)).value, Last(p))
    case Some(Packed(k, _)) =>
      AtSubst(g.tree, p, Packed(k, inner), p);
      assert p[|p|..] == [];
    case _ =>
  }

  // ----- storing at a path ------------------------------------------------------

  /** A named place, or a list position at or next to the end. Removing what is
      there then moves nothing else into the place. */
  predicate AtEnd(doc: Document, p: Path) {
    p == [] || Last(p).Name? ||
    match SubDoc(doc, Parent(p))
    case Some(VList(items)) => Last(p).index + 1 >= |items|
    case _ => true
  }

  /** Removing and then storing is storing, at such a place. At any other list
      position the element after the stored one is lost. */
  lemma StoreAfterRemove(doc: Document, p: Path, v: Value)
    ensures SetDoc(RemoveDoc(doc, p), p, v) == SetDoc(doc, p, v) <==> AtEnd(doc, p)
  {
    hide SetIn, RemoveIn;
    if doc.Some? && p == [] { SetHere(doc.value, v); }
    if doc.Some? && p != [] {
      if Subtree(doc.value, p).None? {
        RemoveNothing(doc.value, p);
        NothingAtEnd(doc.value, p);
      } else {
        RemovedParent(doc.value, p);
        var u := Subtree(doc.value, Parent(p)).value;
        assert p == Parent(p) + [Last(p)];
        SetBelow(doc.value, Parent(p), [Last(p)], v);
        SetBelow(RemoveIn(doc.value, p), Parent(p), [Last(p)], v);
        RemoveBelowPlace(doc.value, Parent(p), [Last(p)]);
        StoreStep(u, Last(p), v);
        StoreParents(doc.value, Parent(p), [Last(p)], v);
      }
    }
  }

  lemma SetHere(v: Value, x: Value)
    ensures SetIn(v, [], x) == Some(x) && BuildFresh([], x) == Some(x)
  {}

  lemma NothingAtEnd(v: Value, p: Path)
    requires p != [] && Subtree(v, p).None?
    ensures AtEnd(Some(v), p)
  {
    assert p == Parent(p) + [Last(p)];
    SubtreeSplit(v, Parent(p), [Last(p)]);
    if Subtree(v, Parent(p)).Some? { StepInto(Subtree(v, Parent(p)).value, Last(p)); }
  }

  /** The two parents, side by side. */
  lemma StoreParents(v: Value, p: Path, q: Path, x: Value)
    requires q != [] && Subtree(v, p).Some?
    requires SetIn(Subtree(v, p).value, q, x).Some? && SetIn(RemoveIn(Subtree(v, p).value, q), q, x).Some?
    ensures SetIn(RemoveIn(v, p + q), p + q, x) == SetIn(v, p + q, x)
        <==> SetIn(RemoveIn(Subtree(v, p).value, q), q, x) == SetIn(Subtree(v, p).value, q, x)
  {
    hide SetIn, RemoveIn;
    var u := Subtree(v, p).value;
    var u', a, b := RemoveIn(u, q), SetIn(RemoveIn(u, q), q, x).value, SetIn(u, q, x).value;
    RemoveBelowPlace(v, p, q);
    SetThenSet(v, p, u', q, x);
    SetBelow(v, p, q, x);
    SetExisting(v, p, a);
    SetExisting(v, p, b);
    ReadAfterSet(v, p, a);
    ReadAfterSet(v, p, b);
  }

  lemma StoreStep(u: Value, seg: Segment, x: Value)
    requires Step(u, seg).Some?
    ensures SetIn(u, [seg], x).Some? && SetIn(RemoveIn(u, [seg]), [seg], x).Some?
    ensures SetIn(RemoveIn(u, [seg]), [seg], x) == SetIn(u, [seg], x)
        <==> (seg.Index? ==> seg.index + 1 >= |u.items|)
  {
    assert BuildFresh([seg][1..], x) == Some(x);
    assert forall c: Value :: SetIn(c, [seg][1..], x) == Some(x);
    match (u, seg)
    case (VNode(entries), Name(n)) => assert (entries - {n})[n := x] == entries[n := x];
    case (VList(items), Index(i)) =>
      var rest := items[..i] + items[i + 1..];
      if i + 1 >= |items| {
        assert rest + [x] == items[i := x];
      } else {
        assert SetIn(VList(rest), [seg], x) == Some(VList(rest[i := x]));
        assert |rest[i := x]| != |items[i := x]|;
      }
    case _ =>
  }

  lemma RemoveOpen(t: Option<Tree>, p: Path)
    requires OpenDoc(t, p)
    ensures OpenDoc(RemoveWhole(t, p), p)
    ensures p != [] && t.Some? ==> RemoveWhole(t, p).Some?
    ensures RemoveT(t, p) == RemoveWhole(t, p)
  {
    hide Subst;
    if t.Some? && p != [] && At(t.value, p).Some? {
      assert p == Parent(p) + [Last(p)];
      AtSplit(t.value, Parent(p), [Last(p)]);
      OpenSplit(t.value, Parent(p), [Last(p)]);
      var u := At(t.value, Parent(p)).value;
      ChildAt(u, Last(p));
      var u' := WithoutChild(u, Last(p));
      OpenAfterSubst(t.value, Parent(p), u');
      assert Open(u', [Last(p)]) by { if Child(u', Last(p)).Some? { assert Open(Child(u', Last(p)).value, [Last(p)][1..]); } }
      OpenSplit(RemoveWhole(t, p).value, Parent(p), [Last(p)]);
    }
  }

  /** What `StoreValue` promises: the document with the place cleared and `v` set there. */
  ghost predicate Stored(t: Option<Tree>, t': Option<Tree>, p: Path, v: Value) {
    && t'.Some?
    && SetDoc(DocumentOf(RemoveWhole(t, p)), p, v) == Some(Denote(t'.value))
    && Untouched(RemoveWhole(t, p), t', p)
  }

  lemma ParentJoin(t: Option<Tree>, p: Path, next: Skey, t': Option<Tree>)
    requires p != [] && EnsureT(t, Parent(p), Last(p).Index?, next).Some?
    requires Untouched(Some(EnsureT(t, Parent(p), Last(p).Index?, next).value.tree), t', p)
    ensures Untouched(t, t', p)
  {
    hide EnsureT, Untouched;
    EnsureParentUntouched(t, p, next);
    var g := EnsureT(t, Parent(p), Last(p).Index?, next).value;
    forall q | AtDoc(t, Parent(p)).None? && Parent(p) < q ensures At(g.tree, q).None? {
      NothingBelowEmpty(g.tree, Parent(p), Last(p).Index?, q);
    }
    UntouchedJoin(t, Some(g.tree), t', p);
  }

  /** Stores `v` at `path`, replacing what is there. `packable` says that no index
      reaches strictly below `path`, so that the value may become one packed entity. */
  method StoreValue(s: TreeStore, path: Path, v: Value, packable: bool) returns (r: Result<()>)
    requires s.Valid() && !s.store.Mem? && OpenDoc(s.tree, path) && GoodNames(v)
    requires packable || AtEnd(DocumentOf(s.tree), path)
    modifies s
    ensures r.Ok? <==> SetDoc(DocumentOf(RemoveWhole(old(s.tree), path)), path, v).Some?
    ensures r.Ok? ==> s.Valid() && SameMode(old(s.store), s.store) && Stored(old(s.tree), s.tree, path, v)
    ensures r.Ok? ==> Formed(s.tree, path, packable && path != [])
  {
    if path == [] {
      r := StoreRoot(s, v);
    } else if packable {
      r := StorePacked(s, path, v);
    } else {
      r := StoreShredded(s, path, v);
    }
  }

  method StoreRoot(s: TreeStore, v: Value) returns (r: Result<()>)
    requires s.Valid() && !s.store.Mem? && GoodNames(v)
    modifies s
    ensures r.Ok?
    ensures s.Valid() && SameMode(old(s.store), s.store) && Stored(old(s.tree), s.tree, [], v)
    ensures Formed(s.tree, [], false)
  {
    hide Rep, Keys, Distinct, Denote;
    var removed := RemovePathAt(s, []);
    assert s.tree == None;
    ghost var top: Path := [];
    assert top + top == top;
    r := WriteValue(s, ROOT, [], v, []);
  }

  /** Builds the value in an in-memory table of its own. */
  method BuildPacked(v: Value, issued: Skey) returns (node: Node, next: Skey, ghost inner: Tree)
    requires issued > ROOT && GoodNames(v)
    ensures issued <= next && node.NPacked? && node.root == KindOf(inner) && HoldsBlob(node.blob, inner)
    ensures Denote(inner) == v && Extends(None, issued, Grown(inner, next)) && PackedFree(inner)
  {
    hide Keys, Distinct, Denote, KindOf;
    var mem := new TreeStore(Mem(map[]), issued);
    ghost var top: Path := [];
    assert top + top == top;
    var wrote := WriteValue(mem, ROOT, [], v, []);
    inner, next := mem.tree.value, mem.issued;
    node := IntoPacked(mem.store.cells, mem.tree);
  }

  /** The first step of a store: what is at `path` goes. */
  method ClearPlace(s: TreeStore, path: Path)
    requires s.Valid() && !s.store.Mem? && OpenDoc(s.tree, path) && path != []
    modifies s`store, s`tree
    ensures s.Valid() && SameMode(old(s.store), s.store) && s.tree == RemoveWhole(old(s.tree), path)
    ensures OpenDoc(s.tree, path) && OpenDoc(s.tree, Parent(path))
  {
    hide Rep, Keys, Distinct, Open;
    RemoveOpen(s.tree, path);
    OpenParent(RemoveWhole(s.tree, path), path);
    var removed := s.RemoveRel(path);
  }

  method StorePacked(s: TreeStore, path: Path, v: Value) returns (r: Result<()>)
    requires s.Valid() && !s.store.Mem? && OpenDoc(s.tree, path) && GoodNames(v) && path != []
    modifies s
    ensures r.Ok? <==> SetDoc(DocumentOf(RemoveWhole(old(s.tree), path)), path, v).Some?
    ensures r.Ok? ==> s.Valid() && SameMode(old(s.store), s.store) && Stored(old(s.tree), s.tree, path, v)
    ensures r.Ok? ==> Formed(s.tree, path, true)
  {
    hide Rep, Keys, Distinct, Denote, SetDoc, EnsureT, StorePackedT, KindOf, HoldsBlob, PackedFree;
    ghost var t, from := s.tree, s.issued;
    var node: Node, next: Skey;
    ghost var inner: Tree;
    node, next, inner := BuildPacked(v, s.issued);
    KeysRise(s.tree, s.issued, next);
    s.issued := next;
    ClearPlace(s, path);
    ghost var cleared := s.tree;
    assert [] + Parent(path) == Parent(path);
    var parent := s.EnsureContainerRel(ROOT, Parent(path), Last(path).Index?, []);
    StorePackedSteps(cleared, path, next, from, inner);
    if parent.Err? {
      return Err(parent.error);
    }
    RemovedOld(t, path, from);
    LooseAfter(cleared, path, next, from, inner);
    r := StorePackedUnder(s, parent.value, Last(path), node, path, inner);
  }

  /** The removal leaves no key that was not there. */
  lemma RemovedOld(t: Option<Tree>, p: Path, next: Skey)
    requires Sound(t, next) && OpenDoc(t, p)
    ensures RemoveWhole(t, p).Some? ==> forall k | k in Keys(RemoveWhole(t, p).value) :: k < next
  {
    hide Keys, Distinct;
    if p != [] && AtDoc(t, p).Some? { RemoveSound(t.value, p, next); }
  }

  lemma LooseAfter(t: Option<Tree>, p: Path, next: Skey, from: Skey, inner: Tree)
    requires p != [] && Sound(t, next) && from <= next && (t.Some? ==> forall k | k in Keys(t.value) :: k < from)
    requires EnsureT(t, Parent(p), Last(p).Index?, next).Some?
    requires Extends(None, from, Grown(inner, next)) && PackedFree(inner)
    ensures Loose(EnsureT(t, Parent(p), Last(p).Index?, next).value.tree, EnsureT(t, Parent(p), Last(p).Index?, next).value.next, inner)
  {
    hide Keys, Distinct, PackedFree;
    EnsureExtends(t, Parent(p), Last(p).Index?, next);
  }

  lemma StorePackedSteps(t: Option<Tree>, p: Path, next: Skey, from: Skey, inner: Tree)
    requires p != [] && OpenDoc(t, p)
    ensures EnsureT(t, Parent(p), Last(p).Index?, next).None? ==> SetDoc(DocumentOf(t), p, Denote(inner)).None?
    ensures EnsureT(t, Parent(p), Last(p).Index?, next).Some? ==>
              PackedStep(t, p, EnsureT(t, Parent(p), Last(p).Index?, next).value, inner)
  {
    hide Denote, SetDoc, EnsureT, StorePackedT, Untouched;
    EnsureParentDenotes(t, p, next);
    EnsureThenSet(DocumentOf(t), p, Denote(inner), EnsureT(t, Parent(p), Last(p).Index?, next));
    if EnsureT(t, Parent(p), Last(p).Index?, next).Some? {
      var g := EnsureT(t, Parent(p), Last(p).Index?, next).value;
      EnsureParentOpen(t, p, next);
      EnsuredFits(t, p, next);
      StorePackedDenotes(g, p, inner);
      if StorePackedT(g, p, inner).Some? {
        StorePackedUntouched(g, p, inner);
        StorePackedThere(g, p, inner);
        ParentJoin(t, p, next, Some(StorePackedT(g, p, inner).value.tree));
      }
    }
  }

  /** Ensuring the parent and placing the entity stores its document at `p`. */
  ghost predicate PackedStep(t: Option<Tree>, p: Path, g: Grown, inner: Tree)
    requires p != [] && At(g.tree, Parent(p)).Some?
  {
    && Fits(At(g.tree, Parent(p)).value, Last(p))
    && (SetDoc(DocumentOf(t), p, Denote(inner)) == match StorePackedT(g, p, inner) case Some(r) => Some(Denote(r.tree)) case None => None)
    && (StorePackedT(g, p, inner).Some? ==>
          Untouched(t, Some(StorePackedT(g, p, inner).value.tree), p) && PackedThere(Some(StorePackedT(g, p, inner).value.tree), p))
  }

  method StoreShredded(s: TreeStore, path: Path, v: Value) returns (r: Result<()>)
    requires s.Valid() && !s.store.Mem? && OpenDoc(s.tree, path) && GoodNames(v) && path != []
    requires AtEnd(DocumentOf(s.tree), path)
    modifies s
    ensures r.Ok? <==> SetDoc(DocumentOf(RemoveWhole(old(s.tree), path)), path, v).Some?
    ensures r.Ok? ==> s.Valid() && SameMode(old(s.store), s.store) && Stored(old(s.tree), s.tree, path, v)
    ensures r.Ok? ==> Formed(s.tree, path, false)
  {
    hide Rep, Keys, Distinct, Denote, SetIn, EnsureT, Extends, Untouched, AtEnd, Subst, Open, RemoveWhole;
    ghost var t := s.tree;
    ClearPlace(s, path);
    ghost var cleared, next := s.tree, s.issued;
    ClearedPlace(t, path);
    assert [] + Parent(path) == Parent(path);
    var anchor := s.EnsureContainerRel(ROOT, Parent(path), Last(path).Index?, []);
    EnsureParentDenotes(cleared, path, next);
    EnsureThenSet(DocumentOf(cleared), path, v, EnsureT(cleared, Parent(path), Last(path).Index?, next));
    if anchor.Err? {
      return Err(anchor.error);
    }
    PlaceReady(cleared, path, next);
    r := WriteValue(s, anchor.value, [Last(path)], v, Parent(path));
    if r.Ok? {
      ParentJoin(cleared, path, next, s.tree);
    }
  }

  /** Once its parent is there, an empty place can be written below it. */
  lemma PlaceReady(t: Option<Tree>, p: Path, next: Skey)
    requires p != [] && OpenDoc(t, p) && AtDoc(t, p).None? && EnsureT(t, Parent(p), Last(p).Index?, next).Some?
    ensures var made := EnsureT(t, Parent(p), Last(p).Index?, next).value.tree;
            Open(made, p) && At(made, p).None? && p == Parent(p) + [Last(p)]
  {
    hide EnsureT, Open;
    EnsureMissing(t, p, next);
    EnsureParentOpen(t, p, next);
    LastAt(EnsureT(t, Parent(p), Last(p).Index?, next).value.tree, p);
  }

  /** At such a place, a removal leaves nothing there. */
  lemma ClearedPlace(t: Option<Tree>, p: Path)
    requires p != [] && OpenDoc(t, p) && AtEnd(DocumentOf(t), p)
    ensures AtDoc(RemoveWhole(t, p), p).None?
  {
    hide Subst, Denote, Subtree;
    if AtDoc(t, p).Some? {
      RemovedParentAt(t.value, p);
      var u := At(t.value, Parent(p)).value;
      assert p == Parent(p) + [Last(p)];
      OpenSplit(t.value, Parent(p), [Last(p)]);
      OpenRead(t.value, Parent(p));
      LastGone(u, Last(p));
    }
  }

  lemma LastGone(u: Tree, seg: Segment)
    requires Child(u, seg).Some? && (Denote(u).VList? && seg.Index? ==> seg.index + 1 >= |Denote(u).items|)
    ensures Child(WithoutChild(u, seg), seg).None?
  {
    hide Denote;
    if u.List? { ShortList(u); }
  }

  lemma RemovedParentAt(t: Tree, p: Path)
    requires p != [] && At(t, p).Some?
    ensures At(t, Parent(p)).Some? && Child(At(t, Parent(p)).value, Last(p)).Some?
    ensures At(RemoveRelT(t, p).value, p) == Child(WithoutChild(At(t, Parent(p)).value, Last(p)), Last(p))
  {
    hide Subst;
    assert p == Parent(p) + [Last(p)];
    AtSplit(t, Parent(p), [Last(p)]);
    var u := At(t, Parent(p)).value;
    ChildAt(u, Last(p));
    var u' := WithoutChild(u, Last(p));
    AtSplit(RemoveRelT(t, p).value, Parent(p), [Last(p)]);
    ChildAt(u', Last(p));
  }

  lemma ShortList(u: Tree)
    requires u.List?
    ensures Denote(u).VList? && |Denote(u).items| == |u.items|
  {}

  // ----- storing over a packed entity -------------------------------------------

  /** `v` stands at `p` under the key that was there, and nothing off the path has changed. */
  ghost predicate Overwrote(t: Option<Tree>, t': Option<Tree>, p: Path, v: Value) {
    && t'.Some?
    && SetDoc(DocumentOf(t), p, v) == Some(Denote(t'.value))
    && Untouched(t, t', p)
    && PackedThere(t', p) && KeyAt(t', p) == KeyAt(t, p)
  }

  lemma OverwriteMeans(t: Tree, p: Path, v: Value, inner: Tree)
    requires Open(t, p) && PackedThere(Some(t), p) && Denote(inner) == v
    ensures Overwrote(Some(t), Some(Subst(t, p, Packed(At(t, p).value.key, inner))), p, v)
  {
    hide SetIn, Subst, Untouched;
    var e := Packed(At(t, p).value.key, inner);
    DenoteSubst(t, p, e);
    SubstUntouched(t, p, e);
  }

  /** Stores a whole entity at `path`. Over a packed entity that may stay packed, the
      blob alone is replaced: the entity's key survives. */
  method StoreAt(s: TreeStore, path: Path, v: Value, packable: bool) returns (r: Result<()>)
    requires s.Valid() && !s.store.Mem? && OpenDoc(s.tree, path) && GoodNames(v) && path != []
    requires packable || AtEnd(DocumentOf(s.tree), path)
    modifies s
    ensures packable && PackedThere(old(s.tree), path) ==> r.Ok? && Overwrote(old(s.tree), s.tree, path, v)
    ensures !(packable && PackedThere(old(s.tree), path)) ==> (r.Ok? <==> SetDoc(DocumentOf(RemoveWhole(old(s.tree), path)), path, v).Some?)
    ensures !(packable && PackedThere(old(s.tree), path)) && r.Ok? ==> Stored(old(s.tree), s.tree, path, v)
    ensures r.Ok? ==> s.Valid() && SameMode(old(s.store), s.store) && Formed(s.tree, path, packable)
  {
    hide Rep, Keys, Distinct, Open, Stored, AtEnd, SetDoc, RemoveWhole;
    if !packable {
      r := StoreShredded(s, path, v);
      return;
    }
    TableHeld(s.store, s.tree);
    var found := LocateKey(s.store, path, s.tree);
    if found.AtPacked? && found.rel == [] {
      OverwriteAt(s, path, v, found.entity);
      r := Ok(());
    } else {
      r := StorePacked(s, path, v);
    }
  }

  method OverwriteAt(s: TreeStore, path: Path, v: Value, entity: Skey)
    requires s.Valid() && !s.store.Mem? && OpenDoc(s.tree, path) && GoodNames(v) && IsPacked(s.tree, path, entity)
    modifies s
    ensures s.Valid() && SameMode(old(s.store), s.store) && Overwrote(old(s.tree), s.tree, path, v)
  {
    hide Rep, Keys, Distinct, Denote, KindOf, HoldsBlob, PackedFree, Open, Overwrote, Subst;
    ghost var t, from := s.tree.value, s.issued;
    var node: Node, next: Skey;
    ghost var inner: Tree;
    node, next, inner := BuildPacked(v, s.issued);
    KeysRise(s.tree, s.issued, next);
    s.issued := next;
    LooseReplaces(t, path, next, inner);
    s.WritePacked(entity, node, path, inner);
    OverwriteMeans(t, path, v, inner);
  }

  // ----- what a store means -----------------------------------------------------

  /** A stored value loads back whole. At a named place or at a list's end it is the
      document's own update, so every path off its line reads as before. */
  lemma StoreThenLoad(t: Option<Tree>, t': Option<Tree>, p: Path, v: Value, q: Path)
    requires (t.Some? ==> Distinct(t.value)) && OpenDoc(t, p) && Stored(t, t', p, v)
    ensures SubDoc(DocumentOf(t'), p) == Some(v)
    ensures SetDoc(DocumentOf(t), p, v) == DocumentOf(t') <==> AtEnd(DocumentOf(t), p)
    ensures AtEnd(DocumentOf(t), p) && !Comparable(p, q) ==> SubDoc(DocumentOf(t'), q) == SubDoc(DocumentOf(t), q)
  {
    hide Denote, SetIn, Distinct, Untouched, Open, RemoveWhole, AtEnd;
    RemoveOpen(t, p);
    RemoveDenotes(t, p);
    ReadAfterSetDoc(DocumentOf(RemoveWhole(t, p)), p, v);
    StoreAfterRemove(DocumentOf(t), p, v);
    if AtEnd(DocumentOf(t), p) && !Comparable(p, q) {
      ReadElsewhereDoc(DocumentOf(t), p, q, v);
    }
  }

  /** At such a place, clearing first does not change what a store does. */
  lemma ClearedSame(t: Option<Tree>, p: Path, v: Value)
    requires (t.Some? ==> Distinct(t.value)) && OpenDoc(t, p) && AtEnd(DocumentOf(t), p)
    ensures SetDoc(DocumentOf(RemoveWhole(t, p)), p, v) == SetDoc(DocumentOf(t), p, v)
  {
    hide Denote, SetIn, Distinct, Open, RemoveWhole, AtEnd;
    RemoveOpen(t, p);
    RemoveDenotes(t, p);
    StoreAfterRemove(DocumentOf(t), p, v);
  }

  lemma ReadElsewhereDoc(doc: Document, p: Path, q: Path, x: Value)
    requires SetDoc(doc, p, x).Some? && !Comparable(p, q)
    ensures Subtree(SetDoc(doc, p, x).value, q) == SubDoc(doc, q)
  {
    match doc
    case Some(v) => ReadElsewhere(v, p, q, x);
    case None => FreshReadsNothingElse(p, q, x);
  }

  /** Storing over the first of three elements loses the second. */
  lemma MiddleStoreLosesOne(v: Value, a: Value, b: Value, c: Value)
    ensures SetDoc(RemoveDoc(Some(VList([a, b, c])), [Index(0)]), [Index(0)], v) == Some(VList([v, c]))
    ensures SetDoc(Some(VList([a, b, c])), [Index(0)], v) == Some(VList([v, b, c]))
  {
    var doc, p := VList([a, b, c]), [Index(0)];
    assert p[1..] == [];
    assert doc.items[..0] + doc.items[1..] == [b, c];
    assert RemoveIn(doc, p) == VList([b, c]);
    assert [b, c][0 := v] == [v, c] && doc.items[0 := v] == [v, b, c];
    SetHere(b, v);
    SetHere(a, v);
  }
}
