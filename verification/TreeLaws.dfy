/** What the keyed-tree operations mean for the document they denote, and that
    they keep a table sound. */
module TreeLaws {
  import opened Basics
  import opened Paths
  import opened Scalars
  import opened ScalarCodec
  import opened Skeys
  import opened Values
  import opened Trees

  // ----- reads ----------------------------------------------------------------

  lemma DenoteStep(t: Tree, seg: Segment)
    requires !t.Packed?
    ensures Step(Denote(t), seg) == match Child(t, seg) case Some(c) => Some(Denote(c)) case None => None
  {}

  /** Reading a document by path is locating the path and, at a packed entity,
      continuing inside its blob: packing cannot be seen. */
  lemma {:induction false} LocateReadsDocument(t: Tree, p: Path)
    ensures Subtree(Denote(t), p)
         == match Locate(t, p)
            case Missing => None
            case Plain(u) => Some(Denote(u))
            case Inside(e, _, rel) =>
              match At(e.inner, rel) case Some(u) => Some(Denote(u)) case None => None
    requires Distinct(t)
    decreases p
  {
    if t.Packed? {
      DenoteAt(t.inner, p);
    } else if p != [] {
      DenoteStep(t, p[0]);
      if Child(t, p[0]).Some? {
        ChildKeys(t, p[0]);
        LocateReadsDocument(Child(t, p[0]).value, p[1..]);
      }
    }
  }

  /** Inside a blob, and wherever no packed entity is in the way, the walk alone reads the document. */
  lemma {:induction false} DenoteAt(t: Tree, p: Path)
    requires PackedFree(t)
    ensures Subtree(Denote(t), p) == match At(t, p) case Some(u) => Some(Denote(u)) case None => None
    ensures Open(t, p)
    decreases p
  {
    if p != [] {
      DenoteStep(t, p[0]);
      if Child(t, p[0]).Some? {
        ChildKeys(t, p[0]);
        DenoteAt(Child(t, p[0]).value, p[1..]);
      }
    }
  }

  lemma {:induction false} OpenRead(t: Tree, p: Path)
    requires Open(t, p)
    ensures Subtree(Denote(t), p) == match At(t, p) case Some(u) => Some(Denote(u)) case None => None
    decreases p
  {
    if p != [] {
      DenoteStep(t, p[0]);
      if Child(t, p[0]).Some? {
        OpenRead(Child(t, p[0]).value, p[1..]);
      }
    }
  }

  // ----- single edits ---------------------------------------------------------

  lemma DenoteWithChild(t: Tree, seg: Segment, c: Tree)
    requires !t.Packed?
    ensures SetIn(Denote(t), [seg], Denote(c))
         == match WithChild(t, seg, c) case Some(u) => Some(Denote(u)) case None => None
  {
    match (t, seg)
    case (Object(_, _), Name(n)) => DenoteWithField(t, n, c);
    case (List(_, _), Index(i)) => DenoteWithElement(t, i, c);
    case _ =>
  }

  lemma DenoteWithField(t: Tree, n: string, c: Tree)
    requires t.Object?
    ensures SetIn(Denote(t), [Name(n)], Denote(c)) == Some(Denote(WithChild(t, Name(n), c).value))
  {
    assert Denote(WithChild(t, Name(n), c).value).entries == Denote(t).entries[n := Denote(c)];
    if n in t.fields {
      assert SetIn(Denote(t.fields[n]), [], Denote(c)) == Some(Denote(c));
    }
  }

  lemma DenoteWithElement(t: Tree, i: nat, c: Tree)
    requires t.List?
    ensures SetIn(Denote(t), [Index(i)], Denote(c))
         == match WithChild(t, Index(i), c) case Some(u) => Some(Denote(u)) case None => None
  {
    if i < |t.items| {
      assert SetIn(Denote(t.items[i]), [], Denote(c)) == Some(Denote(c));
      assert Denote(WithChild(t, Index(i), c).value).items == Denote(t).items[i := Denote(c)];
    } else if i == |t.items| {
      assert Denote(WithChild(t, Index(i), c).value).items == Denote(t).items + [Denote(c)];
    }
  }

  lemma {:induction false} DenoteSubst(t: Tree, p: Path, u: Tree)
    requires At(t, p).Some? && Open(t, p)
    ensures SetIn(Denote(t), p, Denote(u)) == Some(Denote(Subst(t, p, u)))
    decreases p
  {
    if p != [] {
      var c := Child(t, p[0]).value;
      var c' := Subst(c, p[1..], u);
      DenoteSubst(c, p[1..], u);
      DenoteStep(t, p[0]);
      DenoteWithChild(t, p[0], c');
      var d := Denote(c');
      assert SetIn(Denote(t), p, Denote(u)) == SetIn(Denote(t), [p[0]], d);
    }
  }

  /** Replacing a packed entity's inner tree replaces the document there. */
  lemma DenoteSubstPacked(t: Tree, p: Path, e: Tree, inner: Tree)
    requires At(t, p) == Some(e) && e.Packed? && Open(t, p)
    ensures SetIn(Denote(t), p, Denote(inner)) == Some(Denote(Subst(t, p, Packed(e.key, inner))))
  {
    DenoteSubst(t, p, Packed(e.key, inner));
  }

  lemma {:induction false} DenoteWithoutChild(t: Tree, seg: Segment)
    requires !t.Packed? && Child(t, seg).Some?
    ensures Denote(WithoutChild(t, seg)) == RemoveIn(Denote(t), [seg])
  {
    match t
    case Object(_, fields) =>
      assert Denote(WithoutChild(t, seg)).entries == Denote(t).entries - {seg.name};
    case List(_, items) =>
      var i := seg.index;
      assert Denote(WithoutChild(t, seg)).items == Denote(t).items[..i] + Denote(t).items[i + 1..];
  }

  // ----- open paths -----------------------------------------------------------

  lemma {:induction false} OpenSplit(t: Tree, p: Path, q: Path)
    ensures Open(t, p + q) ==> Open(t, p)
    ensures Open(t, p + q) && At(t, p).Some? ==> Open(At(t, p).value, q)
    ensures Open(t, p) && (At(t, p).Some? ==> Open(At(t, p).value, q)) ==> Open(t, p + q)
    decreases p
  {
    if p == [] {
      assert p + q == q;
    } else {
      assert (p + q)[1..] == p[1..] + q;
      if Child(t, p[0]).Some? {
        OpenSplit(Child(t, p[0]).value, p[1..], q);
      }
    }
  }

  lemma {:induction false} OpenAfterSubst(t: Tree, p: Path, u: Tree)
    requires At(t, p).Some? && Open(t, p)
    ensures Open(Subst(t, p, u), p)
    decreases p
  {
    if p != [] {
      OpenAfterSubst(Child(t, p[0]).value, p[1..], u);
    }
  }

  // ----- ensuring a container -------------------------------------------------

  function KindOfValue(v: Value): Kind {
    match v
    case VLeaf(_) => KLeaf
    case VList(_) => KList
    case VNode(_) => KObject
  }

  lemma {:induction false} KindDenotes(t: Tree)
    ensures KindOfValue(Denote(t)) == KindOf(t)
  {
    if t.Packed? {
      KindDenotes(t.inner);
    }
  }

  /** A missing container appears empty at its path; an existing one is left alone,
      and is accepted only when it is of the wanted kind. */
  ghost predicate EnsuresContainer(doc: Document, rel: Path, list: bool, r: Option<Grown>) {
    match SubDoc(doc, rel)
    case Some(v) =>
      && (r.Some? <==> KindOfValue(v) == ContainerKind(list))
      && (r.Some? ==> Some(Denote(r.value.tree)) == doc)
    case None =>
      SetDoc(doc, rel, EmptyValue(list)) == match r case Some(g) => Some(Denote(g.tree)) case None => None
  }

  /** Ensuring the parent and then writing the child is one `SetIn` of the child. */
  lemma EnsureThenSet(doc: Document, rel: Path, x: Value, r: Option<Grown>)
    requires rel != [] && EnsuresContainer(doc, Parent(rel), Last(rel).Index?, r)
    ensures SetDoc(doc, rel, x) == match r case Some(g) => SetIn(Denote(g.tree), rel, x) case None => None
  {
    var parent, list := Parent(rel), Last(rel).Index?;
    assert rel == parent + [Last(rel)];
    match SubDoc(doc, parent)
    case Some(v) =>
      SetBelow(doc.value, parent, [Last(rel)], x);
    case None =>
      SetDocMissing(doc, parent, [Last(rel)], x);
      FreshLast(Last(rel), x);
      if r.Some? {
        SetDocThenSet(doc, parent, EmptyValue(list), [Last(rel)], x);
      } else if BuildFresh([Last(rel)], x).Some? {
        SetDocIgnoresValue(doc, parent, EmptyValue(list), BuildFresh([Last(rel)], x).value);
      }
  }

  lemma FreshLast(seg: Segment, x: Value)
    ensures BuildFresh([seg], x) == SetIn(EmptyValue(seg.Index?), [seg], x)
  {
    assert BuildFresh([seg][1..], x) == Some(x);
    match seg
    case Name(n) => assert map[n := x] == (map[])[n := x];
    case Index(_) => assert [] + [x] == [x];
  }

  lemma AttachDenotes(g: Grown, p: Path, child: Tree)
    requires p != [] && At(g.tree, Parent(p)).Some? && Open(g.tree, p)
    ensures SetIn(Denote(g.tree), p, Denote(child))
         == match AttachT(g, p, child) case Some(r) => Some(Denote(r.tree)) case None => None
  {
    var parent := At(g.tree, Parent(p)).value;
    assert p == Parent(p) + [Last(p)];
    OpenSplit(g.tree, Parent(p), [Last(p)]);
    OpenRead(g.tree, Parent(p));
    DenoteWithChild(parent, Last(p), child);
    SetBelow(Denote(g.tree), Parent(p), [Last(p)], Denote(child));
    if WithChild(parent, Last(p), child).Some? {
      DenoteSubst(g.tree, Parent(p), WithChild(parent, Last(p), child).value);
    }
  }

  lemma StepOpen(t: Tree, seg: Segment, c: Tree)
    requires WithChild(t, seg, c).Some?
    ensures Open(WithChild(t, seg, c).value, [seg])
  {
    assert Open(c, [seg][1..]);
  }

  lemma AttachOpen(g: Grown, p: Path, child: Tree)
    requires p != [] && At(g.tree, Parent(p)).Some? && Open(g.tree, p)
    requires AttachT(g, p, child).Some?
    ensures Open(AttachT(g, p, child).value.tree, p)
  {
    var parent := WithChild(At(g.tree, Parent(p)).value, Last(p), child).value;
    assert p == Parent(p) + [Last(p)];
    OpenSplit(g.tree, Parent(p), [Last(p)]);
    OpenAfterSubst(g.tree, Parent(p), parent);
    StepOpen(At(g.tree, Parent(p)).value, Last(p), child);
    OpenSplit(Subst(g.tree, Parent(p), parent), Parent(p), [Last(p)]);
  }

  /** What is open stays open one segment further: the ensured container is packed only if it was. */
  lemma {:induction false} EnsureOpen(t: Option<Tree>, rel: Path, list: bool, next: Skey)
    requires OpenDoc(t, rel) && EnsureT(t, rel, list, next).Some?
    ensures Open(EnsureT(t, rel, list, next).value.tree, rel)
    ensures At(EnsureT(t, rel, list, next).value.tree, rel).value.Packed? ==> AtDoc(t, rel).Some? && AtDoc(t, rel).value.Packed?
    decreases |rel|
  {
    if AtDoc(t, rel).None? && rel != [] {
      assert rel == Parent(rel) + [Last(rel)];
      if t.Some? { OpenSplit(t.value, Parent(rel), [Last(rel)]); }
      EnsureOpen(t, Parent(rel), Last(rel).Index?, next);
      var g := EnsureT(t, Parent(rel), Last(rel).Index?, next).value;
      OpenSplit(g.tree, Parent(rel), [Last(rel)]);
      AttachOpen(g, rel, EmptyContainer(g.next, list));
    }
  }

  lemma EnsureParentOpen(t: Option<Tree>, rel: Path, next: Skey)
    requires rel != [] && OpenDoc(t, rel) && EnsureT(t, Parent(rel), Last(rel).Index?, next).Some?
    ensures Open(EnsureT(t, Parent(rel), Last(rel).Index?, next).value.tree, rel)
  {
    assert rel == Parent(rel) + [Last(rel)];
    if t.Some? { OpenSplit(t.value, Parent(rel), [Last(rel)]); }
    EnsureOpen(t, Parent(rel), Last(rel).Index?, next);
    OpenSplit(EnsureT(t, Parent(rel), Last(rel).Index?, next).value.tree, Parent(rel), [Last(rel)]);
  }

  /** Ensuring the parent and attaching `child` writes `child` at `rel`. */
  lemma ParentThenAttach(t: Option<Tree>, rel: Path, child: Tree, next: Skey)
    requires rel != [] && OpenDoc(t, rel)
    requires EnsuresContainer(DocumentOf(t), Parent(rel), Last(rel).Index?, EnsureT(t, Parent(rel), Last(rel).Index?, next))
    ensures SetDoc(DocumentOf(t), rel, Denote(child))
         == match EnsureT(t, Parent(rel), Last(rel).Index?, next)
            case None => None
            case Some(g) => (match AttachT(g, rel, child) case Some(r) => Some(Denote(r.tree)) case None => None)
  {
    var r := EnsureT(t, Parent(rel), Last(rel).Index?, next);
    EnsureThenSet(DocumentOf(t), rel, Denote(child), r);
    if r.Some? {
      EnsureParentOpen(t, rel, next);
      AttachDenotes(r.value, rel, child);
    }
  }

  lemma {:induction false} EnsureDenotes(t: Option<Tree>, rel: Path, list: bool, next: Skey)
    requires OpenDoc(t, rel)
    ensures EnsuresContainer(DocumentOf(t), rel, list, EnsureT(t, rel, list, next))
    decreases |rel|
  {
    if t.Some? { OpenRead(t.value, rel); }
    match AtDoc(t, rel)
    case Some(u) => KindDenotes(u);
    case None =>
      if rel == [] {
        assert Denote(EmptyContainer(ROOT, list)) == EmptyValue(list);
      } else {
        EnsureParentDenotes(t, rel, next);
        var r := EnsureT(t, Parent(rel), Last(rel).Index?, next);
        var k := if r.Some? then r.value.next else ROOT;
        assert Denote(EmptyContainer(k, list)) == EmptyValue(list);
        ParentThenAttach(t, rel, EmptyContainer(k, list), next);
      }
  }

  lemma {:induction false} EnsureParentDenotes(t: Option<Tree>, rel: Path, next: Skey)
    requires rel != [] && OpenDoc(t, rel)
    ensures EnsuresContainer(DocumentOf(t), Parent(rel), Last(rel).Index?, EnsureT(t, Parent(rel), Last(rel).Index?, next))
    decreases |rel|, 0
  {
    assert rel == Parent(rel) + [Last(rel)];
    if t.Some? { OpenSplit(t.value, Parent(rel), [Last(rel)]); }
    EnsureDenotes(t, Parent(rel), Last(rel).Index?, next);
  }

  // ----- storing a scalar -----------------------------------------------------

  lemma PutRelDenotes(t: Option<Tree>, rel: Path, s: Scalar, next: Skey)
    requires OpenDoc(t, rel)
    ensures SetDoc(DocumentOf(t), rel, VLeaf(s))
         == match PutRelT(t, rel, s, next) case Some(g) => Some(Denote(g.tree)) case None => None
  {
    if rel != [] {
      EnsureParentDenotes(t, rel, next);
      var r := EnsureT(t, Parent(rel), Last(rel).Index?, next);
      ParentThenAttach(t, rel, Leaf(if r.Some? then r.value.next else ROOT, s), next);
    }
  }

  /** The engine's two path-update algorithms agree: storing a scalar in the keyed
      tree, in plain nodes or inside a blob, succeeds exactly when `SetIn` does on
      the denoted document, and denotes its result. */
  lemma PutDenotes(t: Option<Tree>, p: Path, s: Scalar, next: Skey)
    requires t.Some? ==> Distinct(t.value)
    ensures SetDoc(DocumentOf(t), p, VLeaf(s))
         == match PutT(t, p, s, next) case Some(g) => Some(Denote(g.tree)) case None => None
  {
    match LocateDoc(t, p)
    case Inside(e, at, rel) => PutInsideDenotes(t.value, p, s, next);
    case _ => PutRelDenotes(t, p, s, next);
  }

  lemma PutInsideDenotes(t: Tree, p: Path, s: Scalar, next: Skey)
    requires Distinct(t) && Locate(t, p).Inside?
    ensures SetIn(Denote(t), p, VLeaf(s))
         == match PutT(Some(t), p, s, next) case Some(g) => Some(Denote(g.tree)) case None => None
  {
    hide SetIn, Encode, PutInsideT, Keys, Distinct, PackedFree;
    var Inside(e, at, rel) := Locate(t, p);
    AtKeys(t, at);
    BlobEditDenotes(e.inner, rel, s, next);
    WriteInside(t, p, VLeaf(s));
    var r := PutInsideT(e.inner, rel, s, next);
    if r.Some? {
      LocateOpen(t, p);
      DenoteSubstPacked(t, at, e, r.value.tree);
    }
  }

  /** The in-place overwrite and the general write store the same document. */
  lemma BlobEditDenotes(inner: Tree, rel: Path, s: Scalar, next: Skey)
    requires PackedFree(inner)
    ensures SetIn(Denote(inner), rel, VLeaf(s))
         == match PutInsideT(inner, rel, s, next) case Some(g) => Some(Denote(g.tree)) case None => None
  {
    DenoteAt(inner, rel);
    PutRelDenotes(Some(inner), rel, s, next);
    match At(inner, rel)
    case Some(Leaf(k, _)) =>
      DenoteSubst(inner, rel, Leaf(k, s));
    case _ =>
  }

  /** A write at a path inside a packed entity edits the entity's own document. */
  lemma WriteInside(t: Tree, p: Path, x: Value)
    requires Locate(t, p).Inside?
    ensures SetIn(Denote(t), p, x)
         == match SetIn(Denote(Locate(t, p).entity), Locate(t, p).rel, x)
            case Some(y) => SetIn(Denote(t), Locate(t, p).at, y) case None => None
  {
    LocateOpen(t, p);
    OpenRead(t, Locate(t, p).at);
    SetBelow(Denote(t), Locate(t, p).at, Locate(t, p).rel, x);
  }

  lemma {:induction false} LocateOpen(t: Tree, p: Path)
    requires Locate(t, p).Inside?
    ensures Open(t, Locate(t, p).at)
    decreases p
  {
    if !t.Packed? {
      LocateOpen(Child(t, p[0]).value, p[1..]);
    }
  }

  // ----- soundness ------------------------------------------------------------

  /** Only keys handed out by the supply are new. */
  ghost predicate Extends(t: Option<Tree>, next: Skey, g: Grown) {
    && Sound(Some(g.tree), g.next)
    && next <= g.next
    && (forall k | k in Keys(g.tree) :: k == ROOT || (t.Some? && k in Keys(t.value)) || next <= k < g.next)
    && ((t.Some? ==> PackedFree(t.value)) ==> PackedFree(g.tree))
  }

  lemma {:induction false} SubstPackedFree(t: Tree, p: Path, u: Tree)
    requires PackedFree(t) && PackedFree(u) && At(t, p).Some?
    ensures PackedFree(Subst(t, p, u))
    decreases p
  {
    if p != [] {
      SubstPackedFree(Child(t, p[0]).value, p[1..], u);
      WithChildPackedFree(t, p[0], Subst(Child(t, p[0]).value, p[1..], u));
    }
  }

  lemma WithChildPackedFree(t: Tree, seg: Segment, c: Tree)
    requires PackedFree(t) && PackedFree(c) && WithChild(t, seg, c).Some?
    ensures PackedFree(WithChild(t, seg, c).value)
  {}

  lemma AttachKeys(g: Grown, p: Path, child: Tree)
    requires Distinct(g.tree) && p != [] && At(g.tree, Parent(p)).Some?
    requires Distinct(child) && AttachT(g, p, child).Some? && Keys(child) !! Keys(g.tree)
    ensures Distinct(AttachT(g, p, child).value.tree)
    ensures Keys(AttachT(g, p, child).value.tree)
         == Keys(g.tree) - OldKeys(At(g.tree, Parent(p)).value, Last(p)) + Keys(child)
  {
    var parent := At(g.tree, Parent(p)).value;
    AtKeys(g.tree, Parent(p));
    WithChildKeys(parent, Last(p), child);
    WithChildDistinct(parent, Last(p), child);
    SubstShape(g.tree, Parent(p), WithChild(parent, Last(p), child).value);
    OldKeysInside(parent, Last(p));
    SwapInside(Keys(g.tree), Keys(parent), OldKeys(parent, Last(p)), Keys(child));
  }

  lemma OldKeysInside(t: Tree, seg: Segment)
    ensures OldKeys(t, seg) <= Keys(t)
  {}

  lemma SwapInside<T>(whole: set<T>, part: set<T>, o: set<T>, n: set<T>)
    requires o <= part <= whole
    ensures whole - part + (part - o + n) == whole - o + n
  {}

  lemma AttachSound(g: Grown, p: Path, child: Tree)
    requires Sound(Some(g.tree), g.next) && p != [] && At(g.tree, Parent(p)).Some?
    requires Distinct(child) && AttachT(g, p, child).Some? && Keys(child) !! Keys(g.tree)
    requires forall k | k in Keys(child) :: k <= g.next
    ensures Sound(Some(AttachT(g, p, child).value.tree), g.next + 1)
    ensures Keys(AttachT(g, p, child).value.tree) <= Keys(g.tree) + Keys(child)
  {
    AttachKeys(g, p, child);
  }

  lemma AttachExtends(t: Option<Tree>, next: Skey, g: Grown, p: Path, child: Tree)
    requires Extends(t, next, g) && p != [] && At(g.tree, Parent(p)).Some?
    requires AttachT(g, p, child).Some? && child.key == g.next
    requires child.Leaf? || child == EmptyContainer(g.next, true) || child == EmptyContainer(g.next, false)
    ensures Extends(t, next, AttachT(g, p, child).value)
  {
    assert Keys(child) == {g.next} && Distinct(child);
    AttachSound(g, p, child);
    var parent := At(g.tree, Parent(p)).value;
    if PackedFree(g.tree) {
      AtKeys(g.tree, Parent(p));
      WithChildPackedFree(parent, Last(p), child);
      SubstPackedFree(g.tree, Parent(p), WithChild(parent, Last(p), child).value);
    }
  }

  lemma {:induction false} EnsureExtends(t: Option<Tree>, rel: Path, list: bool, next: Skey)
    requires Sound(t, next) && EnsureT(t, rel, list, next).Some?
    ensures Extends(t, next, EnsureT(t, rel, list, next).value)
    decreases |rel|
  {
    if AtDoc(t, rel).None? && rel != [] {
      EnsureExtends(t, Parent(rel), Last(rel).Index?, next);
      var g := EnsureT(t, Parent(rel), Last(rel).Index?, next).value;
      AttachExtends(t, next, g, rel, EmptyContainer(g.next, list));
    }
  }

  /** Ensuring the parent of a missing place does not create the place itself. */
  lemma EnsureMissing(t: Option<Tree>, rel: Path, next: Skey)
    requires rel != [] && EnsureT(t, Parent(rel), Last(rel).Index?, next).Some?
    requires AtDoc(t, rel).None?
    ensures Child(At(EnsureT(t, Parent(rel), Last(rel).Index?, next).value.tree, Parent(rel)).value, Last(rel)) == None
  {
    assert rel == Parent(rel) + [Last(rel)];
    if t.Some? {
      AtSplit(t.value, Parent(rel), [Last(rel)]);
      if At(t.value, Parent(rel)).Some? {
        ChildAt(At(t.value, Parent(rel)).value, Last(rel));
      }
    }
  }

  lemma EnsureUnfolds(t: Option<Tree>, rel: Path, list: bool, next: Skey)
    requires rel != [] && AtDoc(t, rel).None?
    ensures EnsureT(t, rel, list, next)
         == match EnsureT(t, Parent(rel), Last(rel).Index?, next)
            case None => None
            case Some(g) => AttachT(g, rel, EmptyContainer(g.next, list))
  {}

  lemma ChildAt(t: Tree, seg: Segment)
    ensures At(t, [seg]) == Child(t, seg)
  {
    if Child(t, seg).Some? {
      assert At(Child(t, seg).value, [seg][1..]) == Child(t, seg);
    }
  }

  /** The container an ensured path ends in takes the next segment, unless it is packed. */
  lemma EnsuredFits(t: Option<Tree>, rel: Path, next: Skey)
    requires rel != [] && OpenDoc(t, rel) && EnsureT(t, Parent(rel), Last(rel).Index?, next).Some?
    ensures var u := At(EnsureT(t, Parent(rel), Last(rel).Index?, next).value.tree, Parent(rel)).value;
            if Last(rel).Index? then u.List? else u.Object?
  {
    EnsureParentOpen(t, rel, next);
    var g := EnsureT(t, Parent(rel), Last(rel).Index?, next).value;
    assert rel == Parent(rel) + [Last(rel)];
    OpenSplit(g.tree, Parent(rel), [Last(rel)]);
  }

  lemma PutRelExtends(t: Option<Tree>, rel: Path, s: Scalar, next: Skey)
    requires Sound(t, next) && PutRelT(t, rel, s, next).Some?
    ensures Extends(t, next, PutRelT(t, rel, s, next).value)
  {
    if rel != [] {
      EnsureExtends(t, Parent(rel), Last(rel).Index?, next);
      var g := EnsureT(t, Parent(rel), Last(rel).Index?, next).value;
      AttachExtends(t, next, g, rel, Leaf(g.next, s));
    }
  }

  /** A packed entity's inner tree is a sound table of its own. */
  lemma InnerSound(t: Tree, at: Path, next: Skey)
    requires Sound(Some(t), next) && At(t, at).Some? && At(t, at).value.Packed?
    ensures Sound(Some(At(t, at).value.inner), next) && PackedFree(At(t, at).value.inner)
  {
    AtKeys(t, at);
  }

  /** Replacing a packed entity's inner tree by one grown from it keeps the table sound. */
  lemma RepackSound(t: Tree, at: Path, next: Skey, g: Grown)
    requires Sound(Some(t), next) && At(t, at).Some? && At(t, at).value.Packed?
    requires Extends(Some(At(t, at).value.inner), next, g)
    ensures Sound(Some(Subst(t, at, Packed(At(t, at).value.key, g.tree))), g.next)
  {
    var e := At(t, at).value;
    AtKeys(t, at);
    KeyIsOwn(e);
    assert e.key in Keys(t);
    SubstShape(t, at, Packed(e.key, g.tree));
  }

  lemma PutInsideExtends(inner: Tree, rel: Path, s: Scalar, next: Skey)
    requires Sound(Some(inner), next) && PackedFree(inner) && PutInsideT(inner, rel, s, next).Some?
    ensures Extends(Some(inner), next, PutInsideT(inner, rel, s, next).value)
  {
    hide Encode, Distinct, Keys, PackedFree;
    match At(inner, rel)
    case Some(Leaf(k, was)) =>
      if |Encode(was)| == |Encode(s)| {
        AtKeys(inner, rel);
        SubstShape(inner, rel, Leaf(k, s));
        SubstPackedFree(inner, rel, Leaf(k, s));
      } else {
        PutRelExtends(Some(inner), rel, s, next);
      }
    case _ => PutRelExtends(Some(inner), rel, s, next);
  }
}
