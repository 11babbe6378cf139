/** What a write leaves alone: every keyed node off the written path's line, and
    the key of every node above it. */
module Elsewhere {
  import opened Basics
  import opened Scalars
  import opened Skeys
  import opened Paths
  import opened Trees
  import opened TreeLaws

  function KeyAt(t: Option<Tree>, p: Path): Option<Skey> {
    match AtDoc(t, p) case Some(u) => Some(u.key) case None => None
  }

  ghost predicate Untouched(t: Option<Tree>, t': Option<Tree>, p: Path) {
    && (forall q | !Comparable(p, q) :: AtDoc(t', q) == AtDoc(t, q))
    && (forall q | q < p && AtDoc(t, q).Some? :: KeyAt(t', q) == KeyAt(t, q))
  }

  lemma UntouchedTrans(t: Option<Tree>, u: Option<Tree>, v: Option<Tree>, p: Path, q: Path)
    requires Untouched(t, u, p) && Untouched(u, v, q) && p <= q
    ensures Untouched(t, v, p)
  {
    forall x | !Comparable(p, x) ensures AtDoc(v, x) == AtDoc(t, x) {
      ComparableAbove(p, q, x);
    }
  }

  lemma ComparableAbove(p: Path, q: Path, x: Path)
    requires p <= q
    ensures Comparable(q, x) ==> Comparable(p, x)
  {
    if x <= q {
      if |x| <= |p| { assert x == q[..|x|] == p[..|x|]; } else { assert p == q[..|p|] == x[..|p|]; }
    }
  }

  lemma UntouchedRefl(t: Option<Tree>, p: Path)
    ensures Untouched(t, t, p)
  {}

  lemma OtherChild(t: Tree, seg: Segment, c: Tree, other: Segment)
    requires WithChild(t, seg, c).Some? && other != seg
    ensures Child(WithChild(t, seg, c).value, other) == Child(t, other)
  {}

  lemma {:induction false} AtSubst(t: Tree, p: Path, u: Tree, q: Path)
    requires At(t, p).Some?
    ensures !Comparable(p, q) ==> At(Subst(t, p, u), q) == At(t, q)
    ensures p <= q ==> At(Subst(t, p, u), q) == At(u, q[|p|..])
    ensures q < p ==> At(t, q).Some? && KeyAt(Some(Subst(t, p, u)), q) == KeyAt(Some(t), q)
    decreases p
  {
    if p == [] {
      assert q[0..] == q;
    } else if q != [] {
      var c := Child(t, p[0]).value;
      if p[0] == q[0] {
        Values.PrefixStep(p, q);
        StepPrefix(p, q);
        AtSubst(c, p[1..], u, q[1..]);
      } else {
        OtherChild(t, p[0], Subst(c, p[1..], u), q[0]);
      }
    }
  }

  lemma StepPrefix(p: Path, q: Path)
    requires p != [] && q != [] && p[0] == q[0]
    ensures p <= q <==> p[1..] <= q[1..]
    ensures q < p <==> q[1..] < p[1..]
    ensures p <= q ==> q[|p|..] == q[1..][|p[1..]|..]
  {
    assert p == [p[0]] + p[1..] && q == [q[0]] + q[1..];
  }

  lemma NotBesideParent(p: Path, q: Path)
    requires p != [] && !Comparable(p, q) && Comparable(Parent(p), q)
    ensures Parent(p) < q && q[|Parent(p)|] != Last(p)
  {
    PrefixOfParent(p, q);
  }

  lemma PrefixOfParent(p: Path, q: Path)
    requires p != []
    ensures q <= Parent(p) ==> q < p
    ensures q < p ==> q <= Parent(p)
    ensures Parent(p) < q && q[|Parent(p)|] == Last(p) ==> p <= q
  {
    assert p == Parent(p) + [Last(p)];
    if q <= Parent(p) {
      assert q == Parent(p)[..|q|] == p[..|q|];
    } else if Parent(p) < q && q[|Parent(p)|] == Last(p) {
      assert q[..|p|] == Parent(p) + [Last(p)];
    }
    if q < p { assert q == p[..|q|] == Parent(p)[..|q|]; }
  }

  lemma AttachUntouched(g: Grown, p: Path, child: Tree)
    requires p != [] && At(g.tree, Parent(p)).Some? && AttachT(g, p, child).Some?
    ensures Untouched(Some(g.tree), Some(AttachT(g, p, child).value.tree), p)
  {
    var u := At(g.tree, Parent(p)).value;
    var u' := WithChild(u, Last(p), child).value;
    var t' := Subst(g.tree, Parent(p), u');
    forall q | !Comparable(p, q) ensures At(t', q) == At(g.tree, q) {
      AtSubst(g.tree, Parent(p), u', q);
      if Comparable(Parent(p), q) {
        NotBesideParent(p, q);
        BesideChild(g.tree, p, q, u');
      }
    }
    forall q | q < p && At(g.tree, q).Some? ensures KeyAt(Some(t'), q) == KeyAt(Some(g.tree), q) {
      AtSubst(g.tree, Parent(p), u', q);
      PrefixOfParent(p, q);
      if q == Parent(p) { assert q[|q|..] == []; } else { assert q < Parent(p); }
    }
  }

  /** Below the rewritten parent, a sibling of the written child is as before. */
  lemma BesideChild(t: Tree, p: Path, q: Path, u': Tree)
    requires p != [] && At(t, Parent(p)).Some? && Parent(p) < q && q[|Parent(p)|] != Last(p)
    requires Child(u', q[|Parent(p)|]) == Child(At(t, Parent(p)).value, q[|Parent(p)|])
    ensures At(Subst(t, Parent(p), u'), q) == At(t, q)
  {
    var n := |Parent(p)|;
    AtSubst(t, Parent(p), u', q);
    AtSplit(t, Parent(p), q[n..]);
    assert q == Parent(p) + q[n..];
    assert q[n..][0] == q[n];
  }

  predicate IsEmptyContainer(t: Tree, list: bool) { t == EmptyContainer(t.key, list) }

  lemma NothingBelowEmpty(t: Tree, p: Path, list: bool, q: Path)
    requires At(t, p).Some? && IsEmptyContainer(At(t, p).value, list) && p < q
    ensures At(t, q).None?
  {
    AtSplit(t, p, q[|p|..]);
    assert q == p + q[|p|..];
  }

  lemma {:induction false} EnsureUntouched(t: Option<Tree>, rel: Path, list: bool, next: Skey)
    requires EnsureT(t, rel, list, next).Some?
    ensures Untouched(t, Some(EnsureT(t, rel, list, next).value.tree), rel)
    ensures AtDoc(t, rel).None? ==> IsEmptyContainer(At(EnsureT(t, rel, list, next).value.tree, rel).value, list)
    decreases |rel|
  {
    hide Subst;
    if AtDoc(t, rel).Some? {
      UntouchedRefl(t, rel);
    } else if rel == [] {
    } else {
      EnsureParentUntouched(t, rel, next);
      var g := EnsureT(t, Parent(rel), Last(rel).Index?, next).value;
      AttachUntouched(g, rel, EmptyContainer(g.next, list));
      forall q | AtDoc(t, Parent(rel)).None? && Parent(rel) < q ensures At(g.tree, q).None? {
        NothingBelowEmpty(g.tree, Parent(rel), Last(rel).Index?, q);
      }
      UntouchedJoin(t, Some(g.tree), Some(AttachT(g, rel, EmptyContainer(g.next, list)).value.tree), rel);
    }
  }

  lemma {:induction false} EnsureParentUntouched(t: Option<Tree>, rel: Path, next: Skey)
    requires rel != [] && EnsureT(t, Parent(rel), Last(rel).Index?, next).Some?
    ensures Untouched(t, Some(EnsureT(t, Parent(rel), Last(rel).Index?, next).value.tree), Parent(rel))
    ensures AtDoc(t, Parent(rel)).Some? ==> Some(EnsureT(t, Parent(rel), Last(rel).Index?, next).value.tree) == t
    ensures AtDoc(t, Parent(rel)).None? ==>
              IsEmptyContainer(At(EnsureT(t, Parent(rel), Last(rel).Index?, next).value.tree, Parent(rel)).value, Last(rel).Index?)
    decreases |rel|, 0
  {
    EnsureUntouched(t, Parent(rel), Last(rel).Index?, next);
  }

  /** Making the parent first and then its child touches only the child's line: a
      parent that had to be made had nothing below it before. */
  lemma UntouchedJoin(t: Option<Tree>, u: Option<Tree>, v: Option<Tree>, p: Path)
    requires p != [] && Untouched(t, u, Parent(p)) && Untouched(u, v, p)
    requires AtDoc(t, Parent(p)).Some? ==> u == t
    requires AtDoc(t, Parent(p)).None? ==> forall q | Parent(p) < q :: AtDoc(u, q).None?
    ensures Untouched(t, v, p)
  {
    forall q | !Comparable(p, q) ensures AtDoc(v, q) == AtDoc(t, q) {
      if Comparable(Parent(p), q) {
        NotBesideParent(p, q);
        if AtDoc(t, Parent(p)).None? { AbsentBelow(t, Parent(p), q); }
      }
    }
    forall q | q < p && AtDoc(t, q).Some? ensures KeyAt(v, q) == KeyAt(t, q) {
      PrefixOfParent(p, q);
      if q != Parent(p) { assert q < Parent(p) && KeyAt(u, q) == KeyAt(t, q); }
    }
  }

  lemma AbsentBelow(t: Option<Tree>, p: Path, q: Path)
    requires AtDoc(t, p).None? && p <= q
    ensures AtDoc(t, q).None?
  {
    if t.Some? {
      AtSplit(t.value, p, q[|p|..]);
      assert q == p + q[|p|..];
    }
  }

  lemma PutRelUntouched(t: Option<Tree>, rel: Path, s: Scalar, next: Skey)
    requires PutRelT(t, rel, s, next).Some?
    ensures Untouched(t, Some(PutRelT(t, rel, s, next).value.tree), rel)
  {
    hide Subst;
    if rel != [] {
      EnsureParentUntouched(t, rel, next);
      var g := EnsureT(t, Parent(rel), Last(rel).Index?, next).value;
      var c := Leaf(g.next, s);
      AttachUntouched(g, rel, c);
      forall q | AtDoc(t, Parent(rel)).None? && Parent(rel) < q ensures At(g.tree, q).None? {
        NothingBelowEmpty(g.tree, Parent(rel), Last(rel).Index?, q);
      }
      UntouchedJoin(t, Some(g.tree), Some(AttachT(g, rel, c).value.tree), rel);
    }
  }

  lemma SubstUntouched(t: Tree, p: Path, u: Tree)
    requires At(t, p).Some?
    ensures Untouched(Some(t), Some(Subst(t, p, u)), p)
  {
    hide Subst;
    forall q ensures !Comparable(p, q) ==> At(Subst(t, p, u), q) == At(t, q)
             ensures q < p ==> At(t, q).Some? && KeyAt(Some(Subst(t, p, u)), q) == KeyAt(Some(t), q)
    {
      AtSubst(t, p, u, q);
    }
  }

  /** Storing a scalar leaves every node off its path as it was, key and all. */
  lemma PutUntouched(t: Option<Tree>, p: Path, s: Scalar, next: Skey)
    requires PutT(t, p, s, next).Some?
    ensures Untouched(t, Some(PutT(t, p, s, next).value.tree), p)
  {
    hide Subst, PutRelT, PutInsideT;
    match LocateDoc(t, p)
    case Inside(e, at, rel) =>
      var u := Packed(e.key, PutInsideT(e.inner, rel, s, next).value.tree);
      SubstUntouched(t.value, at, u);
      InsideUntouched(t.value, p, at, u);
    case _ => PutRelUntouched(t, p, s, next);
  }

  /** Nothing of the table itself lies below a packed entity. */
  lemma InsideUntouched(t: Tree, p: Path, at: Path, u: Tree)
    requires at <= p && At(t, at).Some? && At(t, at).value.Packed? && u.Packed? && u.key == At(t, at).value.key
    ensures Untouched(Some(t), Some(Subst(t, at, u)), p)
  {
    hide Subst;
    forall q ensures !Comparable(p, q) ==> At(Subst(t, at, u), q) == At(t, q)
             ensures q < p && At(t, q).Some? ==> KeyAt(Some(Subst(t, at, u)), q) == KeyAt(Some(t), q)
    {
      AtSubst(t, at, u, q);
      if at <= q {
        AtSplit(t, at, q[|at|..]);
        assert q == at + q[|at|..];
      } else if Comparable(at, q) {
        ComparableBelow(at, p, q);
      }
    }
  }

  lemma ComparableBelow(at: Path, p: Path, q: Path)
    requires at <= p && q < at
    ensures q < p
  {
    assert q == at[..|q|] == p[..|q|];
  }
}
