/** Which mutations leave the indexed entities off their own line alone. */
module Brackets {
  import opened Basics
  import opened Scalars
  import opened Skeys
  import opened Paths
  import opened Values
  import opened Trees
  import opened TreeLaws
  import opened Elsewhere
  import opened Removal
  import opened Patterns
  import opened Maintenance
  import Storing
  import Containers

  /** A change that touches only its own line cannot disturb any index off it. */
  lemma UntouchedBrackets(t: Option<Tree>, t': Option<Tree>, pat: Pattern, scope: Path)
    requires Untouched(t, t', scope)
    ensures Bracketed(t, t', pat, scope)
  {
    hide Matches;
    forall q | Selected(t, pat, q) && !Comparable(scope, q) ensures StillThere(t, q, t', pat) {
      assert Selected(t', pat, q) && SamePlace(t, q, t', q);
    }
    forall q | Selected(t', pat, q) && !Comparable(scope, q) ensures WasThere(t, t', q, pat, scope) {
      assert Selected(t, pat, q) && SamePlace(t, q, t', q);
    }
  }

  lemma PutBrackets(t: Option<Tree>, p: Path, s: Scalar, next: Skey, pat: Pattern)
    requires PutT(t, p, s, next).Some?
    ensures Bracketed(t, Some(PutT(t, p, s, next).value.tree), pat, p)
  {
    PutUntouched(t, p, s, next);
    UntouchedBrackets(t, Some(PutT(t, p, s, next).value.tree), pat, p);
  }

  lemma ClearBrackets(t: Option<Tree>, p: Path, pat: Pattern)
    requires Containers.ClearT(t, p).Some?
    ensures Bracketed(t, Containers.ClearT(t, p), pat, p)
  {
    hide Bracketed, Untouched;
    match AtDoc(t, p) {
      case Some(List(k, _)) => SubstUntouched(t.value, p, List(k, []));
      case Some(Object(k, _)) => SubstUntouched(t.value, p, Object(k, map[]));
    }
    UntouchedBrackets(t, Containers.ClearT(t, p), pat, p);
  }

  // ----- removal ----------------------------------------------------------------

  /** A pattern names list positions only through wildcards, or the first position. */
  predicate Steady(pat: Pattern) { forall i | 0 <= i < |pat| :: pat[i].Lit? && pat[i].seg.Index? ==> pat[i].seg.index == 0 }

  /** The segment under which a child is found after a sibling at `at` has gone. */
  function After(at: Segment, seg: Segment): Segment {
    if at.Index? && seg.Index? && at.index < seg.index then Index(seg.index - 1) else seg
  }

  /** Where a node found under `seg` after the removal was before it. */
  function Before(at: Segment, seg: Segment): Segment {
    if at.Index? && seg.Index? && at.index <= seg.index then Index(seg.index + 1) else seg
  }

  lemma RemovedChild(u: Tree, at: Segment, seg: Segment)
    requires Child(u, at).Some?
    ensures seg != at ==> Child(WithoutChild(u, at), After(at, seg)) == Child(u, seg)
    ensures Child(WithoutChild(u, at), seg).Some? ==> Before(at, seg) != at && Child(u, Before(at, seg)) == Child(WithoutChild(u, at), seg)
    ensures Before(at, seg) != at ==> (at.Index? <==> seg.Index?) && Child(u, seg).Some? ==> After(at, Before(at, seg)) == seg
  {}

  /** One path with the segment at `n` changed. */
  function Turned(q: Path, n: nat, seg: Segment): Path
    requires n < |q|
  {
    q[n := seg]
  }

  lemma BelowParent(t: Tree, parent: Path, q: Path)
    requires parent < q && At(t, parent).Some?
    ensures At(t, q) == match Child(At(t, parent).value, q[|parent|]) case Some(c) => At(c, q[|parent| + 1..]) case None => None
  {
    var n := |parent|;
    AtSplit(t, parent, q[n..]);
    assert q == parent + q[n..] && q[n..][0] == q[n] && q[n..][1..] == q[n + 1..];
  }

  /** A node beside the removed one is found afterwards under its shifted segment. */
  lemma MovedAfter(t: Tree, p: Path, q: Path)
    requires p != [] && At(t, p).Some? && Parent(p) < q && q[|p| - 1] != Last(p)
    ensures At(RemoveRelT(t, p).value, Turned(q, |p| - 1, After(Last(p), q[|p| - 1]))) == At(t, q)
  {
    hide Subst;
    var n, t', seg := |p| - 1, RemoveRelT(t, p).value, q[|p| - 1];
    ParentAfterRemoval(t, p);
    var q' := Turned(q, n, After(Last(p), seg));
    assert Parent(p) < q' && q'[n + 1..] == q[n + 1..];
    BelowParent(t, Parent(p), q);
    BelowParent(t', Parent(p), q');
    RemovedChild(At(t, Parent(p)).value, Last(p), seg);
  }

  lemma MovedBefore(t: Tree, p: Path, q: Path)
    requires p != [] && At(t, p).Some? && Parent(p) < q && At(RemoveRelT(t, p).value, q).Some?
    ensures Before(Last(p), q[|p| - 1]) != Last(p)
    ensures At(t, Turned(q, |p| - 1, Before(Last(p), q[|p| - 1]))) == At(RemoveRelT(t, p).value, q)
  {
    hide Subst;
    var n, t', seg := |p| - 1, RemoveRelT(t, p).value, q[|p| - 1];
    ParentAfterRemoval(t, p);
    var q' := Turned(q, n, Before(Last(p), seg));
    assert Parent(p) < q' && q'[n + 1..] == q[n + 1..];
    BelowParent(t, Parent(p), q');
    BelowParent(t', Parent(p), q);
    RemovedChild(At(t, Parent(p)).value, Last(p), seg);
  }

  lemma ParentAfterRemoval(t: Tree, p: Path)
    requires p != [] && At(t, p).Some?
    ensures At(t, Parent(p)).Some? && Child(At(t, Parent(p)).value, Last(p)).Some?
    ensures At(RemoveRelT(t, p).value, Parent(p)) == Some(WithoutChild(At(t, Parent(p)).value, Last(p)))
  {
    assert p == Parent(p) + [Last(p)];
    AtSplit(t, Parent(p), [Last(p)]);
    ChildAt(At(t, Parent(p)).value, Last(p));
  }

  lemma SteadyAfter(pat: Pattern, q: Path, n: nat, at: Segment)
    requires Steady(pat) && Matches(pat, q) && n < |q| && q[n] != at
    ensures Matches(pat, Turned(q, n, After(at, q[n])))
  {
    if pat[n].Lit? { assert pat[n].seg == q[n]; }
  }

  lemma SteadyBefore(pat: Pattern, q: Path, n: nat, at: Segment)
    requires Steady(pat) && Matches(pat, q) && n < |q| && q[n] != at
    ensures Matches(pat, Turned(q, n, Before(at, q[n])))
  {
    if pat[n].Lit? { assert pat[n].seg == q[n]; }
  }

  lemma TurnedApart(p: Path, q: Path, seg: Segment)
    requires p != [] && Parent(p) < q && seg != Last(p)
    ensures !Comparable(p, Turned(q, |p| - 1, seg)) && Turned(q, |p| - 1, seg) != []
  {
    assert Turned(q, |p| - 1, seg)[|p| - 1] == seg && p[|p| - 1] == Last(p);
  }

  lemma FoundPlace(t: Option<Tree>, q: Path, t': Option<Tree>, q': Path)
    requires q != [] && q' != [] && AtDoc(t, q).Some? && AtDoc(t', q') == AtDoc(t, q)
    ensures SamePlace(t, q, t', q')
  {}

  /** Elements shifted by a removal keep their keys; a wildcard still selects them. */
  lemma ShiftBrackets(t: Tree, p: Path, pat: Pattern)
    requires p != [] && At(t, p).Some? && Steady(pat)
    ensures Bracketed(Some(t), RemoveRelT(t, p), pat, p)
  {
    hide Matches, Subst, Steady;
    var t' := RemoveRelT(t, p);
    forall q | Selected(Some(t), pat, q) && !Comparable(p, q) ensures StillThere(Some(t), q, t', pat) {
      ShiftStill(t, p, pat, q);
    }
    forall q | Selected(t', pat, q) && !Comparable(p, q) ensures WasThere(Some(t), t', q, pat, p) {
      ShiftWas(t, p, pat, q);
    }
  }

  lemma ShiftStill(t: Tree, p: Path, pat: Pattern, q: Path)
    requires p != [] && At(t, p).Some? && Steady(pat) && Selected(Some(t), pat, q) && !Comparable(p, q)
    ensures StillThere(Some(t), q, RemoveRelT(t, p), pat)
  {
    hide Matches, Subst, Steady;
    var t' := RemoveRelT(t, p);
    ParentAfterRemoval(t, p);
    if Comparable(Parent(p), q) {
      NotBesideParent(p, q);
      MovedAfter(t, p, q);
      SteadyAfter(pat, q, |p| - 1, Last(p));
      var q' := Turned(q, |p| - 1, After(Last(p), q[|p| - 1]));
      FoundPlace(Some(t), q, t', q');
      assert Selected(t', pat, q');
    } else {
      AtSubst(t, Parent(p), WithoutChild(At(t, Parent(p)).value, Last(p)), q);
      assert Selected(t', pat, q) && SamePlace(Some(t), q, t', q);
    }
  }

  lemma ShiftWas(t: Tree, p: Path, pat: Pattern, q: Path)
    requires p != [] && At(t, p).Some? && Steady(pat) && Selected(RemoveRelT(t, p), pat, q) && !Comparable(p, q)
    ensures WasThere(Some(t), RemoveRelT(t, p), q, pat, p)
  {
    hide Matches, Subst, Steady;
    var t' := RemoveRelT(t, p);
    ParentAfterRemoval(t, p);
    if Comparable(Parent(p), q) {
      NotBesideParent(p, q);
      MovedBefore(t, p, q);
      SteadyBefore(pat, q, |p| - 1, Last(p));
      var q' := Turned(q, |p| - 1, Before(Last(p), q[|p| - 1]));
      TurnedApart(p, q, Before(Last(p), q[|p| - 1]));
      FoundPlace(Some(t), q', t', q);
      assert Selected(Some(t), pat, q') && !Comparable(p, q');
    } else {
      AtSubst(t, Parent(p), WithoutChild(At(t, Parent(p)).value, Last(p)), q);
      assert Selected(Some(t), pat, q) && SamePlace(Some(t), q, t', q);
    }
  }

  /** Removing a subtree keeps every index whose pattern is steady. */
  lemma RemoveBrackets(t: Option<Tree>, p: Path, pat: Pattern)
    requires Steady(pat)
    ensures Bracketed(t, RemoveT(t, p), pat, p)
  {
    hide Matches, Subst, Steady, Bracketed, Untouched;
    match LocateDoc(t, p)
    case Inside(e, at, rel) =>
      if rel != [] && At(e.inner, rel).Some? {
        var u := Packed(e.key, RemoveRelT(e.inner, rel).value);
        InsideUntouched(t.value, p, at, u);
        UntouchedBrackets(t, RemoveT(t, p), pat, p);
      } else if rel == [] {
        WholeBrackets(t, p, pat);
      } else {
        UntouchedRefl(t, p);
        UntouchedBrackets(t, t, pat, p);
      }
    case _ => WholeBrackets(t, p, pat);
  }

  lemma WholeBrackets(t: Option<Tree>, p: Path, pat: Pattern)
    requires Steady(pat)
    ensures Bracketed(t, RemoveWhole(t, p), pat, p)
  {
    hide Matches, Subst, Steady;
    if p == [] {
      forall q ensures Comparable(p, q) {}
    } else if AtDoc(t, p).Some? {
      ShiftBrackets(t.value, p, pat);
    } else {
      UntouchedRefl(t, p);
      UntouchedBrackets(t, t, pat, p);
    }
  }

  // ----- storing ----------------------------------------------------------------

  /** Removing what is at a named place or at a list's end moves nothing else. */
  lemma EndUntouched(t: Option<Tree>, p: Path)
    requires OpenDoc(t, p) && Storing.AtEnd(DocumentOf(t), p)
    ensures Untouched(t, RemoveWhole(t, p), p)
  {
    hide Subst, Denote, Open;
    if p != [] && AtDoc(t, p).Some? {
      ParentAfterRemoval(t.value, p);
      EndOfList(t.value, p);
      RemoveEndUntouched(t.value, p);
    } else if p != [] {
      UntouchedRefl(t, p);
    }
  }

  lemma EndOfList(t: Tree, p: Path)
    requires p != [] && At(t, p).Some? && Storing.AtEnd(Some(Denote(t)), p)
    ensures At(t, Parent(p)).Some? && (At(t, Parent(p)).value.List? ==> Last(p).Index? && Last(p).index + 1 == |At(t, Parent(p)).value.items|)
  {
    hide Subst, Denote;
    ParentAfterRemoval(t, p);
    AtIsOpen(t, Parent(p));
    OpenRead(t, Parent(p));
    var u := At(t, Parent(p)).value;
    if u.List? { Storing.ShortList(u); }
  }

  lemma RemoveEndUntouched(t: Tree, p: Path)
    requires p != [] && At(t, p).Some?
    requires At(t, Parent(p)).Some? && (At(t, Parent(p)).value.List? ==> Last(p).Index? && Last(p).index + 1 == |At(t, Parent(p)).value.items|)
    ensures Untouched(Some(t), RemoveRelT(t, p), p)
  {
    hide Subst;
    var t' := RemoveRelT(t, p);
    var u := At(t, Parent(p)).value;
    var u' := WithoutChild(u, Last(p));
    ParentAfterRemoval(t, p);
    forall q ensures !Comparable(p, q) ==> AtDoc(t', q) == At(t, q)
             ensures q < p && At(t, q).Some? ==> KeyAt(t', q) == KeyAt(Some(t), q)
    {
      AtSubst(t, Parent(p), u', q);
      if !Comparable(p, q) && Comparable(Parent(p), q) {
        NotBesideParent(p, q);
        LastOnly(u, Last(p), q[|p| - 1]);
        BesideChild(t, p, q, u');
      }
      PrefixOfParent(p, q);
      if q == Parent(p) { assert q[|q|..] == []; }
    }
  }

  lemma LastOnly(u: Tree, at: Segment, seg: Segment)
    requires Child(u, at).Some? && seg != at
    requires u.List? ==> at.Index? && at.index + 1 == |u.items|
    ensures Child(WithoutChild(u, at), seg) == Child(u, seg)
  {}

  lemma StoreBrackets(t: Option<Tree>, t': Option<Tree>, p: Path, v: Value, pat: Pattern)
    requires OpenDoc(t, p) && Storing.AtEnd(DocumentOf(t), p) && Storing.Stored(t, t', p, v)
    ensures Bracketed(t, t', pat, p)
  {
    hide Untouched, Bracketed, Open, Denote;
    EndUntouched(t, p);
    UntouchedTrans(t, RemoveWhole(t, p), t', p, p);
    UntouchedBrackets(t, t', pat, p);
  }
}
