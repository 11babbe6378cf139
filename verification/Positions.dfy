/** Index patterns that name a list position. Removing an element shifts the later ones
    under new positions, and the removal's bracket looks only at the removed place's own
    line: so a pattern survives every removal exactly when it names no position past the
    first. */
module Positions {
  import opened Basics
  import opened Scalars
  import opened Skeys
  import opened Paths
  import opened Trees
  import opened TreeLaws
  import opened Edits
  import opened Repacking
  import opened Removal
  import opened Patterns
  import opened Columns
  import opened TableKeys
  import opened Maintenance
  import opened Brackets

  // ----- which patterns survive removals ------------------------------------------

  /** If the index was exact, the bracket around this removal leaves it exact. */
  ghost predicate RemovalExact(e: IndexEntry, t: Option<Tree>, next: Skey, p: Path, data: Entries, d1: Entries, d2: Entries) {
    (Sound(t, next) && Exact(data, t, e) && Deleted(data, d1, t, e, p) && Inserted(d1, d2, RemoveT(t, p), e, p)) ==>
      Exact(d2, RemoveT(t, p), e)
  }

  ghost predicate RemovalsExact(e: IndexEntry) {
    forall t, next, p, data, d1, d2 :: RemovalExact(e, t, next, p, data, d1, d2)
  }

  /** An index stays exact through every removal from every sound tree exactly when its
      pattern names no list position past the first. */
  lemma SteadyExactly(e: IndexEntry)
    ensures RemovalsExact(e) <==> Steady(e.def.pattern)
  {
    hide RemovalExact, Steady;
    if Steady(e.def.pattern) {
      forall t, next, p, data, d1, d2 ensures RemovalExact(e, t, next, p, data, d1, d2) {
        SteadyExact(e, t, next, p, data, d1, d2);
      }
    } else {
      var t, next, p, data := StaleRemoval(e);
      assert !RemovalExact(e, t, next, p, data, data, data);
    }
  }

  lemma SteadyExact(e: IndexEntry, t: Option<Tree>, next: Skey, p: Path, data: Entries, d1: Entries, d2: Entries)
    requires Steady(e.def.pattern)
    ensures RemovalExact(e, t, next, p, data, d1, d2)
  {
    hide Steady, Exact, Deleted, Inserted, RemoveT, Bracketed, Keys, Distinct;
    if Sound(t, next) && Exact(data, t, e) && Deleted(data, d1, t, e, p) && Inserted(d1, d2, RemoveT(t, p), e, p) {
      RemoveBrackets(t, p, e.def.pattern);
      RemoveTSound(t, p, next);
      BracketKeeps(data, d1, d2, t, RemoveT(t, p), e, p);
    }
  }

  lemma RemoveTSound(t: Option<Tree>, p: Path, next: Skey)
    requires Sound(t, next)
    ensures Sound(RemoveT(t, p), next)
  {
    hide Keys, Distinct, Subst;
    match LocateDoc(t, p)
    case Inside(e, at, rel) =>
      if rel == [] {
        WholeSound(t, p, next);
      } else if At(e.inner, rel).Some? {
        InnerSound(t.value, at, next);
        AtKeys(t.value, at);
        RemoveExtends(e.inner, rel, next);
        RepackSound(t.value, at, next, Grown(RemoveRelT(e.inner, rel).value, next));
      }
    case _ => WholeSound(t, p, next);
  }

  lemma WholeSound(t: Option<Tree>, p: Path, next: Skey)
    requires Sound(t, next)
    ensures Sound(RemoveWhole(t, p), next)
  {
    hide Keys, Distinct, Subst;
    if p != [] && AtDoc(t, p).Some? { RemoveSound(t.value, p, next); }
  }

  // ----- a table for any other pattern ---------------------------------------------

  predicate Late(p: PatternSeg) { p.Lit? && p.seg.Index? && p.seg.index > 0 }

  function FirstLate(pat: Pattern): (i: nat)
    requires !Steady(pat)
    ensures i < |pat| && Late(pat[i]) && forall j | 0 <= j < i :: !Late(pat[j])
  {
    if Late(pat[0]) then 0 else FirstLate(pat[1..]) + 1
  }

  /** A segment the pattern's segment accepts. */
  function Seg(p: PatternSeg): Segment { if p.Lit? then p.seg else Name("a") }

  function Spot(pat: Pattern): (q: Path)
    ensures |q| == |pat| && forall i | 0 <= i < |pat| :: q[i] == Seg(pat[i])
  {
    seq(|pat|, i requires 0 <= i < |pat| => Seg(pat[i]))
  }

  function Filler(k: Skey, n: nat): (items: seq<Tree>)
    ensures |items| == n && forall i | 0 <= i < n :: items[i] == Leaf(k + i, Null)
  {
    seq(n, i requires 0 <= i < n => Leaf(k + i, Null))
  }

  /** A tree in which the pattern selects the one place `Spot(pat)`. */
  function Grove(pat: Pattern, k: Skey): Tree {
    if pat == [] then Object(k, map[])
    else match Seg(pat[0])
         case Name(n) => Object(k, map[n := Grove(pat[1..], k + 1)])
         case Index(m) => List(k, Filler(k + 1, m) + [Grove(pat[1..], k + 1 + m)])
  }

  function Width(pat: Pattern): nat {
    if pat == [] then 1
    else match Seg(pat[0])
         case Name(_) => 1 + Width(pat[1..])
         case Index(m) => 1 + m + Width(pat[1..])
  }

  /** The same, but the first late position's list has one more element, which would be
      selected if it stood where the one before it stands. */
  function Row(pat: Pattern, k: Skey): Tree
    requires !Steady(pat)
  {
    var rest := pat[1..];
    if Late(pat[0]) then
      var m := pat[0].seg.index;
      List(k, Filler(k + 1, m) + [Grove(rest, k + 1 + m), Grove(rest, k + 1 + m + Width(rest))])
    else
      LateTail(pat);
      match Seg(pat[0])
      case Name(n) => Object(k, map[n := Row(rest, k + 1)])
      case Index(_) => List(k, [Row(rest, k + 1)])
  }

  lemma LateTail(pat: Pattern)
    requires !Steady(pat) && !Late(pat[0])
    ensures !Steady(pat[1..])
  {
    var i := FirstLate(pat);
    assert pat[1..][i - 1] == pat[i];
  }

  /** Keys all in one range, the root's first, none twice. */
  predicate Fresh(t: Tree, lo: Skey, hi: Skey) {
    t.key == lo && lo < hi && Distinct(t) && PackedFree(t) && forall k | k in Keys(t) :: lo <= k < hi
  }

  lemma ListFresh(k: Skey, items: seq<Tree>, bounds: seq<Skey>)
    requires |bounds| == |items| + 1 && k < bounds[0]
    requires forall i | 0 <= i < |items| :: Fresh(items[i], bounds[i], bounds[i + 1])
    ensures Fresh(List(k, items), k, bounds[|items|])
  {
    hide Keys, Distinct, PackedFree;
    forall i, j | 0 <= i <= j <= |items| ensures bounds[i] <= bounds[j] { Ascends(items, bounds, i, j); }
    ListFreshParts(k, items, bounds);
  }

  lemma ListFreshParts(k: Skey, items: seq<Tree>, bounds: seq<Skey>)
    requires |bounds| == |items| + 1 && k < bounds[0]
    requires forall i | 0 <= i < |items| :: Fresh(items[i], bounds[i], bounds[i + 1])
    requires forall i, j | 0 <= i <= j <= |items| :: bounds[i] <= bounds[j]
    ensures Fresh(List(k, items), k, bounds[|items|])
  {
    hide Keys, Distinct, PackedFree;
    var t := List(k, items);
    forall i, x | 0 <= i < |items| && x in Keys(items[i]) ensures bounds[0] <= x < bounds[|items|] && bounds[i] <= x < bounds[i + 1] {
      assert bounds[0] <= bounds[i] && bounds[i + 1] <= bounds[|items|];
    }
    forall i, j | 0 <= i < j < |items| ensures Keys(items[i]) !! Keys(items[j]) {
      assert bounds[i + 1] <= bounds[j];
    }
    assert bounds[0] <= bounds[|items|];
    forall i | 0 <= i < |items| ensures Distinct(items[i]) && PackedFree(items[i]) {
      assert Fresh(items[i], bounds[i], bounds[i + 1]);
    }
    ListIsFresh(t, bounds[|items|]);
  }

  lemma ListIsFresh(t: Tree, hi: Skey)
    requires t.List? && t.key < hi
    requires forall i | 0 <= i < |t.items| :: Distinct(t.items[i]) && PackedFree(t.items[i])
    requires forall i, x | 0 <= i < |t.items| && x in Keys(t.items[i]) :: t.key < x < hi
    requires forall i, j | 0 <= i < j < |t.items| :: Keys(t.items[i]) !! Keys(t.items[j])
    ensures Fresh(t, t.key, hi)
  {}

  lemma {:induction false} Ascends(items: seq<Tree>, bounds: seq<Skey>, i: nat, j: nat)
    requires |bounds| == |items| + 1 && i <= j <= |items|
    requires forall x | 0 <= x < |items| :: Fresh(items[x], bounds[x], bounds[x + 1])
    ensures bounds[i] <= bounds[j]
    decreases j
  {
    hide Keys, Distinct, PackedFree;
    if i < j {
      Ascends(items, bounds, i, j - 1);
      assert Fresh(items[j - 1], bounds[j - 1], bounds[(j - 1) + 1]);
    }
  }

  function Bounds(k: Skey, m: nat): (bounds: seq<Skey>)
    ensures |bounds| == m + 1 && forall i | 0 <= i <= m :: bounds[i] == k + i
  {
    seq(m + 1, i => k + i)
  }

  lemma ObjectFresh(k: Skey, n: string, c: Tree, hi: Skey)
    requires Fresh(c, k + 1, hi)
    ensures Fresh(Object(k, map[n := c]), k, hi)
  {}

  lemma {:induction false} GroveFresh(pat: Pattern, k: Skey)
    ensures Fresh(Grove(pat, k), k, k + Width(pat))
    decreases |pat|
  {
    hide Fresh;
    if pat == [] {
      EmptyFresh(k);
    } else {
      match Seg(pat[0])
      case Name(n) =>
        GroveFresh(pat[1..], k + 1);
        ObjectFresh(k, n, Grove(pat[1..], k + 1), k + Width(pat));
      case Index(m) =>
        GroveFresh(pat[1..], k + 1 + m);
        LongListFresh(k, m, [Grove(pat[1..], k + 1 + m)], [k + 1 + m, k + Width(pat)]);
    }
  }

  /** A list of leaves, then of larger trees. */
  lemma LongListFresh(k: Skey, m: nat, more: seq<Tree>, bounds: seq<Skey>)
    requires |bounds| == |more| + 1 && bounds[0] == k + 1 + m
    requires forall i | 0 <= i < |more| :: Fresh(more[i], bounds[i], bounds[i + 1])
    ensures Fresh(List(k, Filler(k + 1, m) + more), k, bounds[|more|])
  {
    hide Keys, Distinct, PackedFree, Fresh;
    var items, all := Filler(k + 1, m) + more, Bounds(k + 1, m) + bounds[1..];
    forall i | 0 <= i < |items| ensures Fresh(items[i], all[i], all[i + 1]) {
      if i < m { LeafFresh(k + 1 + i); } else { assert items[i] == more[i - m] && all[i] == bounds[i - m] && all[i + 1] == bounds[i - m + 1]; }
    }
    ListFresh(k, items, all);
  }

  lemma EmptyFresh(k: Skey)
    ensures Fresh(Object(k, map[]), k, k + 1)
  {}

  lemma LeafFresh(k: Skey)
    ensures Fresh(Leaf(k, Null), k, k + 1)
  {}

  lemma {:induction false} RowFresh(pat: Pattern, k: Skey) returns (hi: Skey)
    requires !Steady(pat)
    ensures Fresh(Row(pat, k), k, hi)
    decreases |pat|
  {
    hide Steady, Fresh;
    assert FirstLate(pat) < |pat|;
    var rest := pat[1..];
    if Late(pat[0]) {
      var m := pat[0].seg.index;
      var from := k + 1 + m;
      hi := from + Width(rest) + Width(rest);
      GroveFresh(rest, from);
      GroveFresh(rest, from + Width(rest));
      LongListFresh(k, m, [Grove(rest, from), Grove(rest, from + Width(rest))], [from, from + Width(rest), hi]);
    } else {
      LateTail(pat);
      hi := RowFresh(rest, k + 1);
      match Seg(pat[0])
      case Name(n) => ObjectFresh(k, n, Row(rest, k + 1), hi);
      case Index(_) => ListFresh(k, [Row(rest, k + 1)], [k + 1, hi]);
    }
  }

  // ----- what is where --------------------------------------------------------------

  /** Of the places the pattern accepts, the tree has `Spot(pat)` and no other. */
  ghost predicate OnlySpot(t: Tree, pat: Pattern) {
    At(t, Spot(pat)).Some? && forall q | Matches(pat, q) && At(t, q).Some? :: q == Spot(pat)
  }

  lemma SpotTail(pat: Pattern)
    requires pat != []
    ensures Spot(pat)[1..] == Spot(pat[1..]) && Spot(pat)[0] == Seg(pat[0])
    ensures Spot(pat) == [Seg(pat[0])] + Spot(pat[1..])
  {}

  /** Below one child that has only its spot, and no other child the pattern accepts. */
  lemma OnlySpotAbove(t: Tree, pat: Pattern)
    requires pat != [] && Child(t, Seg(pat[0])).Some? && OnlySpot(Child(t, Seg(pat[0])).value, pat[1..])
    requires forall seg | SegMatches(pat[0], seg) && Child(t, seg).Some? :: seg == Seg(pat[0])
    ensures OnlySpot(t, pat)
  {
    SpotTail(pat);
    forall q | Matches(pat, q) && At(t, q).Some? ensures q == Spot(pat) {
      assert SegMatches(pat[0], q[0]);
      assert Matches(pat[1..], q[1..]) by {
        forall i | 0 <= i < |pat[1..]| ensures SegMatches(pat[1..][i], q[1..][i]) { assert SegMatches(pat[i + 1], q[i + 1]); }
      }
      assert q == [q[0]] + q[1..];
    }
  }

  lemma {:induction false} GroveSpot(pat: Pattern, k: Skey)
    ensures OnlySpot(Grove(pat, k), pat)
    decreases |pat|
  {
    if pat != [] {
      match Seg(pat[0]) {
        case Name(n) => GroveSpot(pat[1..], k + 1);
        case Index(m) =>
          assert (Filler(k + 1, m) + [Grove(pat[1..], k + 1 + m)])[m] == Grove(pat[1..], k + 1 + m);
          GroveSpot(pat[1..], k + 1 + m);
      }
      OnlySpotAbove(Grove(pat, k), pat);
    }
  }

  /** The late position's list, and the two elements that matter. */
  function Over(pat: Pattern): Path
    requires !Steady(pat)
  {
    var i := FirstLate(pat);
    Spot(pat)[i := Index(pat[i].seg.index + 1)]
  }

  /** The first element of that list. */
  function Front(pat: Pattern): Path
    requires !Steady(pat)
  {
    Spot(pat)[..FirstLate(pat)] + [Index(0)]
  }

  lemma {:induction false} RowPlaces(pat: Pattern, k: Skey)
    requires !Steady(pat)
    ensures OnlySpot(Row(pat, k), pat) && At(Row(pat, k), Over(pat)).Some? && At(Row(pat, k), Front(pat)).Some?
    decreases |pat|
  {
    hide Steady, OnlySpot;
    assert FirstLate(pat) < |pat|;
    if Late(pat[0]) {
      RowHere(pat, k);
    } else {
      var t, rest := Row(pat, k), pat[1..];
      SpotTail(pat);
      LateTail(pat);
      RowPlaces(rest, k + 1);
      assert Child(t, Seg(pat[0])) == Some(Row(rest, k + 1));
      OnlySpotAbove(t, pat);
      assert Over(pat) == [Seg(pat[0])] + Over(rest);
      assert Front(pat) == [Seg(pat[0])] + Front(rest);
      assert Over(pat)[1..] == Over(rest) && Front(pat)[1..] == Front(rest);
    }
  }

  lemma RowHere(pat: Pattern, k: Skey)
    requires !Steady(pat) && Late(pat[0])
    ensures OnlySpot(Row(pat, k), pat) && At(Row(pat, k), Over(pat)).Some? && At(Row(pat, k), Front(pat)).Some?
  {
    hide Steady, OnlySpot;
    assert FirstLate(pat) < |pat|;
    var t, rest, m := Row(pat, k), pat[1..], pat[0].seg.index;
    var a, b := Grove(rest, k + 1 + m), Grove(rest, k + 1 + m + Width(rest));
    var items := Filler(k + 1, m) + [a, b];
    assert t == List(k, items) && items[m] == a && items[m + 1] == b;
    SpotTail(pat);
    GroveSpot(rest, k + 1 + m);
    GroveSpot(rest, k + 1 + m + Width(rest));
    OnlySpotAbove(t, pat);
    HasSpot(b, rest);
    assert Over(pat) == [Index(m + 1)] + Spot(rest) && Over(pat)[1..] == Spot(rest);
    assert Front(pat) == [Index(0)] && Front(pat)[1..] == [];
  }

  lemma HasSpot(t: Tree, pat: Pattern)
    requires OnlySpot(t, pat)
    ensures At(t, Spot(pat)).Some?
  {}

  /** How the three places lie to one another. */
  lemma PlacesLie(pat: Pattern)
    requires !Steady(pat)
    ensures var i := FirstLate(pat);
            && Parent(Front(pat)) < Over(pat) && |Front(pat)| == i + 1 && Last(Front(pat)) == Index(0)
            && Over(pat)[i] == Index(pat[i].seg.index + 1)
            && Turned(Over(pat), i, Index(pat[i].seg.index)) == Spot(pat)
    ensures Matches(pat, Spot(pat)) && !Matches(pat, Over(pat))
    ensures forall q | Matches(pat, q) :: !Comparable(Front(pat), q)
  {
    hide Steady;
    var i, p, over := FirstLate(pat), Front(pat), Over(pat);
    assert Parent(p) == Spot(pat)[..i] == over[..i];
    assert !SegMatches(pat[i], over[i]);
    forall q | Matches(pat, q) ensures !Comparable(p, q) {
      assert SegMatches(pat[i], q[i]) && q[i] != p[i];
    }
  }

  // ----- the index goes stale ---------------------------------------------------------

  /** For every other pattern: a sound tree, an exact index of it, and a removal that
      touches no entry and yet leaves the index wrong. */
  lemma StaleRemoval(e: IndexEntry) returns (t: Option<Tree>, next: Skey, p: Path, data: Entries)
    requires !Steady(e.def.pattern)
    ensures Sound(t, next) && AtDoc(t, p).Some? && Exact(data, t, e)
    ensures Deleted(data, data, t, e, p) && Inserted(data, data, RemoveT(t, p), e, p)
    ensures !Exact(data, RemoveT(t, p), e)
    ensures !RemovalExact(e, t, next, p, data, data, data)
  {
    hide Steady, Keys, Distinct, Row, RemoveT, OnlySpot, Fresh, Exact, Deleted, Inserted;
    var pat := e.def.pattern;
    var u := Row(pat, ROOT);
    t, p := Some(u), Front(pat);
    next := RowFresh(pat, ROOT);
    FreshSound(u, next);
    RowPlaces(pat, ROOT);
    data := OneEntry(e, u);
    AllFar(e, t, p, data);
    WentStale(e, u, next, data);
  }

  lemma FreshSound(t: Tree, next: Skey)
    requires Fresh(t, ROOT, next)
    ensures Sound(Some(t), next) && PackedFree(t)
  {}

  lemma OneEntry(e: IndexEntry, t: Tree) returns (data: Entries)
    requires !Steady(e.def.pattern) && OnlySpot(t, e.def.pattern)
    ensures Exact(data, Some(t), e)
    ensures forall k | k in data :: OfIndex(k, e.id) && (data[k].VKey? <==> e.def.unique)
  {
    hide ColumnKey, ColumnsOf, Steady;
    var pat, q := e.def.pattern, Spot(e.def.pattern);
    PlacesLie(pat);
    data := map[KeyFor(Some(t), e, q) := StoredValue(Some(t), e, q)];
    forall r | Selected(Some(t), pat, r) ensures r == q { }
    assert Selected(Some(t), pat, q);
    forall k | k in data && OfIndex(k, e.id) ensures Implied(Some(t), e, k) {}
  }

  /** No entity is on the removal's line, before or after it. */
  lemma AllFar(e: IndexEntry, t: Option<Tree>, p: Path, data: Entries)
    requires !Steady(e.def.pattern) && p == Front(e.def.pattern)
    requires forall k | k in data :: OfIndex(k, e.id) && (data[k].VKey? <==> e.def.unique)
    ensures Deleted(data, data, t, e, p) && Inserted(data, data, RemoveT(t, p), e, p)
  {
    hide Steady, RemoveT, KeyFor, StoredValue;
    PlacesLie(e.def.pattern);
  }

  lemma WentStale(e: IndexEntry, u: Tree, next: Skey, data: Entries)
    requires !Steady(e.def.pattern) && u == Row(e.def.pattern, ROOT) && Sound(Some(u), next) && PackedFree(u)
    requires Exact(data, Some(u), e)
    ensures !Exact(data, RemoveT(Some(u), Front(e.def.pattern)), e)
  {
    hide Steady, Keys, Distinct, Row, RemoveT, OnlySpot, ColumnKey, ColumnsOf, PackedFree, Subst;
    var pat := e.def.pattern;
    var p, q, over, t, t' := Front(pat), Spot(pat), Over(pat), Some(u), RemoveT(Some(u), Front(pat));
    RowPlaces(pat, ROOT);
    PlacesLie(pat);
    PlainRemoval(u, p);
    MovedAfter(u, p, over);
    assert AtDoc(t', q) == At(u, over);
    if Exact(data, t', e) {
      var r := TakenFrom(data, t, t', e, q);
      PlacesApart(t, r, over);
    }
  }

  /** An index exact for two trees files each entity of the one under an entity of the other. */
  lemma TakenFrom(data: Entries, t: Option<Tree>, t': Option<Tree>, e: IndexEntry, q: Path) returns (r: Path)
    requires Exact(data, t, e) && Exact(data, t', e) && Selected(t', e.def.pattern, q)
    ensures Selected(t, e.def.pattern, r) && KeyThere(ROOT, t, r) == KeyThere(ROOT, t', q)
  {
    hide ColumnKey, ColumnsOf, Matches;
    var k := KeyFor(t', e, q);
    assert Implied(t, e, k);
    r :| Selected(t, e.def.pattern, r) && k == KeyFor(t, e, r);
  }

  lemma PlainRemoval(t: Tree, p: Path)
    requires PackedFree(t) && p != [] && At(t, p).Some?
    ensures RemoveT(Some(t), p) == RemoveRelT(t, p)
  {
    DenoteAt(t, p);
  }
}
