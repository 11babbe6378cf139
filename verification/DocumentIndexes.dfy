/** What an index says of the document. An index selects live nodes and reads columns
    through live nodes; a packed entity in the way hides what the document shows behind
    it. These lemmas say exactly when nothing is hidden, and that a query then answers
    for the document itself. */
module DocumentIndexes {
  import opened Basics
  import opened Scalars
  import opened ScalarOrder
  import opened Skeys
  import opened Paths
  import opened Values
  import opened Trees
  import opened TreeLaws
  import opened Removal
  import opened Storing
  import opened Patterns
  import opened Columns
  import opened TableKeys
  import opened Maintenance
  import opened Queries

  // ----- the document's own index -------------------------------------------------

  predicate DocSelected(doc: Document, pat: Pattern, q: Path) {
    Matches(pat, q) && (q == [] || SubDoc(doc, q).Some?)
  }

  function DocColumn(doc: Document, rel: Path): Scalar {
    match DocumentLeaf(doc, rel) case Some(s) => s case None => Null
  }

  function DocColumns(columns: seq<Path>, doc: Document): (values: seq<Scalar>)
    ensures |values| == |columns| && forall i | 0 <= i < |columns| :: values[i] == DocColumn(doc, columns[i])
  {
    seq(|columns|, i requires 0 <= i < |columns| => DocColumn(doc, columns[i]))
  }

  /** The index selects the document's own entities and reads the document's own columns. */
  ghost predicate ReadsDocument(t: Option<Tree>, def: IndexDef) {
    && (forall q :: Selected(t, def.pattern, q) <==> DocSelected(DocumentOf(t), def.pattern, q))
    && (forall q | Selected(t, def.pattern, q) :: SameColumns(t, def, q))
  }

  predicate SameColumns(t: Option<Tree>, def: IndexDef, q: Path) {
    ColumnsOf(def.columns, AtDoc(t, q)) == DocColumns(def.columns, SubDoc(DocumentOf(t), q))
  }

  // ----- what can be hidden ---------------------------------------------------------

  /** A place the pattern selects lies inside the packed entity at `r`. */
  ghost predicate HidesEntity(t: Option<Tree>, def: IndexDef, r: Path) {
    exists q :: r < q && DocSelected(DocumentOf(t), def.pattern, q)
  }

  predicate ColumnThrough(t: Option<Tree>, def: IndexDef, r: Path, q: Path, i: nat) {
    && i < |def.columns| && Selected(t, def.pattern, q) && q < r && r <= q + def.columns[i]
    && DocColumn(SubDoc(DocumentOf(t), q), def.columns[i]) != Null
  }

  /** A column of an entity above `r` has its leaf inside the packed entity there. */
  ghost predicate HidesColumn(t: Option<Tree>, def: IndexDef, r: Path) {
    exists q, i: nat :: ColumnThrough(t, def, r, q, i)
  }

  ghost predicate Hidden(t: Option<Tree>, def: IndexDef, r: Path) {
    PackedThere(t, r) && (HidesEntity(t, def, r) || HidesColumn(t, def, r))
  }

  /** What can be told from the definition alone: the pattern or a column path goes on
      below `r`. Packing asks about the pattern only. */
  predicate GoesBelow(def: IndexDef, r: Path) {
    || CoversStrictlyBelow(def.pattern, r)
    || (|def.pattern| < |r| && Matches(def.pattern, r[..|def.pattern|])
        && exists i :: 0 <= i < |def.columns| && r[|def.pattern|..] <= def.columns[i])
  }

  lemma HidesMeansBelow(t: Option<Tree>, def: IndexDef, r: Path)
    ensures HidesEntity(t, def, r) || HidesColumn(t, def, r) ==> GoesBelow(def, r)
  {
    hide Matches, CoversStrictlyBelow;
    if HidesEntity(t, def, r) {
      CoversMeansBelow(def.pattern, r);
    } else if HidesColumn(t, def, r) {
      var q, i: nat :| ColumnThrough(t, def, r, q, i);
      MatchLength(def.pattern, q);
      assert r[..|q|] == q && r[|q|..] == (q + def.columns[i])[|q|..|r|];
      assert r[|q|..] <= def.columns[i];
    }
  }

  lemma MatchLength(pat: Pattern, q: Path)
    requires Matches(pat, q)
    ensures |pat| == |q|
  {}

  // ----- exactly then it reads the document -------------------------------------------

  /** An index reads the document exactly when no packed entity hides an entity or a
      column of it. */
  lemma ReadsExactly(t: Option<Tree>, def: IndexDef)
    requires Rooted(t)
    ensures ReadsDocument(t, def) <==> forall r :: !Hidden(t, def, r)
  {
    hide Rooted, Hidden, Selected, DocSelected, SameColumns;
    if forall r :: !Hidden(t, def, r) {
      forall q ensures Selected(t, def.pattern, q) <==> DocSelected(DocumentOf(t), def.pattern, q) {
        SelectedShows(t, def, q);
        ShownSelected(t, def, q);
      }
      forall q | Selected(t, def.pattern, q) ensures SameColumns(t, def, q) {
        ColumnsShow(t, def, q);
      }
    }
    if ReadsDocument(t, def) {
      forall r ensures !Hidden(t, def, r) {
        if Hidden(t, def, r) { HiddenDiffers(t, def, r); }
      }
    }
  }

  /** A definition that goes below no packed entity has nothing hidden from it. */
  lemma NothingBelow(t: Option<Tree>, def: IndexDef)
    requires Rooted(t) && forall r | PackedThere(t, r) :: !GoesBelow(def, r)
    ensures ReadsDocument(t, def)
  {
    hide Rooted, GoesBelow, HidesEntity, HidesColumn, ReadsDocument;
    forall r ensures !Hidden(t, def, r) {
      if PackedThere(t, r) { HidesMeansBelow(t, def, r); }
    }
    ReadsExactly(t, def);
  }

  lemma NodeShows(t: Option<Tree>, q: Path)
    requires AtDoc(t, q).Some?
    ensures SubDoc(DocumentOf(t), q) == DocumentOf(AtDoc(t, q))
  {
    AtIsOpen(t.value, q);
    OpenRead(t.value, q);
  }

  lemma SelectedShows(t: Option<Tree>, def: IndexDef, q: Path)
    ensures Selected(t, def.pattern, q) ==> DocSelected(DocumentOf(t), def.pattern, q)
  {
    hide Matches, Denote;
    if AtDoc(t, q).Some? { NodeShows(t, q); }
  }

  lemma EntityHidden(t: Option<Tree>, def: IndexDef, r: Path, q: Path)
    requires PackedThere(t, r) && r < q && DocSelected(DocumentOf(t), def.pattern, q)
    ensures Hidden(t, def, r)
  {}

  lemma ColumnHidden(t: Option<Tree>, def: IndexDef, r: Path, q: Path, i: nat)
    requires PackedThere(t, r) && ColumnThrough(t, def, r, q, i)
    ensures Hidden(t, def, r)
  {}

  lemma ShownSelected(t: Option<Tree>, def: IndexDef, q: Path)
    requires Rooted(t) && forall r :: !Hidden(t, def, r)
    ensures DocSelected(DocumentOf(t), def.pattern, q) ==> Selected(t, def.pattern, q)
  {
    hide Matches, Denote, Distinct;
    if DocSelected(DocumentOf(t), def.pattern, q) && q != [] {
      LocateReadsDocument(t.value, q);
      match Locate(t.value, q)
      case Inside(e, at, rel) =>
        if rel != [] {
          EntityHidden(t, def, at, q);
        }
      case _ =>
    }
  }

  lemma ColumnsShow(t: Option<Tree>, def: IndexDef, q: Path)
    requires Rooted(t) && Selected(t, def.pattern, q) && forall r :: !Hidden(t, def, r)
    ensures SameColumns(t, def, q)
  {
    hide Matches, Denote, Distinct, Column;
    var a, b := ColumnsOf(def.columns, AtDoc(t, q)), DocColumns(def.columns, SubDoc(DocumentOf(t), q));
    if AtDoc(t, q).Some? { NodeShows(t, q); AtKeys(t.value, q); }
    forall i | 0 <= i < |def.columns| ensures a[i] == b[i] {
      ColumnShows(t, def, q, i);
    }
  }

  lemma ColumnShows(t: Option<Tree>, def: IndexDef, q: Path, i: nat)
    requires Rooted(t) && Selected(t, def.pattern, q) && i < |def.columns| && forall r :: !Hidden(t, def, r)
    requires SubDoc(DocumentOf(t), q) == DocumentOf(AtDoc(t, q)) && (AtDoc(t, q).Some? ==> Distinct(AtDoc(t, q).value))
    ensures Column(AtDoc(t, q), def.columns[i]) == DocColumn(SubDoc(DocumentOf(t), q), def.columns[i])
  {
    hide Matches, Denote, Distinct;
    var u, c := AtDoc(t, q), def.columns[i];
    ColumnReadsDocument(u, c);
    if u.Some? && !u.value.Packed? && Locate(u.value, c).Inside? && DocColumn(DocumentOf(u), c) != Null {
      var at := Locate(u.value, c).at;
      AtSplit(t.value, q, at);
      assert at != [] && at <= c && q < q + at <= q + c;
      ColumnHidden(t, def, q + at, q, i);
    }
    if u.Some? && !u.value.Packed? && Locate(u.value, c).Inside? { InsideReadsNothing(u.value, c); }
  }

  /** A live walk finds no leaf at or below a packed entity. */
  lemma InsideReadsNothing(u: Tree, c: Path)
    requires !u.Packed? && Locate(u, c).Inside?
    ensures Column(Some(u), c) == Null
  {}

  lemma HiddenDiffers(t: Option<Tree>, def: IndexDef, r: Path)
    requires Rooted(t) && Hidden(t, def, r)
    ensures !ReadsDocument(t, def)
  {
    hide Rooted, Matches, Denote, Distinct, SameColumns;
    if HidesEntity(t, def, r) {
      var q :| r < q && DocSelected(DocumentOf(t), def.pattern, q);
      NothingLiveBelow(t, r, q);
      assert !Selected(t, def.pattern, q);
    } else {
      var q, i: nat :| ColumnThrough(t, def, r, q, i);
      ThroughDiffers(t, def, r, q, i);
    }
  }

  lemma NothingLiveBelow(t: Option<Tree>, r: Path, q: Path)
    requires PackedThere(t, r) && r < q
    ensures AtDoc(t, q).None?
  {
    AtSplit(t.value, r, q[|r|..]);
    assert q == r + q[|r|..];
  }

  lemma ThroughDiffers(t: Option<Tree>, def: IndexDef, r: Path, q: Path, i: nat)
    requires PackedThere(t, r) && ColumnThrough(t, def, r, q, i)
    ensures !SameColumns(t, def, q)
  {
    hide Matches, Denote, Column, DocColumn;
    var c, s := def.columns[i], r[|q|..];
    assert r == q + s && s != [] && s == (q + c)[|q|..|r|] && s <= c;
    AtSplit(t.value, q, s);
    PackedReadsNothing(At(t.value, q).value, s, c);
    assert ColumnsOf(def.columns, AtDoc(t, q))[i] != DocColumns(def.columns, SubDoc(DocumentOf(t), q))[i];
  }

  /** A column through a packed entity below the indexed one reads nothing. */
  lemma PackedReadsNothing(u: Tree, s: Path, c: Path)
    requires s != [] && s <= c && At(u, s).Some? && At(u, s).value.Packed?
    ensures Column(Some(u), c) == Null
  {
    AtSplit(u, s, c[|s|..]);
    assert c == s + c[|s|..];
  }

  // ----- queries --------------------------------------------------------------------

  /** The place is an entity of the document, at or under the root, whose leading columns
      have the queried values. */
  predicate DocAnswers(doc: Document, def: IndexDef, prefix: seq<Scalar>, root: Path, q: Path)
    requires |prefix| <= |def.columns|
  {
    DocSelected(doc, def.pattern, q) && root <= q && TupleSame(prefix, DocColumns(def.columns, SubDoc(doc, q))[..|prefix|])
  }

  /** Neither place comes before the other, or the first one does. */
  predicate DocOrdered(doc: Document, def: IndexDef, p: Path, q: Path)
    requires def.Valid()
  {
    var a, b := DocColumns(def.columns, SubDoc(doc, p)), DocColumns(def.columns, SubDoc(doc, q));
    TupleLess(a, b, def.descending) || TupleSame(a, b)
  }

  /** A query's result is the document's: every place the document shows that answers,
      once each, in column order or its reverse. */
  lemma ResultReadsDocument(t: Option<Tree>, e: IndexEntry, prefix: seq<Scalar>, root: Path, reverse: bool,
                            keys: seq<Skey>, places: seq<Path>)
    requires e.def.Valid() && |prefix| <= |e.def.columns| && IsResult(t, e, prefix, root, reverse, keys, places)
    requires ReadsDocument(t, e.def)
    ensures forall q :: q in places <==> DocAnswers(DocumentOf(t), e.def, prefix, root, q)
    ensures forall i, j | 0 <= i < j < |places| ::
              if reverse then DocOrdered(DocumentOf(t), e.def, places[j], places[i]) else DocOrdered(DocumentOf(t), e.def, places[i], places[j])
  {
    hide Selected, DocSelected, ColumnsOf, DocColumns, TupleSame, TupleLess, Matches;
    var doc := DocumentOf(t);
    forall q ensures q in places <==> DocAnswers(doc, e.def, prefix, root, q) {
      assert q in places <==> Answers(t, e, prefix, root, q);
      if Selected(t, e.def.pattern, q) { assert SameColumns(t, e.def, q); }
    }
    forall i, j | 0 <= i < j < |places|
      ensures if reverse then DocOrdered(doc, e.def, places[j], places[i]) else DocOrdered(doc, e.def, places[i], places[j])
    {
      assert places[i] in places && places[j] in places;
      assert Answers(t, e, prefix, root, places[i]) && Answers(t, e, prefix, root, places[j]);
      assert SameColumns(t, e.def, places[i]) && SameColumns(t, e.def, places[j]);
    }
  }

  // ----- a hidden column --------------------------------------------------------------

  /** A user whose profile was stored as one packed entity, which an index over users may
      not forbid: the pattern reaches nothing below it, though a column does. */
  function Profiles(x: Scalar): Tree {
    var profile := Packed(3, Object(ROOT, map["name" := Leaf(4, x)]));
    Object(ROOT, map["users" := Object(1, map["alice" := Object(2, map["profile" := profile])])])
  }

  const ALICE: Path := [Name("users"), Name("alice")]
  const PROFILE: Path := [Name("users"), Name("alice"), Name("profile")]

  function ByName(): IndexDef {
    IndexDef("by-name", "users/*", [Lit(Name("users")), Star], [[Name("profile"), Name("name")]], [false], false)
  }

  /** The document shows the name; the index files the user under no name at all. */
  lemma NestedColumnHidden(x: Scalar)
    requires x != Null
    ensures Sound(Some(Profiles(x)), 5) && !CoversStrictlyBelow(ByName().pattern, PROFILE)
    ensures Hidden(Some(Profiles(x)), ByName(), PROFILE) && !ReadsDocument(Some(Profiles(x)), ByName())
    ensures ColumnsOf(ByName().columns, AtDoc(Some(Profiles(x)), ALICE)) == [Null]
    ensures DocColumns(ByName().columns, SubDoc(DocumentOf(Some(Profiles(x))), ALICE)) == [x]
  {
    hide Hidden, ReadsDocument, Rooted, Denote, Keys, Distinct, Profiles, Sound, ColumnThrough;
    var def, t := ByName(), Some(Profiles(x));
    ProfilesSound(x);
    ProfilesRead(x);
    NameThrough(x);
    ColumnHidden(t, def, PROFILE, ALICE, 0);
    HiddenDiffers(t, def, PROFILE);
  }

  lemma NameThrough(x: Scalar)
    requires x != Null
    ensures PackedThere(Some(Profiles(x)), PROFILE) && ColumnThrough(Some(Profiles(x)), ByName(), PROFILE, ALICE, 0)
  {
    hide Denote, Keys, Distinct, Profiles, Matches;
    ProfilesRead(x);
    AliceSelected(Some(Profiles(x)));
    assert PROFILE == ALICE + [Name("profile")];
    assert ALICE + ByName().columns[0] == PROFILE + [Name("name")];
  }

  lemma AliceSelected(t: Option<Tree>)
    requires AtDoc(t, ALICE).Some?
    ensures Selected(t, ByName().pattern, ALICE)
  {}

  /** An object of one field. */
  lemma OneField(k: Skey, n: string, c: Tree)
    requires k !in Keys(c) && Distinct(c)
    ensures Keys(Object(k, map[n := c])) == {k} + Keys(c) && Distinct(Object(k, map[n := c]))
    ensures Denote(Object(k, map[n := c])) == VNode(map[n := Denote(c)])
  {
    var t := Object(k, map[n := c]);
    forall x | x in Keys(c) ensures x in Keys(t) { assert x in Keys(t.fields[n]); }
    assert Denote(t).entries == map[n := Denote(c)];
  }

  lemma ProfilesSound(x: Scalar)
    ensures Sound(Some(Profiles(x)), 5) && Rooted(Some(Profiles(x)))
    ensures var user := VNode(map["profile" := VNode(map["name" := VLeaf(x)])]);
            Denote(Profiles(x)) == VNode(map["users" := VNode(map["alice" := user])])
  {
    hide Keys, Distinct, Denote;
    ProfileEntity(x);
    var profile := Packed(3, Object(ROOT, map["name" := Leaf(4, x)]));
    OneField(2, "profile", profile);
    var alice := Object(2, map["profile" := profile]);
    OneField(1, "alice", alice);
    var users := Object(1, map["alice" := alice]);
    OneField(ROOT, "users", users);
  }

  lemma ProfileEntity(x: Scalar)
    ensures var profile := Packed(3, Object(ROOT, map["name" := Leaf(4, x)]));
            Keys(profile) == {3, 4} && Distinct(profile) && Denote(profile) == VNode(map["name" := VLeaf(x)])
  {
    OneField(ROOT, "name", Leaf(4, x));
    var inner := Object(ROOT, map["name" := Leaf(4, x)]);
    assert PackedFree(inner);
    assert {ROOT} + Keys(Leaf(4, x)) - {ROOT} == {4} && {3} + {4} == {3, 4};
  }

  lemma ProfilesRead(x: Scalar)
    ensures At(Profiles(x), ALICE).Some? && !At(Profiles(x), ALICE).value.Packed?
    ensures At(Profiles(x), ALICE + [Name("profile")]) == Some(Packed(3, Object(ROOT, map["name" := Leaf(4, x)])))
    ensures Subtree(Denote(Profiles(x)), ALICE).Some?
    ensures Subtree(Subtree(Denote(Profiles(x)), ALICE).value, [Name("profile"), Name("name")]) == Some(VLeaf(x))
    ensures Column(At(Profiles(x), ALICE), [Name("profile"), Name("name")]) == Null
  {
    hide Denote, Keys, Distinct;
    var t := Profiles(x);
    var a, b, c := [Name("users"), Name("alice")], [Name("profile"), Name("name")], [Name("profile")];
    assert a[1..] == [Name("alice")] && a[1..][1..] == [] && b[1..] == [Name("name")] && b[1..][1..] == [] && c[1..] == [];
    ProfilesSound(x);
    var alice := t.fields["users"].fields["alice"];
    assert At(t.fields["users"], [Name("alice")]) == Some(alice);
    AtSplit(t, a, c);
    assert At(alice.fields["profile"], [Name("name")]).None?;
    var user := VNode(map["profile" := VNode(map["name" := VLeaf(x)])]);
    assert Subtree(VNode(map["alice" := user]), [Name("alice")]) == Some(user);
    assert Subtree(VNode(map["name" := VLeaf(x)]), [Name("name")]) == Some(VLeaf(x));
  }

  const FIELDS: Pattern := [Lit(Name("users")), Star, Lit(Name("profile")), Star]

  /** An index made after the packing, over what the packed entities hold, selects none of
      it: the document shows a place of its pattern, and the back-fill finds no entity. */
  lemma LateIndexMisses(x: Scalar)
    ensures Sound(Some(Profiles(x)), 5) && PackedThere(Some(Profiles(x)), PROFILE) && CoversStrictlyBelow(FIELDS, PROFILE)
    ensures DocSelected(DocumentOf(Some(Profiles(x))), FIELDS, PROFILE + [Name("name")])
    ensures forall q :: !Selected(Some(Profiles(x)), FIELDS, q)
  {
    hide Denote, Keys, Distinct, Profiles;
    ProfilesSound(x);
    ProfilesRead(x);
    assert ALICE + [Name("profile"), Name("name")] == PROFILE + [Name("name")] && ALICE + [Name("profile")] == PROFILE;
    SubtreeSplit(Denote(Profiles(x)), ALICE, [Name("profile"), Name("name")]);
    forall q ensures !Selected(Some(Profiles(x)), FIELDS, q) {
      if Matches(FIELDS, q) { NoField(x, q); }
    }
  }

  lemma NoField(x: Scalar, q: Path)
    requires |q| == 4 && q[2] == Name("profile")
    ensures At(Profiles(x), q).None?
  {
    var t := Profiles(x);
    var a, b, c := q[1..], q[1..][1..], q[1..][1..][1..];
    assert a[0] == q[1] && b[0] == q[2] && c[0] == q[3];
    if Child(t, q[0]).Some? && Child(Child(t, q[0]).value, a[0]).Some? {
      var alice := t.fields["users"].fields["alice"];
      assert At(alice, b) == At(alice.fields["profile"], c);
      assert At(t, q) == At(t.fields["users"], a) == At(alice, b);
    }
  }
}
