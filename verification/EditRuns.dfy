/** Whole runs of tree operations. The operations are written once over any writable
    backend: a run over the engine's flat table and the same run over an inline table
    stay in step, and both do to the document what the run says on a plain value. */
module EditRuns {
  import opened Basics
  import opened Scalars
  import opened Skeys
  import opened Paths
  import opened Values
  import opened Trees
  import opened TreeLaws
  import opened Backends
  import opened Walks
  import opened Edits
  import opened TreeStores
  import opened Removal
  import opened Containers
  import Lists
  import Storing

  datatype Edit =
    | Put(path: Path, scalar: Scalar)
    | Ensure(path: Path, list: bool)
    | Remove(path: Path)
    | Clear(path: Path)
    | Move(path: Path, from: nat, to: nat)
    | Swap(path: Path, i: nat, j: nat)

  /** What a store holds, and where its key supply stands. */
  datatype State = State(tree: Option<Tree>, next: Skey)

  function Reaches(g: Option<Grown>): Option<State> {
    match g case Some(r) => Some(State(Some(r.tree), r.next)) case None => None
  }

  function Stays(t: Option<Tree>, next: Skey): Option<State> {
    match t case Some(_) => Some(State(t, next)) case None => None
  }

  function Reordered(s: State, p: Path, list: bool, now: seq<Tree>): Option<State>
    requires list ==> IsList(s.tree, p)
  {
    if list then Some(State(ReorderT(s.tree, p, now), s.next)) else None
  }

  function ItemsAt(t: Option<Tree>, p: Path): seq<Tree> {
    if IsList(t, p) then AtDoc(t, p).value.items else []
  }

  /** One operation on the keyed tree, or `None` where it is refused. */
  function EditT(s: State, e: Edit): Option<State> {
    match e
    case Put(p, x) => Reaches(PutRelT(s.tree, p, x, s.next))
    case Ensure(p, list) => Reaches(EnsureT(s.tree, p, list, s.next))
    case Remove(p) => Some(State(RemoveWhole(s.tree, p), s.next))
    case Clear(p) => Stays(ClearT(s.tree, p), s.next)
    case Move(p, from, to) =>
      var items := ItemsAt(s.tree, p);
      Reordered(s, p, from < |items|, if from < |items| then Moved(items, from, to) else [])
    case Swap(p, i, j) =>
      var items := ItemsAt(s.tree, p);
      var both := i < |items| && j < |items|;
      Reordered(s, p, both, if both then Swapped(items, i, j) else [])
  }

  function RunT(s: State, edits: seq<Edit>): Option<State>
    decreases |edits|
  {
    if edits == [] then Some(s)
    else match EditT(s, edits[0]) case Some(n) => RunT(n, edits[1..]) case None => None
  }

  // ----- the same on a plain value ----------------------------------------------

  function ElementsAt(doc: Document, p: Path): seq<Value> {
    match SubDoc(doc, p) case Some(VList(items)) => items case _ => []
  }

  function Written(r: Option<Value>): Option<Document> {
    match r case Some(v) => Some(Some(v)) case None => None
  }

  /** The operation on the document: `None` where it is refused. */
  function EditDoc(doc: Document, e: Edit): Option<Document> {
    match e
    case Put(p, x) => Written(SetDoc(doc, p, VLeaf(x)))
    case Ensure(p, list) =>
      (match SubDoc(doc, p)
       case Some(VList(_)) => if list then Some(doc) else None
       case Some(VNode(_)) => if list then None else Some(doc)
       case Some(VLeaf(_)) => None
       case None => Written(SetDoc(doc, p, EmptyValue(list))))
    case Remove(p) => Some(RemoveDoc(doc, p))
    case Clear(p) =>
      (match SubDoc(doc, p)
       case Some(VList(_)) => Written(SetDoc(doc, p, EmptyValue(true)))
       case Some(VNode(_)) => Written(SetDoc(doc, p, EmptyValue(false)))
       case _ => None)
    case Move(p, from, to) =>
      var items := ElementsAt(doc, p);
      if from < |items| then Written(SetDoc(doc, p, VList(Moved(items, from, to)))) else None
    case Swap(p, i, j) =>
      var items := ElementsAt(doc, p);
      if i < |items| && j < |items| then Written(SetDoc(doc, p, VList(Swapped(items, i, j)))) else None
  }

  function RunDoc(doc: Document, edits: seq<Edit>): Option<Document>
    decreases |edits|
  {
    if edits == [] then Some(doc)
    else match EditDoc(doc, edits[0]) case Some(n) => RunDoc(n, edits[1..]) case None => None
  }

  // ----- the two agree ----------------------------------------------------------

  ghost predicate Plain(s: State) {
    Sound(s.tree, s.next) && (s.tree.Some? ==> PackedFree(s.tree.value))
  }

  lemma PlainOpen(s: State, p: Path)
    requires Plain(s)
    ensures OpenDoc(s.tree, p)
  {
    if s.tree.Some? { DenoteAt(s.tree.value, p); }
  }

  /** The document an edit leads to is the one its outcome on the tree denotes. */
  ghost predicate Denotes(s: State, e: Edit) {
    match EditT(s, e)
    case Some(n) => EditDoc(DocumentOf(s.tree), e) == Some(DocumentOf(n.tree)) && Plain(n)
    case None => EditDoc(DocumentOf(s.tree), e) == None
  }

  lemma PutAgrees(s: State, p: Path, x: Scalar)
    requires Plain(s)
    ensures Denotes(s, Put(p, x))
  {
    hide Sound, PackedFree, SetDoc, PutRelT, Denote;
    PlainOpen(s, p);
    PutRelDenotes(s.tree, p, x, s.next);
    if PutRelT(s.tree, p, x, s.next).Some? { PutRelExtends(s.tree, p, x, s.next); }
  }

  lemma EnsureAgrees(s: State, p: Path, list: bool)
    requires Plain(s)
    ensures Denotes(s, Ensure(p, list))
  {
    hide Sound, PackedFree, SetDoc, EnsureT, Denote;
    PlainOpen(s, p);
    EnsureDenotes(s.tree, p, list, s.next);
    if EnsureT(s.tree, p, list, s.next).Some? { EnsureExtends(s.tree, p, list, s.next); }
  }

  lemma RemoveAgrees(s: State, p: Path)
    requires Plain(s)
    ensures Denotes(s, Remove(p))
  {
    hide PackedFree, Distinct, Keys, RemoveIn, Denote;
    PlainOpen(s, p);
    Storing.RemoveOpen(s.tree, p);
    RemoveDenotes(s.tree, p);
    if s.tree.Some? && p != [] && At(s.tree.value, p).Some? {
      RemoveSound(s.tree.value, p, s.next);
      RemovePlain(s.tree.value, p);
    }
  }

  lemma RemovePlain(t: Tree, p: Path)
    requires PackedFree(t) && p != [] && At(t, p).Some?
    ensures PackedFree(RemoveRelT(t, p).value)
  {
    hide PackedFree;
    assert p == Parent(p) + [Last(p)];
    AtSplit(t, Parent(p), [Last(p)]);
    var u := At(t, Parent(p)).value;
    SubtreePackedFree(t, Parent(p));
    WithoutChildPackedFree(u, Last(p));
    SubstPackedFree(t, Parent(p), WithoutChild(u, Last(p)));
  }

  lemma {:induction false} SubtreePackedFree(t: Tree, p: Path)
    requires PackedFree(t) && At(t, p).Some?
    ensures PackedFree(At(t, p).value)
    decreases p
  {
    if p != [] { SubtreePackedFree(Child(t, p[0]).value, p[1..]); }
  }

  lemma ClearAgrees(s: State, p: Path)
    requires Plain(s)
    ensures Denotes(s, Clear(p))
  {
    hide PackedFree, Distinct, Keys, SetIn, Denote, Subst;
    PlainOpen(s, p);
    if s.tree.Some? {
      OpenRead(s.tree.value, p);
      if At(s.tree.value, p).Some? { ClearPlainAgrees(s, p); }
    }
  }

  lemma ClearPlainAgrees(s: State, p: Path)
    requires Plain(s) && AtDoc(s.tree, p).Some? && Open(s.tree.value, p)
    requires SubDoc(DocumentOf(s.tree), p) == Some(Denote(AtDoc(s.tree, p).value))
    ensures Denotes(s, Clear(p))
  {
    hide Distinct, Keys, SetIn, Subst, Denote;
    var t, u := s.tree.value, At(s.tree.value, p).value;
    SubtreePackedFree(t, p);
    AtKeys(t, p);
    KeyIsOwn(u);
    FormDenotes(u);
    if u.List? || u.Object? {
      var empty := EmptyContainer(u.key, u.List?);
      FormDenotes(empty);
      EmptyKeys(empty);
      SubstShape(t, p, empty);
      SubstPackedFree(t, p, empty);
      DenoteSubst(t, p, empty);
      assert ClearT(s.tree, p) == Some(Subst(t, p, empty));
    }
  }

  lemma FormDenotes(u: Tree)
    requires PackedFree(u)
    ensures Denote(u).VList? <==> u.List?
    ensures Denote(u).VNode? <==> u.Object?
    ensures u == EmptyContainer(u.key, u.List?) ==> Denote(u) == EmptyValue(u.List?)
  {}

  lemma ReorderAgrees(s: State, p: Path, now: seq<Tree>, src: seq<nat>)
    requires Plain(s) && IsList(s.tree, p) && Rearranged(AtDoc(s.tree, p).value.items, now, src)
    ensures Plain(State(ReorderT(s.tree, p, now), s.next))
    ensures SetDoc(DocumentOf(s.tree), p, VList(Lists.Loaded(now))) == Some(Denote(ReorderT(s.tree, p, now).value))
    ensures ElementsAt(DocumentOf(s.tree), p) == Lists.Loaded(AtDoc(s.tree, p).value.items)
  {
    hide Subst, SetIn, Distinct, Keys, Rearranged;
    var t, u := s.tree.value, At(s.tree.value, p).value;
    PlainOpen(s, p);
    OpenRead(t, p);
    Lists.ReorderDenotes(t, p, now);
    SubtreePackedFree(t, p);
    AtKeys(t, p);
    ReorderShape(u, now, src);
    SubstShape(t, p, List(u.key, now));
    ReorderPlain(u, now, src);
    SubstPackedFree(t, p, List(u.key, now));
  }

  lemma ReorderShape(u: Tree, now: seq<Tree>, src: seq<nat>)
    requires u.List? && Distinct(u) && Rearranged(u.items, now, src)
    ensures Distinct(List(u.key, now)) && Keys(List(u.key, now)) == Keys(u)
  {
    ListKeys(u);
    ListKeys(List(u.key, now));
    RearrangedKeys(u.items, now, src);
  }

  lemma RearrangedKeys(ts: seq<Tree>, now: seq<Tree>, src: seq<nat>)
    requires Rearranged(ts, now, src)
    ensures ForestKeys(now) == ForestKeys(ts)
  {
    hide Keys;
    forall k | k in ForestKeys(ts) ensures k in ForestKeys(now) {
      var x :| 0 <= x < |ts| && k in Keys(ts[x]);
      Onto(src, |ts|, x);
      var i :| 0 <= i < |ts| && src[i] == x;
      assert now[i] == ts[x];
    }
    forall k | k in ForestKeys(now) ensures k in ForestKeys(ts) {
      var i :| 0 <= i < |now| && k in Keys(now[i]);
      assert now[i] == ts[src[i]];
    }
  }

  lemma ReorderPlain(u: Tree, now: seq<Tree>, src: seq<nat>)
    requires u.List? && PackedFree(u) && Rearranged(u.items, now, src)
    ensures PackedFree(List(u.key, now))
  {}

  lemma LoadedMoved(items: seq<Tree>, from: nat, to: nat)
    requires from < |items|
    ensures Lists.Loaded(Moved(items, from, to)) == Moved(Lists.Loaded(items), from, to)
  {
    hide Denote;
    forall i | 0 <= i < |items| ensures Lists.Loaded(Moved(items, from, to))[i] == Moved(Lists.Loaded(items), from, to)[i] {
      MovedReads(items, from, to, i);
      MovedReads(Lists.Loaded(items), from, to, i);
    }
    MovedReads(items, from, to, 0);
  }

  function SwapSource(n: nat, i: nat, j: nat): (src: seq<nat>)
    ensures |src| == n && forall k | 0 <= k < n :: src[k] == SwappedFrom(i, j, k)
  {
    seq(n, k requires 0 <= k < n => SwappedFrom(i, j, k))
  }

  lemma LoadedSwapped(items: seq<Tree>, i: nat, j: nat)
    requires i < |items| && j < |items|
    ensures Lists.Loaded(Swapped(items, i, j)) == Swapped(Lists.Loaded(items), i, j)
    ensures Rearranged(items, Swapped(items, i, j), SwapSource(|items|, i, j))
  {
    hide Denote;
  }

  lemma NotListed(s: State, p: Path)
    requires Plain(s) && !IsList(s.tree, p)
    ensures ElementsAt(DocumentOf(s.tree), p) == []
  {
    PlainOpen(s, p);
    if s.tree.Some? { OpenRead(s.tree.value, p); }
    if AtDoc(s.tree, p).Some? { SubtreePackedFree(s.tree.value, p); }
  }

  lemma MoveAgrees(s: State, p: Path, from: nat, to: nat)
    requires Plain(s)
    ensures Denotes(s, Move(p, from, to))
  {
    hide Sound, PackedFree, SetDoc, Denote, Subst, Rearranged, Moved, Plain;
    if IsList(s.tree, p) {
      var items := AtDoc(s.tree, p).value.items;
      if from < |items| {
        MoveRearranges(items, from, to);
        ReorderAgrees(s, p, Moved(items, from, to), MoveSource(|items|, from, to));
        LoadedMoved(items, from, to);
      } else {
        Still(items);
        ReorderAgrees(s, p, items, Same(|items|));
      }
    } else {
      NotListed(s, p);
    }
  }

  function Same(n: nat): (src: seq<nat>)
    ensures |src| == n && forall k | 0 <= k < n :: src[k] == k
  {
    seq(n, k requires 0 <= k < n => k)
  }

  lemma Still(items: seq<Tree>)
    ensures Rearranged(items, items, Same(|items|))
  {}

  lemma SwapAgrees(s: State, p: Path, i: nat, j: nat)
    requires Plain(s)
    ensures Denotes(s, Swap(p, i, j))
  {
    hide Sound, PackedFree, SetDoc, Denote, Subst, Rearranged, Swapped, Plain;
    if IsList(s.tree, p) {
      var items := AtDoc(s.tree, p).value.items;
      if i < |items| && j < |items| {
        LoadedSwapped(items, i, j);
        ReorderAgrees(s, p, Swapped(items, i, j), SwapSource(|items|, i, j));
      } else {
        Still(items);
        ReorderAgrees(s, p, items, Same(|items|));
      }
    } else {
      NotListed(s, p);
    }
  }

  lemma EditAgrees(s: State, e: Edit)
    requires Plain(s)
    ensures Denotes(s, e)
  {
    hide Denotes, Plain;
    match e
    case Put(p, x) => PutAgrees(s, p, x);
    case Ensure(p, list) => EnsureAgrees(s, p, list);
    case Remove(p) => RemoveAgrees(s, p);
    case Clear(p) => ClearAgrees(s, p);
    case Move(p, from, to) => MoveAgrees(s, p, from, to);
    case Swap(p, i, j) => SwapAgrees(s, p, i, j);
  }

  /** A whole run: it is refused exactly when the same run on the document is, and
      then it denotes that run's result. */
  lemma {:induction false} RunDenotes(s: State, edits: seq<Edit>)
    requires Plain(s)
    ensures RunDoc(DocumentOf(s.tree), edits)
         == match RunT(s, edits) case Some(n) => Some(DocumentOf(n.tree)) case None => None
    ensures RunT(s, edits).Some? ==> Plain(RunT(s, edits).value)
    decreases |edits|
  {
    hide EditT, EditDoc, Plain;
    if edits != [] {
      EditAgrees(s, edits[0]);
      if EditT(s, edits[0]).Some? { RunDenotes(EditT(s, edits[0]).value, edits[1..]); }
    }
  }

  // ----- run on a store ---------------------------------------------------------

  ghost function StateOf(s: TreeStore): State
    reads s
  {
    State(s.tree, s.issued)
  }

  /** The key an operation on a container is addressed to. */
  method ContainerKey(s: TreeStore, p: Path) returns (key: Option<Skey>)
    requires s.Valid()
    ensures key.None? ==> AtDoc(s.tree, p).None?
    ensures key.Some? ==> Names(s.tree, key.value, p)
  {
    hide Rep, Distinct, Keys;
    TableIsHeld(s);
    key := Resolve(s.store, p, s.tree);
  }

  lemma TableIsHeld(s: TreeStore)
    requires s.Valid()
    ensures HoldsAt(s.store, ROOT, s.tree)
  {
    if s.tree.None? { assert Blank(s.store, ROOT); }
  }

  method Apply(s: TreeStore, e: Edit) returns (ok: bool)
    requires s.Valid() && Plain(StateOf(s))
    modifies s
    ensures ok <==> EditT(old(StateOf(s)), e).Some?
    ensures ok ==> s.Valid() && SameMode(old(s.store), s.store) && Some(StateOf(s)) == EditT(old(StateOf(s)), e)
  {
    hide Rep, Distinct, Keys, PackedFree, PutRelT, EnsureT, ClearT, Open, Subst;
    PlainOpen(StateOf(s), e.path);
    assert [] + e.path == e.path;
    match e
    case Put(p, x) =>
      var r := s.PutScalarRel(ROOT, p, x, []);
      ok := r.Ok?;
    case Ensure(p, list) =>
      var r := s.EnsureContainerRel(ROOT, p, list, []);
      ok := r.Ok?;
    case Remove(p) =>
      var removed := s.RemoveRel(p);
      ok := true;
    case _ =>
      ok := ApplyAtKey(s, e);
  }

  /** The operations addressed to a container's key. */
  method ApplyAtKey(s: TreeStore, e: Edit) returns (ok: bool)
    requires s.Valid() && (e.Clear? || e.Move? || e.Swap?)
    modifies s`store, s`tree
    ensures ok <==> EditT(old(StateOf(s)), e).Some?
    ensures ok ==> s.Valid() && SameMode(old(s.store), s.store) && Some(StateOf(s)) == EditT(old(StateOf(s)), e)
  {
    hide Rep, Distinct, Keys, PutRelT, EnsureT, Subst, Moved, Swapped, Names;
    var key := ContainerKey(s, e.path);
    if key.None? {
      return false;
    }
    match e {
      case Clear(p) =>
        var r := ClearChildren(s, key.value, p);
        ok := r.Ok?;
      case Move(p, from, to) =>
        var r := ListMove(s, key.value, from, to, p);
        ok := r.Ok?;
      case Swap(p, i, j) =>
        var r := ListSwap(s, key.value, i, j, p);
        ok := r.Ok?;
    }
  }

  /** Performs a run of edits, stopping at the first that is refused. */
  method RunEdits(s: TreeStore, edits: seq<Edit>) returns (ok: bool)
    requires s.Valid() && Plain(StateOf(s))
    modifies s
    ensures ok <==> RunT(old(StateOf(s)), edits).Some?
    ensures ok <==> RunDoc(old(DocumentOf(s.tree)), edits).Some?
    ensures ok ==> s.Valid() && SameMode(old(s.store), s.store) && Some(StateOf(s)) == RunT(old(StateOf(s)), edits)
    ensures ok ==> RunDoc(old(DocumentOf(s.tree)), edits) == Some(DocumentOf(s.tree))
  {
    hide Rep, Distinct, Keys, EditT, EditDoc, Plain, Sound, Denote;
    ghost var from := StateOf(s);
    RunDenotes(from, edits);
    assert edits[0..] == edits;
    for i := 0 to |edits|
      invariant s.Valid() && SameMode(old(s.store), s.store) && Plain(StateOf(s))
      invariant RunT(from, edits) == RunT(StateOf(s), edits[i..])
    {
      assert edits[i..][0] == edits[i] && edits[i..][1..] == edits[i + 1..];
      EditAgrees(StateOf(s), edits[i]);
      ok := Apply(s, edits[i]);
      if !ok {
        return;
      }
    }
    ok := true;
  }

  /** The same run on a flat table and on an inline one that hold the same tree: both
      go through or both are refused, and afterwards every read of one is a read of the other. */
  method RunBoth(flat: TreeStore, inline: TreeStore, edits: seq<Edit>) returns (ok: bool)
    requires flat.Valid() && inline.Valid() && flat != inline && flat.store.Engine? && inline.store.Mem?
    requires StateOf(flat) == StateOf(inline)
    modifies flat, inline
    ensures ok <==> RunDoc(old(DocumentOf(flat.tree)), edits).Some?
    ensures ok ==> flat.Valid() && inline.Valid() && flat.store.Engine? && inline.store.Mem? && StateOf(flat) == StateOf(inline)
    ensures ok ==> forall k :: SameAt(flat.store, inline.store, k)
  {
    hide Rep, Distinct, Keys, PackedFree, RunT, RunDoc, Denote, SameAt;
    InlinePlain(inline);
    ok := RunEdits(flat, edits);
    var too := RunEdits(inline, edits);
    if ok {
      InlinePlain(inline);
      forall k ensures SameAt(flat.store, inline.store, k) {
        HoldsSameReads(flat.store, inline.store, flat.tree, k);
      }
    }
  }

  lemma InlinePlain(s: TreeStore)
    requires s.Valid() && s.store.Mem?
    ensures Plain(StateOf(s))
  {
    hide Rep, PackedFree;
    if s.tree.Some? { MemPackedFree(s.store.cells, s.tree.value); }
  }
}
