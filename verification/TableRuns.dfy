/** Runs of a table under one writer: mutations, each between the deletion and the
    insertion of the entries it can affect, and the making and dropping of indexes. */
module TableRuns {
  import opened Basics
  import opened Bytes
  import opened Scalars
  import opened Skeys
  import opened Paths
  import opened Values
  import opened Trees
  import opened TreeLaws
  import opened Removal
  import opened Containers
  import opened Elsewhere
  import opened Storing
  import opened Patterns
  import opened Columns
  import opened TableKeys
  import opened Maintenance
  import opened Brackets
  import opened IndexSets
  import EditRuns
  import Scans

  /** A table between two operations. */
  datatype Table = Table(tree: Option<Tree>, next: Skey, data: Entries, indexes: seq<IndexEntry>, nextId: nat)

  datatype Op =
    | PutOp(path: Path, scalar: Scalar)
    | EnsureOp(path: Path, list: bool)
    | RemoveOp(path: Path)
    | ClearOp(path: Path)
    | StoreOp(path: Path, value: Value)
    | CreateOp(def: IndexDef)
    | DropOp(name: string)
    | OtherTableOp(nextId: nat)

  /** The entries stored are exactly those the tree implies, for every index. */
  ghost predicate Inv(s: Table) {
    && Sound(s.tree, s.next)
    && Registered(s.indexes, s.nextId)
    && Owned(s.data, s.indexes)
    && AllExact(s.data, s.tree, s.indexes)
  }

  /** While the key supply stays within sixteen bytes, so does every stored key. */
  lemma EntriesFit(s: Table)
    requires Inv(s) && s.next <= Pow256(16)
    ensures Scans.KeysFit(s.data.Keys)
  {
    hide Keys, Distinct, Pow256, ColumnKey, ColumnsOf, Matches, Registered;
    KeySpace();
    IdsFit(s.indexes, s.nextId);
    forall k | k in s.data.Keys ensures k.Valid() {
      assert OwnedKey(k, s.indexes);
      var i :| 0 <= i < |s.indexes| && OfIndex(k, s.indexes[i].id);
      assert Exact(s.data, s.tree, s.indexes[i]) && Implied(s.tree, s.indexes[i], k);
      var q :| Selected(s.tree, s.indexes[i].def.pattern, q) && k == KeyFor(s.tree, s.indexes[i], q);
      if AtDoc(s.tree, q).Some? {
        AtKeys(s.tree.value, q);
        KeyIsOwn(At(s.tree.value, q).value);
      }
    }
  }

  lemma IdsFit(indexes: seq<IndexEntry>, nextId: nat)
    requires Registered(indexes, nextId)
    ensures forall i | 0 <= i < |indexes| :: indexes[i].id < Pow256(4)
  {
    hide Pow256;
  }

  lemma KeySpace()
    ensures ROOT < Pow256(16)
  {}

  // ----- the steps --------------------------------------------------------------

  /** The tree a mutation leaves. A removal below the root asks that no pattern names a
      list position other than the first; a store asks for a place where clearing moves
      nothing; no packed entity may be in the way of a container. */
  ghost predicate Mutated(s: Table, op: Op, after: Option<Tree>) {
    match op
    case PutOp(p, x) => PutT(s.tree, p, x, s.next).Some? && after == Some(PutT(s.tree, p, x, s.next).value.tree)
    case EnsureOp(p, list) =>
      && OpenDoc(s.tree, p) && EnsureT(s.tree, p, list, s.next).Some?
      && after == Some(EnsureT(s.tree, p, list, s.next).value.tree)
    case RemoveOp(p) => (p == [] || forall i | 0 <= i < |s.indexes| :: Steady(s.indexes[i].def.pattern)) && after == RemoveT(s.tree, p)
    case ClearOp(p) => after.Some? && after == ClearT(s.tree, p)
    case StoreOp(p, v) =>
      OpenDoc(s.tree, p) && (Overwrote(s.tree, after, p, v) || (AtEnd(DocumentOf(s.tree), p) && Stored(s.tree, after, p, v)))
    case _ => false
  }

  /** `d1` is what is stored while the mutation runs. */
  ghost predicate Bracket(s: Table, s': Table, scope: Path, d1: Entries) {
    && AllDeleted(s.data, d1, s.tree, s.indexes, scope)
    && AllInserted(d1, s'.data, s'.tree, s.indexes, scope)
    && (Owned(s.data, s.indexes) ==> Owned(s'.data, s.indexes))
  }

  ghost predicate Created(s: Table, def: IndexDef, s': Table) {
    var e := IndexEntry(s.nextId, def);
    && def.Valid() && NoneNamed(s.indexes, def.name) && s.nextId + 1 <= Pow256(4)
    && Inserted(s.data, s'.data, s.tree, e, []) && OthersSame(s.data, s'.data, s.nextId)
    && s' == Table(s.tree, s.next, s'.data, s.indexes + [e], s.nextId + 1)
  }

  predicate NoneNamed(indexes: seq<IndexEntry>, name: string) {
    forall i | 0 <= i < |indexes| :: indexes[i].def.name != name
  }

  ghost predicate Moves(s: Table, op: Op, s': Table) {
    match op
    case CreateOp(def) => if def in Defs(s.indexes) then s' == s else Created(s, def, s')
    case DropOp(name) =>
      && s' == Table(s.tree, s.next, s'.data, s'.indexes, s.nextId)
      && ((s' == s && NoneNamed(s.indexes, name)) || exists i :: Dropped(s.indexes, s'.indexes, s.data, s'.data, name, i))
    case OtherTableOp(nextId) => s.nextId <= nextId <= Pow256(4) && s' == s.(nextId := nextId)
    case _ =>
      && s' == Table(s'.tree, s'.next, s'.data, s.indexes, s.nextId)
      && Sound(s'.tree, s'.next) && Mutated(s, op, s'.tree)
      && exists d1 :: Bracket(s, s', op.path, d1)
  }

  // ----- every step keeps the indexes exact --------------------------------------

  lemma MutationBrackets(s: Table, op: Op, after: Option<Tree>, i: nat)
    requires Mutated(s, op, after) && i < |s.indexes|
    ensures Bracketed(s.tree, after, s.indexes[i].def.pattern, op.path)
  {
    hide PutT, EnsureT, RemoveT, ClearT, Bracketed, Untouched, Stored, AtEnd, Open, Steady;
    var pat := s.indexes[i].def.pattern;
    match op
    case PutOp(p, x) => PutBrackets(s.tree, p, x, s.next, pat);
    case EnsureOp(p, list) =>
      EnsureUntouched(s.tree, p, list, s.next);
      UntouchedBrackets(s.tree, after, pat, p);
    case RemoveOp(p) => if p == [] { RootBrackets(s.tree, after, pat); } else { RemoveBrackets(s.tree, p, pat); }
    case ClearOp(p) => ClearBrackets(s.tree, p, pat);
    case StoreOp(p, v) =>
      if Overwrote(s.tree, after, p, v) { UntouchedBrackets(s.tree, after, pat, p); } else { StoreBrackets(s.tree, after, p, v, pat); }
  }

  /** Everything lies on the root's own line. */
  lemma RootBrackets(t: Option<Tree>, t': Option<Tree>, pat: Pattern)
    ensures Bracketed(t, t', pat, [])
  {
    hide Matches;
    forall q: Path ensures Comparable([], q) {}
  }

  lemma AllBracketed(s: Table, op: Op, after: Option<Tree>)
    requires Mutated(s, op, after)
    ensures forall i | 0 <= i < |s.indexes| :: Bracketed(s.tree, after, s.indexes[i].def.pattern, op.path)
  {
    hide PutT, EnsureT, RemoveT, ClearT, Bracketed, Untouched, Stored, AtEnd, Open, Steady;
    forall i | 0 <= i < |s.indexes| ensures Bracketed(s.tree, after, s.indexes[i].def.pattern, op.path) {
      MutationBrackets(s, op, after, i);
    }
  }

  lemma StepKeeps(s: Table, op: Op, s': Table)
    requires Inv(s) && Moves(s, op, s')
    ensures Inv(s')
  {
    hide Exact, Owned, Registered, Mutated, Inserted, Deleted, Bracketed, Keys, Distinct;
    match op
    case CreateOp(def) => if def !in Defs(s.indexes) { CreateKeeps(s, def, s'); }
    case DropOp(name) =>
      if s' != s {
        var i :| Dropped(s.indexes, s'.indexes, s.data, s'.data, name, i);
        ShrunkExact(s.data, s'.data, s.tree, s.indexes, i, s.nextId);
      }
    case OtherTableOp(nextId) => RaisedIds(s.indexes, s.nextId, nextId);
    case _ =>
      var d1 :| Bracket(s, s', op.path, d1);
      AllBracketed(s, op, s'.tree);
      AllKeep(s.data, d1, s'.data, s.tree, s'.tree, s.indexes, op.path);
  }

  lemma RaisedIds(indexes: seq<IndexEntry>, nextId: nat, later: nat)
    requires Registered(indexes, nextId) && nextId <= later <= Pow256(4)
    ensures Registered(indexes, later)
  {}

  lemma CreateKeeps(s: Table, def: IndexDef, s': Table)
    requires Inv(s) && Created(s, def, s')
    ensures Inv(s')
  {
    hide Exact, Owned, Inserted, Keys, Distinct;
    var e := IndexEntry(s.nextId, def);
    NothingUnder(s.data, s.indexes, s.nextId);
    FilledExact(s.data, s'.data, s.tree, e);
    GrownExact(s.data, s'.data, s.tree, s.indexes, e);
  }

  lemma NoDrop(s: Table, name: string)
    requires NoneNamed(s.indexes, name)
    ensures Moves(s, DropOp(name), s)
  {}

  lemma DropForm(s: Table, i: nat)
    requires Inv(s) && i < |s.indexes|
    ensures Scans.FormOf(s.data.Keys, s.indexes[i].id, s.indexes[i].def.unique) && s.indexes[i].id < Pow256(4)
  {
    hide Exact, Owned;
    ExactForms(s.data, s.tree, s.indexes[i]);
  }

  /** Dropping the index of a name, and all that is stored under its id, is a step. */
  lemma Drops(s: Table, name: string, i: nat, left: Entries)
    requires Inv(s) && i < |s.indexes| && s.indexes[i].def.name == name
    requires (forall k :: k in left <==> k in s.data && !OfIndex(k, s.indexes[i].id)) && forall k | k in left :: left[k] == s.data[k]
    ensures Dropped(s.indexes, s.indexes[..i] + s.indexes[i + 1..], s.data, left, name, i)
    ensures NoneNamed(s.indexes[..i] + s.indexes[i + 1..], name)
    ensures Moves(s, DropOp(name), Table(s.tree, s.next, left, s.indexes[..i] + s.indexes[i + 1..], s.nextId))
    ensures Inv(Table(s.tree, s.next, left, s.indexes[..i] + s.indexes[i + 1..], s.nextId))
  {
    hide Exact, Owned, Sound;
    var rest := s.indexes[..i] + s.indexes[i + 1..];
    forall j | 0 <= j < |rest| ensures rest[j].def.name != name {
      assert rest[j] == s.indexes[if j < i then j else j + 1];
    }
    assert Dropped(s.indexes, rest, s.data, left, name, i);
    ShrunkExact(s.data, left, s.tree, s.indexes, i, s.nextId);
  }

  // ----- whole runs ---------------------------------------------------------------

  ghost predicate IsRun(states: seq<Table>, ops: seq<Op>) {
    && |states| == |ops| + 1
    && forall i | 0 <= i < |ops| :: Moves(states[i], ops[i], states[i + 1])
  }

  /** A run from one state to another. */
  ghost predicate RunFrom(states: seq<Table>, ops: seq<Op>, first: Table, last: Table) {
    IsRun(states, ops) && states[0] == first && states[|ops|] == last
  }

  /** The states of two runs, one after the other. */
  function Joined(a: seq<Table>, b: seq<Table>): seq<Table> { if b == [] then a else a + b[1..] }

  lemma JoinRuns(a: seq<Table>, x: seq<Op>, b: seq<Table>, y: seq<Op>, first: Table, mid: Table, last: Table)
    requires RunFrom(a, x, first, mid) && RunFrom(b, y, mid, last)
    ensures RunFrom(Joined(a, b), x + y, first, last)
  {
    hide Moves;
    var states, ops := Joined(a, b), x + y;
    forall i | 0 <= i < |ops| ensures Moves(states[i], ops[i], states[i + 1]) {
      if i < |x| {
        assert Moves(a[i], x[i], a[i + 1]);
      } else {
        var j := i - |x|;
        assert Moves(b[j], y[j], b[j + 1]) && states[i] == b[j] && states[i + 1] == b[j + 1];
      }
    }
  }

  lemma OneStep(s: Table, op: Op, s': Table)
    requires Moves(s, op, s')
    ensures RunFrom([s, s'], [op], s, s')
  {
    hide Moves;
  }

  /** In every state of every run the indexes are exact, no two share an id, and an id
      that has been dropped never comes back. */
  lemma {:induction false} RunKeeps(states: seq<Table>, ops: seq<Op>, i: nat, j: nat)
    requires IsRun(states, ops) && Inv(states[0]) && i <= j < |states|
    ensures Inv(states[j])
    ensures states[i].nextId <= states[j].nextId
    ensures forall e | e in states[j].indexes && e.id < states[i].nextId :: e in states[i].indexes
    decreases j
  {
    hide Moves, Inv;
    if i < j {
      RunKeeps(states, ops, i, j - 1);
      assert Moves(states[j - 1], ops[j - 1], states[(j - 1) + 1]);
      StepKeeps(states[j - 1], ops[j - 1], states[j]);
      StepIds(states[j - 1], ops[j - 1], states[j]);
    } else if j > 0 {
      RunKeeps(states, ops, j - 1, j - 1);
      assert Moves(states[j - 1], ops[j - 1], states[(j - 1) + 1]);
      StepKeeps(states[j - 1], ops[j - 1], states[j]);
    }
  }

  lemma StepIds(s: Table, op: Op, s': Table)
    requires Moves(s, op, s')
    ensures s.nextId <= s'.nextId
    ensures forall e | e in s'.indexes && e.id < s.nextId :: e in s.indexes
  {
    hide Mutated, Bracket, Inserted, OthersSame, Sound;
  }

  /** What an operation does to the document. */
  function OpDoc(doc: Document, op: Op): Option<Document> {
    match op
    case PutOp(p, x) => EditRuns.EditDoc(doc, EditRuns.Put(p, x))
    case EnsureOp(p, list) => EditRuns.EditDoc(doc, EditRuns.Ensure(p, list))
    case RemoveOp(p) => EditRuns.EditDoc(doc, EditRuns.Remove(p))
    case ClearOp(p) => EditRuns.EditDoc(doc, EditRuns.Clear(p))
    case StoreOp(p, v) => EditRuns.Written(SetDoc(doc, p, v))
    case _ => Some(doc)
  }

  function OpsDoc(doc: Document, ops: seq<Op>): Option<Document>
    decreases |ops|
  {
    if ops == [] then Some(doc)
    else match OpDoc(doc, ops[0]) case Some(n) => OpsDoc(n, ops[1..]) case None => None
  }

  lemma StepDenotes(s: Table, op: Op, s': Table)
    requires Sound(s.tree, s.next) && Moves(s, op, s')
    ensures OpDoc(DocumentOf(s.tree), op) == Some(DocumentOf(s'.tree))
  {
    hide Denote, SetDoc, PutT, EnsureT, RemoveT, Stored, AtEnd, Keys, Distinct, Bracket, Open, Untouched, RemoveDoc, ClearT;
    match op
    case PutOp(p, x) => PutDenotes(s.tree, p, x, s.next);
    case EnsureOp(p, list) => EnsureStepDenotes(s.tree, p, list, s.next);
    case RemoveOp(p) => RemoveDenotes(s.tree, p);
    case ClearOp(p) => ClearDenotes(s.tree, p);
    case StoreOp(p, v) =>
      if !Overwrote(s.tree, s'.tree, p, v) { StoreThenLoad(s.tree, s'.tree, p, v, []); }
      assert SetDoc(DocumentOf(s.tree), p, v) == DocumentOf(s'.tree) && s'.tree.Some? by { StoredSome(s, op, s'.tree); }
    case _ =>
  }

  /** A mutation between its two index passes is a step. */
  lemma StepDone(s: Table, op: Op, s': Table, d1: Entries)
    requires Sound(s.tree, s.next) && Sound(s'.tree, s'.next) && Mutated(s, op, s'.tree) && Bracket(s, s', op.path, d1)
    requires s'.indexes == s.indexes && s'.nextId == s.nextId
    ensures Moves(s, op, s') && OpDoc(DocumentOf(s.tree), op) == Some(DocumentOf(s'.tree))
  {
    hide Denote, SetDoc, PutT, RemoveT, Stored, AtEnd, Keys, Distinct, Bracket, Open, Untouched, RemoveDoc, ClearT, OpDoc;
    StepDenotes(s, op, s');
  }

  lemma EnsureStepDenotes(t: Option<Tree>, p: Path, list: bool, next: Skey)
    requires OpenDoc(t, p) && EnsureT(t, p, list, next).Some?
    ensures EditRuns.EditDoc(DocumentOf(t), EditRuns.Ensure(p, list)) == Some(Some(Denote(EnsureT(t, p, list, next).value.tree)))
  {
    hide EnsureT, Denote, SetDoc, Open;
    EnsureDenotes(t, p, list, next);
  }

  lemma StoredSome(s: Table, op: Op, after: Option<Tree>)
    requires op.StoreOp? && Mutated(s, op, after)
    ensures after.Some?
  {}

  lemma ClearDenotes(t: Option<Tree>, p: Path)
    requires ClearT(t, p).Some?
    ensures EditRuns.EditDoc(DocumentOf(t), EditRuns.Clear(p)) == Some(DocumentOf(ClearT(t, p)))
  {
    hide SetIn, Subst, Denote;
    var u := At(t.value, p).value;
    var empty := if u.List? then List(u.key, []) else Object(u.key, map[]);
    AtIsOpen(t.value, p);
    OpenRead(t.value, p);
    DenoteSubst(t.value, p, empty);
    ContainerDenotes(u);
    ContainerDenotes(empty);
    EmptyDenotes(empty);
  }

  lemma ContainerDenotes(u: Tree)
    requires u.List? || u.Object?
    ensures if u.List? then Denote(u).VList? else Denote(u).VNode?
  {}

  lemma EmptyDenotes(empty: Tree)
    requires empty == List(empty.key, []) || empty == Object(empty.key, map[])
    ensures Denote(empty) == EmptyValue(empty.List?)
  {}

  /** The document at the end of a run is the run's own result on a plain value. */
  lemma {:induction false} RunDenotes(states: seq<Table>, ops: seq<Op>)
    requires IsRun(states, ops) && Inv(states[0])
    ensures OpsDoc(DocumentOf(states[0].tree), ops) == Some(DocumentOf(states[|ops|].tree))
    decreases |ops|
  {
    hide Moves, Inv, OpDoc;
    if ops != [] {
      assert Moves(states[0], ops[0], states[0 + 1]);
      StepKeeps(states[0], ops[0], states[1]);
      StepDenotes(states[0], ops[0], states[1]) by { assert Inv(states[0]); SoundOf(states[0]); }
      var rest, later := states[1..], ops[1..];
      forall i | 0 <= i < |later| ensures Moves(rest[i], later[i], rest[i + 1]) {
        assert Moves(states[i + 1], ops[i + 1], states[(i + 1) + 1]);
      }
      RunDenotes(rest, later);
    }
  }

  lemma SoundOf(s: Table)
    requires Inv(s)
    ensures Sound(s.tree, s.next)
  {}
}
