/** Clearing and reordering one container under its own key. */
module Containers {
  import opened Basics
  import opened Scalars
  import opened Skeys
  import opened Paths
  import opened Values
  import opened Trees
  import opened TreeLaws
  import opened Blobs
  import opened Backends
  import opened Walks
  import opened Edits
  import opened TreeStores

  /** `key` names the node at `p`, or no node of the table at all. */
  predicate Names(t: Option<Tree>, key: Skey, p: Path) {
    if AtDoc(t, p).Some? then AtDoc(t, p).value.key == key
    else t.Some? ==> key !in Keys(t.value)
  }

  lemma NamedEntry(b: Backend, t: Option<Tree>, key: Skey, p: Path)
    requires Holds(b, t) && Names(t, key, p) && (t.Some? ==> Distinct(t.value))
    ensures AtDoc(t, p).None? ==> b.NodeOf(key).None?
    ensures AtDoc(t, p).Some? ==> b.NodeOf(key).Some? && Rep(b, At(t.value, p).value) && Distinct(At(t.value, p).value)
    ensures AtDoc(t, p).Some? ==> EntryKind(b.NodeOf(key).value, At(t.value, p).value)
  {
    hide Distinct, Keys, Backend.NodeOf, Backend.LinkOf;
    match AtDoc(t, p)
    case None => assert Blank(b, key);
    case Some(u) =>
      AtRep(b, t.value, p);
      AtKeys(t.value, p);
  }

  /** The stored node is of the tree node's own form. */
  predicate EntryKind(node: Node, u: Tree) {
    match u
    case Leaf(_, _) => node.NLeaf?
    case List(_, items) => node == NList(KeysOf(items))
    case Object(_, _) => node == NObject
    case Packed(_, _) => node.NPacked?
  }

  // ----- clearing ---------------------------------------------------------------

  /** The container at `p` emptied, its own key and link kept; a leaf or a packed entity refuses. */
  function ClearT(t: Option<Tree>, p: Path): Option<Tree> {
    match AtDoc(t, p)
    case Some(List(k, _)) => Some(Subst(t.value, p, List(k, [])))
    case Some(Object(k, _)) => Some(Subst(t.value, p, Object(k, map[])))
    case _ => None
  }

  lemma ForestTail(ts: seq<Tree>, i: nat)
    requires Disjoint(ts) && i < |ts|
    ensures ForestKeys(ts[..i]) + Keys(ts[i]) == ForestKeys(ts[..i + 1])
    ensures Keys(ts[i]) !! ForestKeys(ts[i + 1..])
  {
    hide Keys;
    var upTo, rest := ts[..i + 1], ts[i + 1..];
    assert upTo[..i] == ts[..i] && upTo[i] == ts[i];
    forall k | k in ForestKeys(upTo) ensures k in ForestKeys(ts[..i]) + Keys(ts[i]) {
      var j :| 0 <= j <= i && k in Keys(upTo[j]);
      assert j < i ==> ts[..i][j] == upTo[j];
    }
    forall k | k in ForestKeys(ts[..i]) ensures k in ForestKeys(upTo) {
      var j :| 0 <= j < i && k in Keys(ts[..i][j]);
      assert upTo[j] == ts[..i][j];
    }
    forall k | k in Keys(ts[i]) ensures k in ForestKeys(upTo) {
      assert k in Keys(upTo[i]);
    }
    forall j | 0 <= j < |rest| ensures Keys(ts[i]) !! Keys(rest[j]) {
      assert rest[j] == ts[i + 1 + j];
    }
  }

  /** Deletes several subtrees, one after the other. */
  method DropForest(b: Backend, kids: seq<Skey>, ghost ts: seq<Tree>) returns (b': Backend)
    requires !b.Archived? && Forest(b, ts) && kids == KeysOf(ts)
    ensures Cut(b, b', ForestKeys(ts))
  {
    hide Rep, Keys, Distinct;
    b' := b;
    assert ForestKeys(ts[..0]) == {};
    assert ts[0..] == ts;
    for i := 0 to |kids|
      invariant Cut(b, b', ForestKeys(ts[..i])) && Forest(b', ts[i..])
    {
      ghost var before, rest := b', ts[i + 1..];
      assert ts[i..][0] == ts[i] && [ts[i]] + rest == ts[i..];
      FirstOf(b', ts[i..]);
      assert ts[i..][1..] == rest;
      b' := CascadeDelete(b', kids[i], ts[i]);
      ForestTail(ts, i);
      CutMore(b, before, b', ForestKeys(ts[..i]), Keys(ts[i]));
      ForestFrame(before, b', rest, Keys(ts[i]));
    }
    assert ts[..|kids|] == ts;
  }

  lemma FirstOf(b: Backend, ts: seq<Tree>)
    requires Forest(b, ts) && ts != []
    ensures Rep(b, ts[0]) && Distinct(ts[0]) && Forest(b, ts[1..])
  {
    hide Rep, Keys, Distinct;
    var rest := ts[1..];
    forall i | 0 <= i < |rest| ensures Rep(b, rest[i]) && Distinct(rest[i]) {
      assert rest[i] == ts[i + 1];
    }
    forall i, j | 0 <= i < j < |rest| ensures Keys(rest[i]) !! Keys(rest[j]) {
      assert rest[i] == ts[i + 1] && rest[j] == ts[j + 1];
    }
  }

  /** A container emptied under its own key: the whole table holds the cleared tree. */
  lemma ClearedHolds(b: Backend, c: Backend, t: Tree, p: Path, empty: Tree, next: Skey)
    requires Holds(b, Some(t)) && Sound(Some(t), next) && At(t, p).Some?
    requires empty == List(At(t, p).value.key, []) || empty == Object(At(t, p).value.key, map[])
    requires SameOff(b, c, Keys(At(t, p).value)) && AllBlank(c, Keys(At(t, p).value) - {empty.key})
    requires c.NodeOf(empty.key) == Some(EmptyNode(empty.List?)) && NoLinks(c, empty.key)
    ensures Holds(c, Some(Subst(t, p, empty))) && Sound(Some(Subst(t, p, empty)), next)
  {
    hide Keys, Distinct, Backend.NodeOf, Backend.LinkOf;
    var u := At(t, p).value;
    KeyIsOwn(u);
    AtKeys(t, p);
    EmptyKeys(empty);
    LoneRep(c, EmptyNode(empty.List?), empty);
    SubstRep(b, c, t, p, empty);
    SubstShape(t, p, empty);
    forall k | k !in Keys(Subst(t, p, empty)) ensures Blank(c, k) {
      if k !in Keys(u) { assert SameAt(b, c, k) && Blank(b, k); }
    }
  }

  lemma EmptyKeys(empty: Tree)
    requires empty == List(empty.key, []) || empty == Object(empty.key, map[])
    ensures Keys(empty) == {empty.key} && Distinct(empty)
  {}

  /** Removes every child of the container `key`, leaving it empty in place. */
  method ClearChildren(s: TreeStore, key: Skey, ghost p: Path) returns (r: Result<()>)
    requires s.Valid() && Names(s.tree, key, p)
    modifies s`store, s`tree
    ensures r.Ok? <==> ClearT(old(s.tree), p).Some?
    ensures r.Ok? ==> s.Valid() && SameMode(old(s.store), s.store) && s.tree == ClearT(old(s.tree), p)
    ensures r.Err? ==> s.store == old(s.store) && s.tree == old(s.tree)
  {
    hide Rep, Keys, Distinct;
    NamedEntry(s.store, s.tree, key, p);
    var node := s.store.NodeOf(key);
    if node.None? || node.value.NLeaf? || node.value.NPacked? {
      return Err(Corrupt);
    }
    ghost var t, u := s.tree.value, At(s.tree.value, p).value;
    var cleared := ClearNode(s.store, key, node.value, u);
    ghost var empty := if u.List? then List(key, []) else Object(key, map[]);
    ClearedHolds(s.store, cleared, t, p, empty, s.issued);
    s.store := cleared;
    s.tree := Some(Subst(t, p, empty));
    r := Ok(());
  }

  method ClearNode(b: Backend, key: Skey, node: Node, ghost u: Tree) returns (c: Backend)
    requires !b.Archived? && b.NodeOf(key) == Some(node) && (u.List? || u.Object?)
    requires Rep(b, u) && Distinct(u) && u.key == key && EntryKind(node, u)
    ensures SameOff(b, c, Keys(u)) && AllBlank(c, Keys(u) - {key})
    ensures c.NodeOf(key) == Some(EmptyNode(u.List?)) && NoLinks(c, key)
  {
    hide Rep, Keys, Distinct;
    var b1: Backend, kids: seq<Skey>;
    ghost var sub: seq<Tree>;
    b1, kids, sub := CollectChildren(b, key, u);
    ForestFrame(b, b1, sub, {key});
    var b2 := DropForest(b1, kids, sub);
    assert ForestKeys(sub) + {key} == Keys(u) by { KeyIsOwn(u); }
    SameOffTrans(b, b1, b2, {key}, ForestKeys(sub));
    assert {key} + ForestKeys(sub) == Keys(u);
    assert SameAt(b1, b2, key);
    c := b2;
    if node.NList? {
      PutNodeEffect(b2, key, NList([]));
      c := b2.PutNode(key, NList([])).value;
      SameOffTrans(b, b2, c, Keys(u), {key});
      assert Keys(u) + {key} == Keys(u);
      BlankOff(b2, c, ForestKeys(sub), {key});
    }
  }

  // ----- reordering -------------------------------------------------------------

  function Least(i: nat, j: nat): nat { if i < j then i else j }

  function Moved<T>(items: seq<T>, from: nat, to: nat): seq<T>
    requires from < |items|
  {
    var rest := items[..from] + items[from + 1..];
    var at := Least(to, |rest|);
    rest[..at] + [items[from]] + rest[at..]
  }

  function Swapped<T>(items: seq<T>, i: nat, j: nat): seq<T>
    requires i < |items| && j < |items|
  {
    items[i := items[j]][j := items[i]]
  }

  /** Where the element now at `i` was before a move. */
  function MovedFrom(n: nat, from: nat, to: nat, i: nat): nat
    requires from < n && i < n
  {
    var at := Least(to, n - 1);
    if i == at then from
    else
      var j := if i < at then i else i - 1;
      if j < from then j else j + 1
  }

  function SwappedFrom(i: nat, j: nat, k: nat): nat { if k == i then j else if k == j then i else k }

  /** A move takes one element to its place and keeps the others in order. */
  lemma MovedReads<T>(items: seq<T>, from: nat, to: nat, i: nat)
    requires from < |items| && i < |items|
    ensures |Moved(items, from, to)| == |items|
    ensures MovedFrom(|items|, from, to, i) < |items|
    ensures Moved(items, from, to)[i] == items[MovedFrom(|items|, from, to, i)]
  {}

  lemma MovedFromInjective(n: nat, from: nat, to: nat, i: nat, j: nat)
    requires from < n && i < j < n
    ensures MovedFrom(n, from, to, i) != MovedFrom(n, from, to, j)
    ensures i != Least(to, n - 1) && j != Least(to, n - 1) ==> MovedFrom(n, from, to, i) < MovedFrom(n, from, to, j)
  {}

  /** `now` is `items` rearranged: position `i` holds what was at `src[i]`. */
  predicate Rearranged<T(==)>(items: seq<T>, now: seq<T>, src: seq<nat>) {
    && |src| == |now| == |items|
    && (forall i | 0 <= i < |src| :: src[i] < |items| && now[i] == items[src[i]])
    && (forall i, j | 0 <= i < j < |src| :: src[i] != src[j])
  }

  /** Distinct positions below `n`, `n` of them, leave none out. */
  lemma {:induction false} Onto(src: seq<nat>, n: nat, x: nat)
    requires |src| == n && x < n && (forall i | 0 <= i < n :: src[i] < n)
    requires forall i, j | 0 <= i < j < n :: src[i] != src[j]
    ensures exists i :: 0 <= i < n && src[i] == x
  {
    if x !in src {
      var used := set i | 0 <= i < n :: src[i];
      InjectiveSize(src, n);
      assert used <= UpTo(n) - {x};
      SubsetSize(used, UpTo(n) - {x});
    }
  }

  lemma {:induction false} InjectiveSize(src: seq<nat>, n: nat)
    requires n <= |src| && forall i, j | 0 <= i < j < |src| :: src[i] != src[j]
    ensures |set i | 0 <= i < n :: src[i]| == n
  {
    if n > 0 {
      InjectiveSize(src, n - 1);
      assert (set i | 0 <= i < n :: src[i]) == (set i | 0 <= i < n - 1 :: src[i]) + {src[n - 1]};
    }
  }

  function UpTo(n: nat): (all: set<nat>)
    ensures |all| == n && forall i: nat :: i in all <==> i < n
  {
    if n == 0 then {} else UpTo(n - 1) + {n - 1}
  }

  lemma {:induction false} SubsetSize<T>(a: set<T>, b: set<T>)
    requires a <= b
    ensures |a| <= |b|
  {
    if a != {} {
      var x :| x in a;
      SubsetSize(a - {x}, b - {x});
    }
  }

  lemma RearrangedForest(b: Backend, ts: seq<Tree>, now: seq<Tree>, src: seq<nat>)
    requires Forest(b, ts) && Rearranged(ts, now, src)
    ensures Forest(b, now) && ForestKeys(now) == ForestKeys(ts)
  {
    hide Rep, Keys, Distinct;
    forall k | k in ForestKeys(ts) ensures k in ForestKeys(now) {
      var x :| 0 <= x < |ts| && k in Keys(ts[x]);
      Onto(src, |ts|, x);
      var i :| 0 <= i < |ts| && src[i] == x;
      assert now[i] == ts[x];
    }
    forall k | k in ForestKeys(now) ensures k in ForestKeys(ts) {
      var i :| 0 <= i < |now| && k in Keys(now[i]);
      assert now[i] == ts[src[i]];
    }
  }

  /** Rewriting a list node's vector in another order holds the reordered list; every
      subtree keeps its key and its entries. */
  lemma ReorderedHolds(b: Backend, c: Backend, t: Tree, p: Path, now: seq<Tree>, src: seq<nat>, next: Skey)
    requires Holds(b, Some(t)) && Sound(Some(t), next) && At(t, p).Some? && At(t, p).value.List?
    requires Rearranged(At(t, p).value.items, now, src)
    requires SameOff(b, c, {At(t, p).value.key})
    requires c.NodeOf(At(t, p).value.key) == Some(NList(KeysOf(now))) && NoLinks(c, At(t, p).value.key)
    ensures Holds(c, Some(Subst(t, p, List(At(t, p).value.key, now))))
    ensures Sound(Some(Subst(t, p, List(At(t, p).value.key, now))), next)
  {
    var u := At(t, p).value;
    var u' := List(u.key, now);
    AtKeys(t, p);
    AtRep(b, t, p);
    ListKeys(u);
    ListKeys(u');
    ListSubTrees(b, u);
    RearrangedForest(b, u.items, now, src);
    ForestFrame(b, c, now, {u.key});
    ListOf(c, u');
    SubstRep(b, c, t, p, u');
    SubstShape(t, p, u');
    forall k | k !in Keys(t) ensures Blank(c, k) {
      assert Blank(b, k) && SameAt(b, c, k);
    }
  }

  lemma ListOf(c: Backend, u: Tree)
    requires u.List? && Forest(c, u.items) && u.key !in ForestKeys(u.items)
    requires c.NodeOf(u.key) == Some(NList(KeysOf(u.items))) && NoLinks(c, u.key)
    ensures Rep(c, u) && Distinct(u)
  {}

  /** The list at `p` rearranged, or `None` when there is no such list. */
  function ReorderT(t: Option<Tree>, p: Path, now: seq<Tree>): Option<Tree>
    requires AtDoc(t, p).Some? && AtDoc(t, p).value.List?
  {
    Some(Subst(t.value, p, List(AtDoc(t, p).value.key, now)))
  }

  predicate IsList(t: Option<Tree>, p: Path) { AtDoc(t, p).Some? && AtDoc(t, p).value.List? }

  /** Writes the list node `key` back with its keys in the order `now`. */
  method RewriteList(s: TreeStore, key: Skey, keys: seq<Skey>, ghost p: Path, ghost now: seq<Tree>, ghost src: seq<nat>)
    requires s.Valid() && IsList(s.tree, p) && AtDoc(s.tree, p).value.key == key
    requires Rearranged(AtDoc(s.tree, p).value.items, now, src) && keys == KeysOf(now)
    modifies s`store, s`tree
    ensures s.Valid() && SameMode(old(s.store), s.store) && s.tree == ReorderT(old(s.tree), p, now)
  {
    AtRep(s.store, s.tree.value, p);
    PutNodeEffect(s.store, key, NList(keys));
    ReorderedHolds(s.store, s.store.PutNode(key, NList(keys)).value, s.tree.value, p, now, src, s.issued);
    s.store := s.store.PutNode(key, NList(keys)).value;
    s.tree := ReorderT(s.tree, p, now);
  }

  /** Moves the element at `from` to `to`, clamped to the end. Every key stays. */
  method ListMove(s: TreeStore, key: Skey, from: nat, to: nat, ghost p: Path) returns (r: Result<()>)
    requires s.Valid() && Names(s.tree, key, p)
    modifies s`store, s`tree
    ensures r.Ok? <==> IsList(old(s.tree), p) && from < |AtDoc(old(s.tree), p).value.items|
    ensures r.Ok? ==> s.tree == ReorderT(old(s.tree), p, Moved(AtDoc(old(s.tree), p).value.items, from, to))
    ensures r.Ok? ==> s.Valid() && SameMode(old(s.store), s.store)
    ensures r.Err? ==> s.store == old(s.store) && s.tree == old(s.tree)
  {
    hide Rep, Keys, Distinct;
    NamedEntry(s.store, s.tree, key, p);
    var node := s.store.NodeOf(key);
    if node.None? || !node.value.NList? {
      return Err(Corrupt);
    }
    var items := node.value.items;
    if from >= |items| {
      return Err(IndexOutOfRange);
    }
    var moved := items[from];
    items := items[..from] + items[from + 1..];
    var at := if to < |items| then to else |items|;
    items := items[..at] + [moved] + items[at..];
    ghost var ts := AtDoc(s.tree, p).value.items;
    MoveRearranges(ts, from, to);
    RewriteList(s, key, items, p, Moved(ts, from, to), MoveSource(|ts|, from, to));
    r := Ok(());
  }

  function MoveSource(n: nat, from: nat, to: nat): (src: seq<nat>)
    requires from < n
    ensures |src| == n && forall i | 0 <= i < n :: src[i] == MovedFrom(n, from, to, i)
  {
    seq(n, i requires 0 <= i < n => MovedFrom(n, from, to, i))
  }

  lemma MoveRearranges(ts: seq<Tree>, from: nat, to: nat)
    requires from < |ts|
    ensures Rearranged(ts, Moved(ts, from, to), MoveSource(|ts|, from, to))
    ensures KeysOf(Moved(ts, from, to)) == Moved(KeysOf(ts), from, to)
  {
    var src, now := MoveSource(|ts|, from, to), Moved(ts, from, to);
    forall i | 0 <= i < |ts| ensures src[i] < |ts| && now[i] == ts[src[i]] {
      MovedReads(ts, from, to, i);
    }
    forall i, j | 0 <= i < j < |ts| ensures src[i] != src[j] {
      MovedFromInjective(|ts|, from, to, i, j);
    }
    forall i | 0 <= i < |ts| ensures KeysOf(now)[i] == Moved(KeysOf(ts), from, to)[i] {
      MovedReads(KeysOf(ts), from, to, i);
    }
    MovedReads(KeysOf(ts), from, to, 0);
  }

  /** Swaps two elements of a list. Every key stays. */
  method ListSwap(s: TreeStore, key: Skey, i: nat, j: nat, ghost p: Path) returns (r: Result<()>)
    requires s.Valid() && Names(s.tree, key, p)
    modifies s`store, s`tree
    ensures r.Ok? <==> IsList(old(s.tree), p) && i < |AtDoc(old(s.tree), p).value.items| && j < |AtDoc(old(s.tree), p).value.items|
    ensures r.Ok? ==> s.tree == ReorderT(old(s.tree), p, Swapped(AtDoc(old(s.tree), p).value.items, i, j))
    ensures r.Ok? ==> s.Valid() && SameMode(old(s.store), s.store)
    ensures r.Err? ==> s.store == old(s.store) && s.tree == old(s.tree)
  {
    hide Rep, Keys, Distinct;
    NamedEntry(s.store, s.tree, key, p);
    var node := s.store.NodeOf(key);
    if node.None? || !node.value.NList? {
      return Err(Corrupt);
    }
    var items := node.value.items;
    if i >= |items| || j >= |items| {
      return Err(IndexOutOfRange);
    }
    items := items[i := items[j]][j := items[i]];
    ghost var ts := AtDoc(s.tree, p).value.items;
    ghost var src := seq(|ts|, k requires 0 <= k < |ts| => SwappedFrom(i, j, k));
    assert KeysOf(Swapped(ts, i, j)) == items;
    RewriteList(s, key, items, p, Swapped(ts, i, j), src);
    r := Ok(());
  }
}
