/** The write steps the tree operations are built from, on either writable backend.

    Each step says what it does to the entries under every key; the lemmas beside
    them turn that into the keyed tree the backend holds afterwards. */
module Edits {
  import opened Basics
  import opened Scalars
  import opened Skeys
  import opened Paths
  import opened Values
  import opened Trees
  import opened TreeLaws
  import opened Blobs
  import opened Backends
  import opened Walks

  // ----- deletion ---------------------------------------------------------------

  /** The same backend, still writable. */
  predicate SameMode(a: Backend, b: Backend) {
    !b.Archived? && (a.Mem? <==> b.Mem?)
  }

  ghost predicate SameOff(a: Backend, b: Backend, ks: set<Skey>) {
    SameMode(a, b) && forall k | k !in ks :: SameAt(a, b, k)
  }

  ghost predicate AllBlank(b: Backend, ks: set<Skey>) {
    forall k | k in ks :: Blank(b, k)
  }

  /** `b` is `a` with everything under `gone` deleted. */
  ghost predicate Cut(a: Backend, b: Backend, gone: set<Skey>) {
    SameOff(a, b, gone) && AllBlank(b, gone)
  }

  lemma SameOffTrans(a: Backend, b: Backend, c: Backend, ks: set<Skey>, js: set<Skey>)
    requires SameOff(a, b, ks) && SameOff(b, c, js)
    ensures SameOff(a, c, ks + js)
  {
    forall k | k !in ks + js ensures SameAt(a, c, k) {
      assert SameAt(a, b, k) && SameAt(b, c, k);
    }
  }

  lemma BlankOff(a: Backend, b: Backend, blank: set<Skey>, js: set<Skey>)
    requires AllBlank(a, blank) && SameOff(a, b, js)
    ensures AllBlank(b, blank - js)
  {
    forall k | k in blank - js ensures Blank(b, k) {
      assert Blank(a, k) && SameAt(a, b, k);
    }
  }

  lemma CutMore(a: Backend, b: Backend, c: Backend, gone: set<Skey>, more: set<Skey>)
    requires Cut(a, b, gone) && Cut(b, c, more)
    ensures Cut(a, c, gone + more)
  {
    SameOffTrans(a, b, c, gone, more);
    BlankOff(b, c, gone, more);
  }

  ghost predicate Forest(b: Backend, ts: seq<Tree>) {
    (forall i | 0 <= i < |ts| :: Rep(b, ts[i]) && Distinct(ts[i])) && Disjoint(ts)
  }

  lemma ForestFrame(a: Backend, b: Backend, ts: seq<Tree>, js: set<Skey>)
    requires Forest(a, ts) && SameOff(a, b, js) && js !! ForestKeys(ts)
    ensures Forest(b, ts)
  {
    forall i | 0 <= i < |ts| ensures Rep(b, ts[i]) {
      assert Keys(ts[i]) <= ForestKeys(ts);
      RepFrame(a, b, ts[i]);
    }
  }

  lemma ForestPop(ts: seq<Tree>)
    requires ts != [] && Disjoint(ts)
    ensures ForestKeys(ts) == ForestKeys(ts[..|ts| - 1]) + Keys(ts[|ts| - 1])
    ensures ForestKeys(ts[..|ts| - 1]) !! Keys(ts[|ts| - 1])
  {}

  lemma ForestPush(b: Backend, ts: seq<Tree>, sub: seq<Tree>)
    requires Forest(b, ts) && Forest(b, sub) && ForestKeys(ts) !! ForestKeys(sub)
    ensures Forest(b, ts + sub)
    ensures ForestKeys(ts + sub) == ForestKeys(ts) + ForestKeys(sub)
  {
    var all := ts + sub;
    forall i | 0 <= i < |ts| ensures Keys(ts[i]) <= ForestKeys(ts) && all[i] == ts[i] {}
    forall j | 0 <= j < |sub| ensures Keys(sub[j]) <= ForestKeys(sub) && all[|ts| + j] == sub[j] {}
  }

  /** The subtrees below `top`, in the order their keys are collected. */
  function SubTrees(top: Tree, links: seq<(string, Skey)>): seq<Tree>
    requires top.Object? ==> forall i | 0 <= i < |links| :: links[i].0 in top.fields
  {
    match top
    case Object(_, fields) => seq(|links|, i requires 0 <= i < |links| => fields[links[i].0])
    case List(_, items) => items
    case _ => []
  }

  lemma ListSubTrees(b: Backend, top: Tree)
    requires top.List? && Rep(b, top) && Distinct(top)
    ensures Forest(b, top.items) && ForestKeys(top.items) == Keys(top) - {top.key}
  {
    ListKeys(top);
  }

  lemma LinksAreFields(b: Backend, top: Tree, links: seq<(string, Skey)>)
    requires top.Object? && Rep(b, top) && ListsLinks(b, top.key, links)
    ensures forall i | 0 <= i < |links| :: links[i].0 in top.fields && links[i].1 == top.fields[links[i].0].key
    ensures forall n | n in top.fields :: exists i :: 0 <= i < |links| && links[i].0 == n
  {
    forall i | 0 <= i < |links| ensures links[i].0 in top.fields && links[i].1 == top.fields[links[i].0].key {
      assert b.LinkOf(top.key, links[i].0) == FieldKey(top.fields, links[i].0);
    }
    forall n | n in top.fields ensures exists i :: 0 <= i < |links| && links[i].0 == n {
      assert b.LinkOf(top.key, n) == FieldKey(top.fields, n);
    }
  }

  lemma ObjectForest(b: Backend, top: Tree, links: seq<(string, Skey)>)
    requires top.Object? && Rep(b, top) && Distinct(top) && NamesAscend(links)
    requires forall i | 0 <= i < |links| :: links[i].0 in top.fields
    ensures Forest(b, SubTrees(top, links))
  {
    var sub := SubTrees(top, links);
    forall i, j | 0 <= i < j < |sub| ensures Keys(sub[i]) !! Keys(sub[j]) {
      Bytes.NameIrreflexive(links[i].0);
    }
  }

  lemma ObjectForestKeys(top: Tree, links: seq<(string, Skey)>)
    requires top.Object? && Distinct(top)
    requires forall i | 0 <= i < |links| :: links[i].0 in top.fields
    requires forall n | n in top.fields :: exists i :: 0 <= i < |links| && links[i].0 == n
    ensures ForestKeys(SubTrees(top, links)) == Keys(top) - {top.key}
  {
    var sub := SubTrees(top, links);
    forall k | k in Keys(top) - {top.key} ensures k in ForestKeys(sub) {
      var n :| n in top.fields && k in Keys(top.fields[n]);
      var i :| 0 <= i < |links| && links[i].0 == n;
      assert k in Keys(sub[i]);
    }
  }

  /** Unlinks every child of `parent` and returns the keys they had. */
  method TakeObjectChildren(b: Backend, parent: Skey)
    returns (b': Backend, children: seq<Skey>, ghost links: seq<(string, Skey)>)
    requires !b.Archived?
    ensures ListsLinks(b, parent, links)
    ensures |children| == |links| && forall i | 0 <= i < |links| :: children[i] == links[i].1
    ensures SameOff(b, b', {parent}) && b'.NodeOf(parent) == b.NodeOf(parent) && NoLinks(b', parent)
  {
    var found := ObjectChildren(b, parent);
    b', children, links := b, [], found;
    for i := 0 to |found|
      invariant |children| == i && forall j | 0 <= j < i :: children[j] == found[j].1
      invariant SameOff(b, b', {parent}) && b'.NodeOf(parent) == b.NodeOf(parent)
      invariant forall j | 0 <= j < i :: b'.LinkOf(parent, found[j].0) == None
      invariant forall n | b.LinkOf(parent, n) == None :: b'.LinkOf(parent, n) == None
    {
      DeleteLinkEffect(b', parent, found[i].0);
      SameOffTrans(b, b', b'.DeleteLink(parent, found[i].0), {parent}, {parent});
      b' := b'.DeleteLink(parent, found[i].0);
      children := children + [found[i].1];
    }
    forall n ensures b'.LinkOf(parent, n) == None {
      if b.LinkOf(parent, n).Some? {
        var j :| 0 <= j < |found| && found[j].0 == n;
      }
    }
  }

  /** Collects the keys of a node's children, unlinking an object's. */
  method CollectChildren(b: Backend, key: Skey, ghost top: Tree)
    returns (b': Backend, kids: seq<Skey>, ghost sub: seq<Tree>)
    requires !b.Archived? && Rep(b, top) && Distinct(top) && top.key == key
    ensures SameOff(b, b', {key}) && NoLinks(b', key) && b'.NodeOf(key) == b.NodeOf(key)
    ensures kids == KeysOf(sub)
    ensures Forest(b, sub) && ForestKeys(sub) <= Keys(top) - {key}
    ensures top.List? || top.Object? ==> ForestKeys(sub) == Keys(top) - {key}
  {
    b', kids, sub := b, [], [];
    var node := b.NodeOf(key);
    if node.Some? {
      match node.value
      case NObject =>
        ghost var links;
        b', kids, links := TakeObjectChildren(b, key);
        LinksAreFields(b, top, links);
        ObjectForest(b, top, links);
        ObjectForestKeys(top, links);
        sub := SubTrees(top, links);
      case NList(items) =>
        kids, sub := items, top.items;
        ListSubTrees(b, top);
      case NLeaf(_) =>
      case NPacked(_, _) =>
    }
  }

  /** Deletes one node's own entries and returns its children's keys. */
  method DropNode(b: Backend, key: Skey, ghost top: Tree)
    returns (b': Backend, kids: seq<Skey>, ghost sub: seq<Tree>)
    requires !b.Archived? && Rep(b, top) && Distinct(top) && top.key == key
    ensures SameOff(b, b', {key}) && AllBlank(b', Keys(top) - ForestKeys(sub))
    ensures kids == KeysOf(sub)
    ensures Forest(b', sub) && ForestKeys(sub) <= Keys(top) - {key}
  {
    b', kids, sub := CollectChildren(b, key, top);
    DeleteNodeEffect(b', key);
    SameOffTrans(b, b', b'.DeleteNode(key), {key}, {key});
    assert {key} + {key} == {key};
    b' := b'.DeleteNode(key);
    ForestFrame(b, b', sub, {key});
    LeftBlank(b, b', top, sub);
  }

  lemma LeftBlank(b: Backend, b': Backend, top: Tree, sub: seq<Tree>)
    requires Rep(b, top) && SameOff(b, b', {top.key}) && Blank(b', top.key)
    requires top.List? || top.Object? ==> ForestKeys(sub) == Keys(top) - {top.key}
    ensures AllBlank(b', Keys(top) - ForestKeys(sub))
  {
    forall k | k in Keys(top) - ForestKeys(sub) ensures Blank(b', k) {
      if k != top.key {
        assert Blank(b, k) && SameAt(b, b', k);
      }
    }
  }

  /** What the deletion loop keeps: the stack's subtrees are whole, the rest of `u` is gone. */
  ghost predicate Deleting(b: Backend, b': Backend, u: Tree, stack: seq<Skey>, trees: seq<Tree>) {
    && stack == KeysOf(trees)
    && Forest(b', trees) && ForestKeys(trees) <= Keys(u)
    && Cut(b, b', Keys(u) - ForestKeys(trees))
  }

  /** Deletes the subtree under `key`: every node and link of it, and nothing else.
      The worklist empties because each key is taken off it once. */
  method CascadeDelete(b: Backend, key: Skey, ghost u: Tree) returns (b': Backend)
    requires !b.Archived? && Rep(b, u) && Distinct(u) && u.key == key
    ensures Cut(b, b', Keys(u))
  {
    b' := b;
    var stack := [key];
    ghost var trees := [u];
    ForestOne(u);
    while stack != []
      invariant Deleting(b, b', u, stack, trees)
      decreases ForestKeys(trees)
    {
      ghost var top, rest, before := trees[|trees| - 1], trees[..|trees| - 1], b';
      assert trees == rest + [top];
      RestForest(b', rest, top);
      var next, below := stack[|stack| - 1], stack[..|stack| - 1];
      assert stack == below + [next];
      var kids: seq<Skey>;
      ghost var sub: seq<Tree>;
      b', kids, sub := DropNode(b', next, top);
      DeletingStep(b, before, b', u, below, rest, top, kids, sub);
      stack := below + kids;
      trees := rest + sub;
    }
    assert ForestKeys([]) == {} && Keys(u) - {} == Keys(u);
  }

  lemma ForestOne(u: Tree)
    ensures ForestKeys([u]) == Keys(u)
  {
    assert [u][0] == u;
  }

  lemma DeletingStep(b: Backend, before: Backend, after: Backend, u: Tree, below: seq<Skey>,
                     rest: seq<Tree>, top: Tree, kids: seq<Skey>, sub: seq<Tree>)
    requires Deleting(b, before, u, below + [top.key], rest + [top])
    requires SameOff(before, after, {top.key}) && AllBlank(after, Keys(top) - ForestKeys(sub))
    requires kids == KeysOf(sub) && Forest(after, sub) && ForestKeys(sub) <= Keys(top) - {top.key}
    ensures Deleting(b, after, u, below + kids, rest + sub)
    ensures ForestKeys(rest + sub) < ForestKeys(rest + [top])
  {
    ForestPop(rest + [top]);
    assert (rest + [top])[..|rest|] == rest;
    KeyIsOwn(top);
    PopStack(below, rest, top, sub);
    RestForest(before, rest, top);
    ForestFrame(before, after, rest, {top.key});
    ForestPush(after, rest, sub);
    CutStep(b, before, after, Keys(u), ForestKeys(rest + [top]), ForestKeys(rest), top, ForestKeys(sub));
  }

  lemma PopStack(below: seq<Skey>, rest: seq<Tree>, top: Tree, sub: seq<Tree>)
    requires below + [top.key] == KeysOf(rest + [top])
    ensures below + KeysOf(sub) == KeysOf(rest + sub)
  {
    assert KeysOf(rest + [top]) == KeysOf(rest) + [top.key];
    assert below == (below + [top.key])[..|rest|] == KeysOf(rest);
    assert KeysOf(rest + sub) == KeysOf(rest) + KeysOf(sub);
  }

  lemma RestForest(b: Backend, rest: seq<Tree>, top: Tree)
    requires Forest(b, rest + [top])
    ensures Forest(b, rest) && Rep(b, top) && Distinct(top)
  {
    var all := rest + [top];
    assert all[|rest|] == top;
    forall i | 0 <= i < |rest| ensures Rep(b, rest[i]) && Distinct(rest[i]) {
      assert all[i] == rest[i];
    }
    forall i, j | 0 <= i < j < |rest| ensures Keys(rest[i]) !! Keys(rest[j]) {
      assert all[i] == rest[i] && all[j] == rest[j];
    }
  }

  lemma CutStep(b: Backend, before: Backend, after: Backend, whole: set<Skey>,
                all: set<Skey>, rest: set<Skey>, top: Tree, sub: set<Skey>)
    requires Cut(b, before, whole - all) && all <= whole
    requires all == rest + Keys(top) && rest !! Keys(top)
    requires SameOff(before, after, {top.key}) && AllBlank(after, Keys(top) - sub)
    requires sub <= Keys(top) - {top.key}
    ensures Cut(b, after, whole - (rest + sub))
  {
    KeyIsOwn(top);
    var gone := whole - all;
    SameOffTrans(b, before, after, gone, {top.key});
    BlankOff(before, after, gone, {top.key});
    assert whole - (rest + sub) == gone + (Keys(top) - sub);
    assert gone - {top.key} == gone;
  }

  // ----- attaching and detaching one child --------------------------------------

  /** `node`, written alone, represents `c`. */
  ghost predicate Lone(node: Node, c: Tree) {
    match c
    case Leaf(_, s) => node == NLeaf(s)
    case List(_, items) => items == [] && node == NList([])
    case Object(_, fields) => fields == map[] && node == NObject
    case Packed(_, inner) => node.NPacked? && node.root == KindOf(inner) && HoldsBlob(node.blob, inner)
  }

  lemma LoneRep(b: Backend, node: Node, c: Tree)
    requires Lone(node, c) && Distinct(c)
    requires b.NodeOf(c.key) == Some(node) && NoLinks(b, c.key) && AllBlank(b, Keys(c) - {c.key})
    ensures Rep(b, c)
  {
    if c.Packed? {
      forall x | x in Keys(c.inner) - {ROOT} ensures Blank(b, x) {
        assert x in Keys(c) - {c.key};
      }
    } else if c.Object? {
      forall n ensures b.LinkOf(c.key, n) == FieldKey(c.fields, n) {}
    } else if c.List? {
      assert KeysOf(c.items) == [];
    }
  }

  /** A position in a list's keys replaced, or filled just past the end. */
  function Placed(items: seq<Skey>, at: nat, child: Skey): seq<Skey> {
    if at < |items| then items[at := child] else items + [child]
  }

  /** `c` is `b` with `child` linked under `parent` at `last`. */
  ghost predicate Attached(b: Backend, c: Backend, parent: Skey, last: Segment, child: Skey) {
    && SameOff(b, c, {parent})
    && match last
       case Name(name) =>
         && c.NodeOf(parent) == Some(NObject)
         && forall n :: c.LinkOf(parent, n) == if n == name then Some(child) else b.LinkOf(parent, n)
       case Index(at) =>
         && b.NodeOf(parent).Some? && b.NodeOf(parent).value.NList?
         && c.NodeOf(parent) == Some(NList(Placed(b.NodeOf(parent).value.items, at, child)))
         && NoLinks(c, parent)
  }

  /** Links `child` under `parent` at `last`: a link entry, or a position in the list node. */
  method AttachChild(b: Backend, parent: Skey, last: Segment, child: Skey) returns (r: Result<Backend>)
    requires !b.Archived?
    requires last.Name? ==> b.NodeOf(parent) == Some(NObject)
    requires last.Index? ==> b.NodeOf(parent).Some? && b.NodeOf(parent).value.NList? && NoLinks(b, parent)
    ensures r.Ok? <==> (last.Index? ==> last.index <= |b.NodeOf(parent).value.items|)
    ensures r.Ok? ==> Attached(b, r.value, parent, last, child)
  {
    match last
    case Name(name) =>
      PutLinkEffect(b, parent, name, child);
      r := b.PutLink(parent, name, child);
    case Index(index) =>
      var items := b.NodeOf(parent).value.items;
      if index < |items| {
        items := items[index := child];
      } else if index == |items| {
        items := items + [child];
      } else {
        return Err(IndexOutOfRange);
      }
      PutNodeEffect(b, parent, NList(items));
      r := b.PutNode(parent, NList(items));
  }

  /** The store holds `t` except that what sat at `p` has just been deleted. */
  ghost predicate CutAt(b0: Backend, b: Backend, t: Tree, p: Path) {
    && p != [] && At(t, Parent(p)).Some? && Holds(b0, Some(t))
    && Cut(b0, b, OldKeys(At(t, Parent(p)).value, Last(p)))
  }

  /** A list takes an index, an object a name. */
  predicate Fits(parent: Tree, last: Segment) {
    (last.Index? && parent.List?) || (last.Name? && parent.Object?)
  }

  /** A new child, not yet linked: its keys are fresh and nothing is stored under them. */
  predicate FreshChild(t: Tree, c: Tree, next: Skey) {
    c.key == next && Distinct(c) && Keys(c) !! Keys(t) && forall k | k in Keys(c) :: k <= next
  }

  lemma FreshLeaf(t: Tree, next: Skey, s: Scalar)
    requires Sound(Some(t), next)
    ensures FreshChild(t, Leaf(next, s), next) && Lone(NLeaf(s), Leaf(next, s))
  {}

  /** Writes a new node and links it under its parent. */
  method LinkFresh(b: Backend, parent: Skey, last: Segment, key: Skey, node: Node,
                   ghost b0: Backend, ghost g: Grown, ghost p: Path, ghost c: Tree)
    returns (r: Result<Backend>)
    requires CutAt(b0, b, g.tree, p) && Sound(Some(g.tree), g.next)
    requires At(g.tree, Parent(p)).value.key == parent && Last(p) == last && Fits(At(g.tree, Parent(p)).value, last)
    requires FreshChild(g.tree, c, g.next) && key == g.next && Lone(node, c) && (b.Mem? ==> !node.NPacked?)
    ensures r.Ok? <==> AttachT(g, p, c).Some?
    ensures r.Ok? ==> SameMode(b, r.value) && Holds(r.value, Some(AttachT(g, p, c).value.tree))
  {
    hide Rep, Distinct, Keys;
    ghost var u := At(g.tree, Parent(p)).value;
    FreshIsBlank(b0, b, g.tree, p, c);
    KeyIsOwn(c);
    ParentEntry(b0, b, g.tree, p);
    PutNodeEffect(b, key, node);
    var b1 := b.PutNode(key, node).value;
    assert SameAt(b, b1, parent) && parent in Keys(g.tree) by { AtKeys(g.tree, Parent(p)); KeyIsOwn(u); }
    r := AttachChild(b1, parent, last, key);
    if r.Ok? {
      LinkedHolds(b0, b, b1, r.value, g, p, node, c);
    }
  }

  lemma FreshIsBlank(b0: Backend, b: Backend, t: Tree, p: Path, c: Tree)
    requires CutAt(b0, b, t, p) && Keys(c) !! Keys(t)
    ensures AllBlank(b, Keys(c))
  {
    AtKeys(t, Parent(p));
    forall k | k in Keys(c) ensures Blank(b, k) {
      assert Blank(b0, k) && SameAt(b0, b, k);
    }
  }

  /** A plain container's own entry. */
  ghost predicate ContainerEntry(b: Backend, u: Tree) {
    && (u.Object? ==> b.NodeOf(u.key) == Some(NObject))
    && (u.List? ==> b.NodeOf(u.key) == Some(NList(KeysOf(u.items))) && NoLinks(b, u.key))
  }

  lemma ParentEntry(b0: Backend, b: Backend, t: Tree, p: Path)
    requires CutAt(b0, b, t, p) && Distinct(t)
    ensures SameAt(b0, b, At(t, Parent(p)).value.key)
    ensures Rep(b0, At(t, Parent(p)).value) && ContainerEntry(b, At(t, Parent(p)).value)
  {
    var u := At(t, Parent(p)).value;
    AtKeys(t, Parent(p));
    AtRep(b0, t, Parent(p));
    ParentOutlives(u, Last(p));
  }

  /** Writing a fresh child's node and linking it leaves exactly the attached tree's entries. */
  lemma LinkedHolds(b0: Backend, b: Backend, b1: Backend, b2: Backend, g: Grown, p: Path, node: Node, c: Tree)
    requires CutAt(b0, b, g.tree, p) && Distinct(g.tree) && Fits(At(g.tree, Parent(p)).value, Last(p))
    requires Distinct(c) && Keys(c) !! Keys(g.tree) && AttachT(g, p, c).Some?
    requires Lone(node, c) && AllBlank(b, Keys(c))
    requires SameOff(b, b1, {c.key}) && b1.NodeOf(c.key) == Some(node) && NoLinks(b1, c.key)
    requires Attached(b1, b2, At(g.tree, Parent(p)).value.key, Last(p), c.key)
    ensures Holds(b2, Some(AttachT(g, p, c).value.tree))
  {
    hide Rep, Distinct, Backend.NodeOf, Backend.LinkOf;
    var u := At(g.tree, Parent(p)).value;
    AtKeys(g.tree, Parent(p));
    KeyIsOwn(u);
    KeyIsOwn(c);
    ParentEntry(b0, b, g.tree, p);
    FreshRep(b, b1, b2, u.key, node, c);
    OldKeysInside(u, Last(p));
    SameOffTrans(b0, b, b1, OldKeys(u, Last(p)), {c.key});
    assert SameAt(b0, b1, u.key);
    SameOffTrans(b0, b1, b2, OldKeys(u, Last(p)) + {c.key}, {u.key});
    ParentRep(b0, b1, b2, u, Last(p), c);
    SubstRep(b0, b2, g.tree, Parent(p), WithChild(u, Last(p), c).value);
    LinkedBlank(b0, b, b1, b2, g, p, c);
  }

  lemma FreshRep(b: Backend, b1: Backend, b2: Backend, parent: Skey, node: Node, c: Tree)
    requires Lone(node, c) && Distinct(c) && AllBlank(b, Keys(c)) && parent !in Keys(c)
    requires SameOff(b, b1, {c.key}) && b1.NodeOf(c.key) == Some(node) && NoLinks(b1, c.key)
    requires SameOff(b1, b2, {parent})
    ensures Rep(b2, c)
  {
    KeyIsOwn(c);
    BlankOff(b, b1, Keys(c), {c.key});
    BlankOff(b1, b2, Keys(c) - {c.key}, {parent});
    assert Keys(c) - {c.key} - {parent} == Keys(c) - {c.key};
    assert SameAt(b1, b2, c.key);
    LoneRep(b2, node, c);
  }

  lemma ParentRep(b0: Backend, b1: Backend, b2: Backend, u: Tree, last: Segment, c: Tree)
    requires Rep(b0, u) && Distinct(u) && Fits(u, last) && WithChild(u, last, c).Some?
    requires SameAt(b0, b1, u.key) && Attached(b1, b2, u.key, last, c.key) && Rep(b2, c)
    requires SameOff(b0, b2, OldKeys(u, last) + {c.key} + {u.key}) && c.key !in Keys(u)
    ensures Rep(b2, WithChild(u, last, c).value)
  {
    hide Keys, Distinct, Backend.NodeOf, Backend.LinkOf, FromBlob, WellFormed;
    if u.List? {
      assert KeysOf(WithChild(u, last, c).value.items) == Placed(KeysOf(u.items), last.index, c.key);
      WithElementRep(b0, b2, u, last.index, c);
    } else {
      WithFieldRep(b0, b2, u, last.name, c);
    }
  }

  lemma LinkedBlank(b0: Backend, b: Backend, b1: Backend, b2: Backend, g: Grown, p: Path, c: Tree)
    requires CutAt(b0, b, g.tree, p) && Distinct(g.tree)
    requires Distinct(c) && Keys(c) !! Keys(g.tree) && AttachT(g, p, c).Some?
    requires SameOff(b, b1, {c.key}) && SameOff(b1, b2, {At(g.tree, Parent(p)).value.key})
    ensures forall k | k !in Keys(AttachT(g, p, c).value.tree) :: Blank(b2, k)
  {
    var u := At(g.tree, Parent(p)).value;
    AtKeys(g.tree, Parent(p));
    KeyIsOwn(u);
    KeyIsOwn(c);
    AttachKeys(g, p, c);
    ParentOutlives(u, Last(p));
    forall k | k !in Keys(AttachT(g, p, c).value.tree) ensures Blank(b2, k) {
      assert SameAt(b, b1, k) && SameAt(b1, b2, k);
      assert k !in OldKeys(u, Last(p)) ==> Blank(b0, k) && SameAt(b0, b, k);
    }
  }

  lemma ParentOutlives(u: Tree, last: Segment)
    requires Distinct(u)
    ensures u.key !in OldKeys(u, last)
  {
    if Child(u, last).Some? { ChildKeys(u, last); }
  }

  /** Drops the old subtree at `last`, if any. */
  method ClearChild(b: Backend, parent: Skey, last: Segment, ghost t: Tree, ghost p: Path) returns (r: Backend)
    requires !b.Archived? && Holds(b, Some(t)) && Distinct(t)
    requires p != [] && Last(p) == last && At(t, Parent(p)).Some? && At(t, Parent(p)).value.key == parent
    ensures CutAt(b, r, t, p)
  {
    ghost var u := At(t, Parent(p)).value;
    AtKeys(t, Parent(p));
    AtRep(b, t, Parent(p));
    ChildKeyWalks(b, parent, Some(u), last);
    var old_ := ChildKey(b, parent, last);
    r := b;
    CutNothing(b);
    if old_.Some? {
      ChildKeys(u, last);
      r := CascadeDelete(b, old_.value, Child(u, last).value);
    }
  }

  /** Drops the old subtree at `last`, if any, then writes a new node and links it there. */
  method ReplaceAtLast(b: Backend, parent: Skey, last: Segment, key: Skey, node: Node,
                       ghost g: Grown, ghost p: Path, ghost c: Tree)
    returns (r: Result<Backend>)
    requires !b.Archived? && Holds(b, Some(g.tree)) && Sound(Some(g.tree), g.next) && key == g.next
    requires p != [] && Last(p) == last && At(g.tree, Parent(p)).Some?
    requires At(g.tree, Parent(p)).value.key == parent && Fits(At(g.tree, Parent(p)).value, last)
    requires FreshChild(g.tree, c, g.next) && Lone(node, c) && (b.Mem? ==> !node.NPacked?)
    ensures r.Ok? <==> AttachT(g, p, c).Some?
    ensures r.Ok? ==> HoldsGrown(b, r.value, AttachT(g, p, c))
  {
    var cleared := ClearChild(b, parent, last, g.tree, p);
    r := LinkFresh(cleared, parent, last, key, node, b, g, p, c);
    if r.Ok? {
      FreshSound(g, p, c);
    }
  }

  /** Unlinks `last` from `parent`: a link entry dropped, or a list closed up. */
  method DetachChild(b: Backend, parent: Skey, last: Segment) returns (r: Backend)
    requires !b.Archived?
    requires last.Name? ==> b.NodeOf(parent) == Some(NObject)
    requires last.Index? ==> b.NodeOf(parent).Some? && b.NodeOf(parent).value.NList? && NoLinks(b, parent)
    ensures Detached(b, r, parent, last)
  {
    match last
    case Name(name) =>
      DeleteLinkEffect(b, parent, name);
      r := b.DeleteLink(parent, name);
    case Index(index) =>
      var items := b.NodeOf(parent).value.items;
      if index < |items| {
        items := items[..index] + items[index + 1..];
      }
      PutNodeEffect(b, parent, NList(items));
      r := b.PutNode(parent, NList(items)).value;
  }

  function Removed(items: seq<Skey>, at: nat): seq<Skey> {
    if at < |items| then items[..at] + items[at + 1..] else items
  }

  ghost predicate Detached(b: Backend, c: Backend, parent: Skey, last: Segment) {
    && SameOff(b, c, {parent})
    && match last
       case Name(name) =>
         && c.NodeOf(parent) == Some(NObject)
         && forall n :: c.LinkOf(parent, n) == if n == name then None else b.LinkOf(parent, n)
       case Index(at) =>
         && b.NodeOf(parent).Some? && b.NodeOf(parent).value.NList?
         && c.NodeOf(parent) == Some(NList(Removed(b.NodeOf(parent).value.items, at)))
         && NoLinks(c, parent)
  }

  lemma DetachedHolds(b0: Backend, b: Backend, b2: Backend, t: Tree, p: Path)
    requires CutAt(b0, b, t, p) && Distinct(t) && Child(At(t, Parent(p)).value, Last(p)).Some?
    requires Detached(b, b2, At(t, Parent(p)).value.key, Last(p))
    ensures RemoveRelT(t, p).Some? && Holds(b2, Some(RemoveRelT(t, p).value))
  {
    hide Rep, Keys, Distinct;
    var u := At(t, Parent(p)).value;
    var u' := WithoutChild(u, Last(p));
    AtKeys(t, Parent(p));
    KeyIsOwn(u);
    ParentEntry(b0, b, t, p);
    OldKeysInside(u, Last(p));
    SameOffTrans(b0, b, b2, OldKeys(u, Last(p)), {u.key});
    DetachedRep(b0, b, b2, u, Last(p));
    SubstRep(b0, b2, t, Parent(p), u');
    AtSplit(t, Parent(p), [Last(p)]);
    assert p == Parent(p) + [Last(p)];
    ChildAt(u, Last(p));
    WithoutChildKeys(u, Last(p));
    WithoutChildDistinct(u, Last(p));
    SubstShape(t, Parent(p), u');
    DetachedBlank(b0, b, b2, t, p);
  }

  lemma DetachedRep(b0: Backend, b: Backend, b2: Backend, u: Tree, last: Segment)
    requires Rep(b0, u) && Distinct(u) && Child(u, last).Some?
    requires SameAt(b0, b, u.key) && Detached(b, b2, u.key, last)
    requires SameOff(b0, b2, OldKeys(u, last) + {u.key})
    ensures Rep(b2, WithoutChild(u, last))
  {
    hide Keys, Distinct, Backend.NodeOf, Backend.LinkOf, FromBlob, WellFormed;
    if u.List? {
      assert KeysOf(WithoutChild(u, last).items) == Removed(KeysOf(u.items), last.index);
      WithoutElementRep(b0, b2, u, last.index);
    } else {
      WithoutFieldRep(b0, b2, u, last.name);
    }
  }

  lemma DetachedBlank(b0: Backend, b: Backend, b2: Backend, t: Tree, p: Path)
    requires CutAt(b0, b, t, p) && Distinct(t)
    requires SameOff(b, b2, {At(t, Parent(p)).value.key})
    ensures forall k | k !in Keys(t) - OldKeys(At(t, Parent(p)).value, Last(p)) :: Blank(b2, k)
  {
    var u := At(t, Parent(p)).value;
    AtKeys(t, Parent(p));
    KeyIsOwn(u);
    ParentOutlives(u, Last(p));
    forall k | k !in Keys(t) - OldKeys(u, Last(p)) ensures Blank(b2, k) {
      assert SameAt(b, b2, k);
      assert k !in OldKeys(u, Last(p)) ==> Blank(b0, k) && SameAt(b0, b, k);
    }
  }

  // ----- the store --------------------------------------------------------------

  function NodeKind(node: Node): Kind {
    match node
    case NObject => KObject
    case NList(_) => KList
    case NLeaf(_) => KLeaf
    case NPacked(root, _) => root
  }

  function EmptyNode(list: bool): Node { if list then NList([]) else NObject }

  /** `root` is the table root, or the key of the existing node at `base`. */
  predicate Anchored(t: Option<Tree>, root: Skey, base: Path) {
    if base == [] then root == ROOT
    else AtDoc(t, base).Some? && AtDoc(t, base).value.key == root
  }

  lemma AnchorHolds(b: Backend, t: Option<Tree>, next: Skey, root: Skey, base: Path, rel: Path)
    requires Holds(b, t) && Sound(t, next) && Anchored(t, root, base)
    ensures HoldsAt(b, root, AtDoc(t, base))
    ensures ResolvedKey(root, AtDoc(t, base), rel) == if base + rel == [] then Some(ROOT) else KeyOf(AtDoc(t, base + rel))
  {
    match t
    case Some(u) =>
      AtSplit(u, base, rel);
      if At(u, base).Some? { AtRep(b, u, base); }
      if rel == [] && base != [] { assert base + rel == base; }
    case None => assert Blank(b, root);
  }

  lemma NodeKindIs(b: Backend, t: Tree)
    requires Rep(b, t)
    ensures b.NodeOf(t.key).Some? && NodeKind(b.NodeOf(t.key).value) == KindOf(t)
  {}

  lemma EmptyHolds(b: Backend, b1: Backend, list: bool)
    requires Holds(b, None) && SameOff(b, b1, {ROOT})
    requires b1.NodeOf(ROOT) == Some(EmptyNode(list)) && NoLinks(b1, ROOT)
    ensures Holds(b1, Some(EmptyContainer(ROOT, list)))
  {
    LoneRep(b1, EmptyNode(list), EmptyContainer(ROOT, list));
    forall k | k != ROOT ensures Blank(b1, k) {
      assert Blank(b, k) && SameAt(b, b1, k);
    }
  }

  lemma RootCleared(b: Backend, c: Backend, t: Option<Tree>)
    requires !b.Archived? && Holds(b, t) && (t.None? ==> c == b) && (t.Some? ==> Cut(b, c, Keys(t.value)))
    ensures Holds(c, None) && SameMode(b, c)
  {
    forall k ensures Blank(c, k) {
      if t.None? || k !in Keys(t.value) {
        assert Blank(b, k);
        if t.Some? { assert SameAt(b, c, k); }
      }
    }
  }

  lemma RootLeafHolds(b: Backend, b1: Backend, s: Scalar)
    requires Holds(b, None) && SameOff(b, b1, {ROOT})
    requires b1.NodeOf(ROOT) == Some(NLeaf(s)) && NoLinks(b1, ROOT)
    ensures Holds(b1, Some(Leaf(ROOT, s)))
  {
    LoneRep(b1, NLeaf(s), Leaf(ROOT, s));
    forall k | k != ROOT ensures Blank(b1, k) {
      assert Blank(b, k) && SameAt(b, b1, k);
    }
  }

  /** What is removed sits under a parent that can hold it. */
  lemma RemovalPoint(b: Backend, t: Tree, p: Path)
    requires Holds(b, Some(t)) && Distinct(t) && p != [] && At(t, p).Some?
    ensures At(t, Parent(p)).Some? && Child(At(t, Parent(p)).value, Last(p)) == At(t, p)
    ensures Fits(At(t, Parent(p)).value, Last(p))
    ensures Rep(b, At(t, p).value) && Distinct(At(t, p).value)
    ensures OldKeys(At(t, Parent(p)).value, Last(p)) == Keys(At(t, p).value)
  {
    assert p == Parent(p) + [Last(p)];
    AtSplit(t, Parent(p), [Last(p)]);
    ChildAt(At(t, Parent(p)).value, Last(p));
    AtRep(b, t, p);
    AtKeys(t, p);
  }

  lemma WalkToParent(b: Backend, c: Backend, t: Tree, p: Path)
    requires Holds(b, Some(t)) && Distinct(t) && t.key == ROOT && p != [] && At(t, p).Some?
    requires Cut(b, c, Keys(At(t, p).value))
    ensures At(t, Parent(p)).Some? && WalkKey(c, ROOT, Parent(p)) == Some(At(t, Parent(p)).value.key)
  {
    RemovalPoint(b, t, p);
    var u := At(t, Parent(p)).value;
    AtKeys(t, Parent(p));
    ChildKeys(u, Last(p));
    WalkAbove(b, c, t, Parent(p), Keys(At(t, p).value));
  }

  lemma RemoveSound(t: Tree, p: Path, next: Skey)
    requires Sound(Some(t), next) && p != [] && RemoveRelT(t, p).Some?
    ensures Sound(RemoveRelT(t, p), next)
  {
    assert p == Parent(p) + [Last(p)];
    AtSplit(t, Parent(p), [Last(p)]);
    var u := At(t, Parent(p)).value;
    ChildAt(u, Last(p));
    AtKeys(t, Parent(p));
    WithoutChildKeys(u, Last(p));
    WithoutChildDistinct(u, Last(p));
    SubstShape(t, Parent(p), WithoutChild(u, Last(p)));
  }

  /** The tree a store holds once `r` has been applied. */
  ghost predicate HoldsGrown(was: Backend, b: Backend, r: Option<Grown>) {
    r.Some? && SameMode(was, b) && Holds(b, Some(r.value.tree)) && Sound(Some(r.value.tree), r.value.next)
  }

  /** Creates an empty container under the parent just ensured. */
  method LinkContainer(b: Backend, parent: Skey, last: Segment, key: Skey, list: bool,
                       ghost t: Option<Tree>, ghost next: Skey, ghost full: Path, ghost g: Grown)
    returns (r: Result<Backend>)
    requires !b.Archived? && Holds(b, Some(g.tree)) && Sound(Some(g.tree), g.next) && key == g.next
    requires full != [] && last == Last(full) && OpenDoc(t, full) && AtDoc(t, full).None?
    requires EnsureT(t, Parent(full), Last(full).Index?, next) == Some(g)
    requires At(g.tree, Parent(full)).value.key == parent
    ensures r.Ok? <==> AttachT(g, full, EmptyContainer(key, list)).Some?
    ensures r.Ok? ==> HoldsGrown(b, r.value, AttachT(g, full, EmptyContainer(key, list)))
  {
    ContainerReady(b, t, next, full, g, list);
    r := LinkFresh(b, parent, last, key, EmptyNode(list), b, g, full, EmptyContainer(key, list));
    if r.Ok? {
      FreshSound(g, full, EmptyContainer(key, list));
    }
  }

  lemma ContainerReady(b: Backend, t: Option<Tree>, next: Skey, full: Path, g: Grown, list: bool)
    requires !b.Archived? && Holds(b, Some(g.tree)) && Sound(Some(g.tree), g.next)
    requires full != [] && OpenDoc(t, full) && AtDoc(t, full).None?
    requires EnsureT(t, Parent(full), Last(full).Index?, next) == Some(g)
    ensures CutAt(b, b, g.tree, full) && Fits(At(g.tree, Parent(full)).value, Last(full))
    ensures FreshChild(g.tree, EmptyContainer(g.next, list), g.next)
    ensures Lone(EmptyNode(list), EmptyContainer(g.next, list))
  {
    EnsureMissing(t, full, next);
    EnsuredFits(t, full, next);
    CutNothing(b);
  }

  lemma CutNothing(b: Backend)
    requires !b.Archived?
    ensures Cut(b, b, {})
  {}

  lemma FreshSound(g: Grown, p: Path, c: Tree)
    requires Sound(Some(g.tree), g.next) && p != [] && At(g.tree, Parent(p)).Some?
    requires FreshChild(g.tree, c, g.next) && AttachT(g, p, c).Some?
    ensures Sound(Some(AttachT(g, p, c).value.tree), g.next + 1)
  {
    AttachSound(g, p, c);
  }

  lemma OpenParent(t: Option<Tree>, p: Path)
    requires OpenDoc(t, p) && p != []
    ensures OpenDoc(t, Parent(p))
  {
    assert p == Parent(p) + [Last(p)];
    if t.Some? { OpenSplit(t.value, Parent(p), [Last(p)]); }
  }
}
