/** Node storage: the engine table, the in-memory table behind a packed entity,
    and the archived form it is read from, behind one set of operations.

    `Rep` says which keyed tree a backend holds. Everything the tree operations
    ask of a backend goes through `NodeOf`, `LinkOf` and the ordered scan, so two
    backends that hold the same tree answer alike. */
module Backends {
  import opened Basics
  import opened Bytes
  import opened Scalars
  import opened Skeys
  import opened Paths
  import opened Trees
  import opened Blobs

  datatype Node =
    | NObject
    | NList(items: seq<Skey>)
    | NLeaf(scalar: Scalar)
    | NPacked(root: Kind, blob: Blob)

  datatype Backend =
    | Engine(nodes: map<Skey, Node>, links: map<(Skey, string), Skey>)
    | Mem(cells: MemNodes)
    | Archived(blob: Blob)
  {
    function NodeOf(k: Skey): Option<Node> {
      match this
      case Engine(nodes, _) => if k in nodes then Some(nodes[k]) else None
      case Mem(cells) => if k in cells then Some(EngineNode(cells[k])) else None
      case Archived(blob) => ArchivedNode(blob, k)
    }

    function LinkOf(k: Skey, n: string): Option<Skey> {
      match this
      case Engine(_, links) => if (k, n) in links then Some(links[(k, n)]) else None
      case Mem(cells) =>
        if k in cells && cells[k].MObject? && n in cells[k].children then Some(cells[k].children[n]) else None
      case Archived(blob) => ArchivedLink(blob, k, n)
    }

    /** Writes a node. An object marker over an object keeps its inline children. */
    function PutNode(k: Skey, node: Node): Result<Backend>
      requires !Archived?
    {
      match this
      case Engine(nodes, links) => Ok(Engine(nodes[k := node], links))
      case Mem(cells) =>
        if node.NPacked? then Err(Corrupt)
        else if k in cells && cells[k].MObject? && node.NObject? then Ok(this)
        else Ok(Mem(cells[k := CellOf(node)]))
    }

    /** Writes a child link. In memory the parent is made an object when absent. */
    function PutLink(k: Skey, n: string, child: Skey): Result<Backend>
      requires !Archived?
    {
      match this
      case Engine(nodes, links) => Ok(Engine(nodes, links[(k, n) := child]))
      case Mem(cells) =>
        var cell := if k in cells then cells[k] else MObject(map[]);
        if cell.MObject? then Ok(Mem(cells[k := MObject(cell.children[n := child])])) else Err(Corrupt)
    }

    /** Deletes a node. In memory an object's links go with it. */
    function DeleteNode(k: Skey): Backend
      requires !Archived?
    {
      match this
      case Engine(nodes, links) => Engine(nodes - {k}, links)
      case Mem(cells) => Mem(cells - {k})
    }

    function DeleteLink(k: Skey, n: string): Backend
      requires !Archived?
    {
      match this
      case Engine(nodes, links) => Engine(nodes, links - {(k, n)})
      case Mem(cells) =>
        if k in cells && cells[k].MObject? then Mem(cells[k := MObject(cells[k].children - {n})]) else this
    }
  }

  /** The engine node an in-memory node presents. */
  function EngineNode(cell: MemNode): Node {
    match cell
    case MObject(_) => NObject
    case MList(items) => NList(items)
    case MLeaf(s) => NLeaf(s)
  }

  function CellOf(node: Node): MemNode
    requires !node.NPacked?
  {
    match node
    case NObject => MObject(map[])
    case NList(items) => MList(items)
    case NLeaf(s) => MLeaf(s)
  }

  function ArchivedNode(b: Blob, k: Skey): Option<Node> {
    match Lookup(b, k)
    case None => None
    case Some(arch) =>
      match ViewOf(arch, b.bytes)
      case Some(cell) => Some(EngineNode(cell))
      case None => None
  }

  function ArchivedLink(b: Blob, k: Skey, n: string): Option<Skey> {
    match Lookup(b, k)
    case Some(AObject(pairs)) =>
      (match FindName(pairs, n, 0, |pairs|) case Some(at) => Some(pairs[at].1) case None => None)
    case _ => None
  }

  // ----- agreement ------------------------------------------------------------

  ghost predicate SameAt(b: Backend, c: Backend, k: Skey) {
    b.NodeOf(k) == c.NodeOf(k) && forall n :: b.LinkOf(k, n) == c.LinkOf(k, n)
  }

  ghost predicate AgreeOn(b: Backend, c: Backend, ks: set<Skey>) {
    forall k | k in ks :: SameAt(b, c, k)
  }

  /** Nothing is stored under `k`. */
  ghost predicate Blank(b: Backend, k: Skey) {
    b.NodeOf(k) == None && forall n :: b.LinkOf(k, n) == None
  }

  ghost predicate NoLinks(b: Backend, k: Skey) {
    forall n :: b.LinkOf(k, n) == None
  }

  /** Reading a blob in place and decoding it first give the same table. */
  lemma ArchiveAgrees(blob: Blob, k: Skey)
    requires WellFormed(blob) && FromBlob(blob).Ok?
    ensures SameAt(Archived(blob), Mem(FromBlob(blob).value), k)
  {
    LookupAgrees(blob, k);
    if Lookup(blob, k).Some? && Lookup(blob, k).value.AObject? {
      forall n ensures Archived(blob).LinkOf(k, n) == Mem(FromBlob(blob).value).LinkOf(k, n) {
        FindNameAgrees(Lookup(blob, k).value.pairs, n);
      }
    }
  }

  // ----- what a backend holds -------------------------------------------------

  function KeysOf(ts: seq<Tree>): (r: seq<Skey>)
    ensures |r| == |ts|
    ensures forall i | 0 <= i < |ts| :: r[i] == ts[i].key
  {
    seq(|ts|, i requires 0 <= i < |ts| => ts[i].key)
  }

  function FieldKey(fields: map<string, Tree>, n: string): Option<Skey> {
    if n in fields then Some(fields[n].key) else None
  }

  /** The entries under the tree's keys are the tree's, and nothing is stored
      under the keys its blobs use. */
  ghost predicate Rep(b: Backend, t: Tree)
    decreases t
  {
    match t
    case Leaf(k, s) => b.NodeOf(k) == Some(NLeaf(s)) && NoLinks(b, k)
    case List(k, items) =>
      && b.NodeOf(k) == Some(NList(KeysOf(items)))
      && NoLinks(b, k)
      && forall i | 0 <= i < |items| :: Rep(b, items[i])
    case Object(k, fields) =>
      && b.NodeOf(k) == Some(NObject)
      && (forall n :: b.LinkOf(k, n) == FieldKey(fields, n))
      && forall n | n in fields :: Rep(b, fields[n])
    case Packed(k, inner) =>
      && b.NodeOf(k).Some? && b.NodeOf(k).value.NPacked? && b.NodeOf(k).value.root == KindOf(inner)
      && NoLinks(b, k)
      && WellFormed(b.NodeOf(k).value.blob) && FromBlob(b.NodeOf(k).value.blob).Ok?
      && Rep(Mem(FromBlob(b.NodeOf(k).value.blob).value), inner)
      && (forall x | x !in Keys(inner) :: Blank(Mem(FromBlob(b.NodeOf(k).value.blob).value), x))
      && (forall x | x in Keys(inner) - {ROOT} :: Blank(b, x))
  }

  /** The store's entries are exactly those of `t`. */
  ghost predicate Holds(b: Backend, t: Option<Tree>) {
    match t
    case None => forall k :: Blank(b, k)
    case Some(u) => Rep(b, u) && forall k | k !in Keys(u) :: Blank(b, k)
  }

  ghost predicate HoldsBlob(blob: Blob, inner: Tree) {
    WellFormed(blob) && FromBlob(blob).Ok? && Holds(Mem(FromBlob(blob).value), Some(inner))
  }

  lemma {:induction false} RepFrame(b: Backend, c: Backend, t: Tree)
    requires Rep(b, t) && AgreeOn(b, c, Keys(t))
    ensures Rep(c, t)
  {
    match t
    case Leaf(_, _) =>
    case List(_, items) =>
      forall i | 0 <= i < |items| ensures Rep(c, items[i]) {
        assert Keys(items[i]) <= Keys(t);
        RepFrame(b, c, items[i]);
      }
    case Object(_, fields) =>
      forall n | n in fields ensures Rep(c, fields[n]) {
        assert Keys(fields[n]) <= Keys(t);
        RepFrame(b, c, fields[n]);
      }
    case Packed(_, inner) =>
      forall x | x in Keys(inner) - {ROOT} ensures Blank(c, x) {
        assert SameAt(b, c, x);
      }
  }

  lemma ChildRep(b: Backend, t: Tree, seg: Segment)
    requires Rep(b, t) && Child(t, seg).Some?
    ensures Rep(b, Child(t, seg).value)
  {}

  lemma {:induction false} AtRep(b: Backend, t: Tree, p: Path)
    requires Rep(b, t) && At(t, p).Some?
    ensures Rep(b, At(t, p).value)
    decreases p
  {
    if p != [] {
      AtRep(b, Child(t, p[0]).value, p[1..]);
    }
  }

  /** The in-memory table never holds a packed entity. */
  lemma {:induction false} MemPackedFree(cells: MemNodes, t: Tree)
    requires Rep(Mem(cells), t)
    ensures PackedFree(t)
  {
    match t
    case List(_, items) => forall i | 0 <= i < |items| { MemPackedFree(cells, items[i]); }
    case Object(_, fields) => forall n | n in fields { MemPackedFree(cells, fields[n]); }
    case _ =>
  }

  /** Two backends that hold the same packed-free tree answer every read alike. */
  lemma {:induction false} SameReads(b: Backend, c: Backend, t: Tree, k: Skey)
    requires Rep(b, t) && Rep(c, t) && PackedFree(t) && k in Keys(t)
    ensures SameAt(b, c, k)
  {
    match t
    case List(_, items) =>
      if k != t.key {
        var i :| 0 <= i < |items| && k in Keys(items[i]);
        SameReads(b, c, items[i], k);
      }
    case Object(_, fields) =>
      if k != t.key {
        var n :| n in fields && k in Keys(fields[n]);
        SameReads(b, c, fields[n], k);
      }
    case _ =>
  }

  /** A backend holds at most one tree under a root key, up to the blobs' own contents. */
  lemma HoldsSameReads(b: Backend, c: Backend, t: Option<Tree>, k: Skey)
    requires Holds(b, t) && Holds(c, t) && (t.Some? ==> PackedFree(t.value))
    ensures SameAt(b, c, k)
  {
    if t.Some? && k in Keys(t.value) {
      SameReads(b, c, t.value, k);
    } else {
      assert Blank(b, k) && Blank(c, k);
    }
  }

  // ----- effects of the writes ------------------------------------------------

  lemma PutNodeEffect(b: Backend, k: Skey, node: Node)
    requires !b.Archived? && (b.Mem? ==> !node.NPacked?)
    requires node.NObject? || NoLinks(b, k)
    ensures b.PutNode(k, node).Ok? && (b.PutNode(k, node).value.Mem? <==> b.Mem?) && !b.PutNode(k, node).value.Archived?
    ensures b.PutNode(k, node).value.NodeOf(k) == Some(node)
    ensures forall n :: b.PutNode(k, node).value.LinkOf(k, n) == b.LinkOf(k, n)
    ensures forall x | x != k :: SameAt(b, b.PutNode(k, node).value, x)
  {}

  lemma PutLinkEffect(b: Backend, k: Skey, n: string, child: Skey)
    requires !b.Archived? && b.NodeOf(k) == Some(NObject)
    ensures b.PutLink(k, n, child).Ok? && (b.PutLink(k, n, child).value.Mem? <==> b.Mem?) && !b.PutLink(k, n, child).value.Archived?
    ensures b.PutLink(k, n, child).value.NodeOf(k) == Some(NObject)
    ensures forall m :: b.PutLink(k, n, child).value.LinkOf(k, m) == if m == n then Some(child) else b.LinkOf(k, m)
    ensures forall x | x != k :: SameAt(b, b.PutLink(k, n, child).value, x)
  {}

  lemma DeleteNodeEffect(b: Backend, k: Skey)
    requires !b.Archived? && NoLinks(b, k)
    ensures (b.DeleteNode(k).Mem? <==> b.Mem?) && !b.DeleteNode(k).Archived?
    ensures Blank(b.DeleteNode(k), k)
    ensures forall x | x != k :: SameAt(b, b.DeleteNode(k), x)
  {
    forall n ensures b.DeleteNode(k).LinkOf(k, n) == None {
      assert b.LinkOf(k, n) == None;
    }
  }

  lemma DeleteLinkEffect(b: Backend, k: Skey, n: string)
    requires !b.Archived?
    ensures (b.DeleteLink(k, n).Mem? <==> b.Mem?) && !b.DeleteLink(k, n).Archived?
    ensures b.DeleteLink(k, n).NodeOf(k) == b.NodeOf(k)
    ensures forall m :: b.DeleteLink(k, n).LinkOf(k, m) == if m == n then None else b.LinkOf(k, m)
    ensures forall x | x != k :: SameAt(b, b.DeleteLink(k, n), x)
  {}

  // ----- edits of the tree a backend holds ------------------------------------

  /** The root entry with `child` attached, and every other child as before, represents `WithChild`. */
  lemma WithElementRep(b: Backend, c: Backend, t: Tree, at: nat, child: Tree)
    requires t.List? && at <= |t.items| && Rep(b, t) && Distinct(t)
    requires Rep(c, child) && AgreeOn(b, c, Keys(t) - {t.key} - OldKeys(t, Index(at)))
    requires NoLinks(c, t.key) && c.NodeOf(t.key) == Some(NList(KeysOf(WithChild(t, Index(at), child).value.items)))
    ensures Rep(c, WithChild(t, Index(at), child).value)
  {
    hide Keys, Distinct, Backend.NodeOf, Backend.LinkOf, FromBlob, WellFormed;
    var t' := WithChild(t, Index(at), child).value;
    forall i | 0 <= i < |t'.items| ensures Rep(c, t'.items[i]) {
      if i != at {
        SiblingKeys(t, Index(at), Index(i));
        RepFrame(b, c, t.items[i]);
      }
    }
  }

  lemma WithFieldRep(b: Backend, c: Backend, t: Tree, name: string, child: Tree)
    requires t.Object? && Rep(b, t) && Distinct(t)
    requires Rep(c, child) && AgreeOn(b, c, Keys(t) - {t.key} - OldKeys(t, Name(name)))
    requires c.NodeOf(t.key) == Some(NObject)
    requires forall n :: c.LinkOf(t.key, n) == if n == name then Some(child.key) else b.LinkOf(t.key, n)
    ensures Rep(c, WithChild(t, Name(name), child).value)
  {
    hide Keys, Distinct, Backend.NodeOf, Backend.LinkOf, FromBlob, WellFormed;
    var t' := WithChild(t, Name(name), child).value;
    forall n | n in t'.fields ensures Rep(c, t'.fields[n]) {
      if n != name {
        SiblingKeys(t, Name(name), Name(n));
        RepFrame(b, c, t.fields[n]);
      }
    }
  }

  lemma WithoutElementRep(b: Backend, c: Backend, t: Tree, at: nat)
    requires t.List? && at < |t.items| && Rep(b, t) && Distinct(t)
    requires AgreeOn(b, c, Keys(t) - {t.key} - Keys(t.items[at]))
    requires NoLinks(c, t.key) && c.NodeOf(t.key) == Some(NList(KeysOf(WithoutChild(t, Index(at)).items)))
    ensures Rep(c, WithoutChild(t, Index(at)))
  {
    hide Keys, Distinct, Backend.NodeOf, Backend.LinkOf, FromBlob, WellFormed;
    var t' := WithoutChild(t, Index(at));
    forall i | 0 <= i < |t'.items| ensures Rep(c, t'.items[i]) {
      var j := if i < at then i else i + 1;
      SiblingKeys(t, Index(at), Index(j));
      assert t'.items[i] == t.items[j];
      RepFrame(b, c, t.items[j]);
    }
  }

  lemma WithoutFieldRep(b: Backend, c: Backend, t: Tree, name: string)
    requires t.Object? && name in t.fields && Rep(b, t) && Distinct(t)
    requires AgreeOn(b, c, Keys(t) - {t.key} - Keys(t.fields[name]))
    requires c.NodeOf(t.key) == Some(NObject)
    requires forall n :: c.LinkOf(t.key, n) == if n == name then None else b.LinkOf(t.key, n)
    ensures Rep(c, WithoutChild(t, Name(name)))
  {
    hide Keys, Distinct, Backend.NodeOf, Backend.LinkOf, FromBlob, WellFormed;
    var t' := WithoutChild(t, Name(name));
    forall n | n in t'.fields ensures Rep(c, t'.fields[n]) {
      SiblingKeys(t, Name(name), Name(n));
      RepFrame(b, c, t.fields[n]);
    }
  }

  /** A child replaced under its own key leaves the parent's entry as it was. */
  lemma ReplaceChildRep(b: Backend, c: Backend, t: Tree, seg: Segment, child: Tree)
    requires Rep(b, t) && Distinct(t) && Child(t, seg).Some?
    requires child.key == Child(t, seg).value.key && Rep(c, child)
    requires AgreeOn(b, c, Keys(t) - Keys(Child(t, seg).value))
    ensures Rep(c, WithChild(t, seg, child).value)
  {
    ChildKeys(t, seg);
    assert SameAt(b, c, t.key);
    if t.List? {
      ReplaceElementRep(b, c, t, seg.index, child);
    } else {
      ReplaceFieldRep(b, c, t, seg.name, child);
    }
  }

  lemma ReplaceElementRep(b: Backend, c: Backend, t: Tree, at: nat, child: Tree)
    requires t.List? && at < |t.items| && Rep(b, t) && Distinct(t)
    requires child.key == t.items[at].key && Rep(c, child)
    requires SameAt(b, c, t.key) && AgreeOn(b, c, Keys(t) - Keys(t.items[at]))
    ensures Rep(c, List(t.key, t.items[at := child]))
  {
    var items := t.items[at := child];
    assert KeysOf(items) == KeysOf(t.items);
    forall i | 0 <= i < |items| ensures Rep(c, items[i]) {
      if i != at {
        SiblingKeys(t, Index(at), Index(i));
        RepFrame(b, c, t.items[i]);
      }
    }
  }

  lemma ReplaceFieldRep(b: Backend, c: Backend, t: Tree, name: string, child: Tree)
    requires t.Object? && name in t.fields && Rep(b, t) && Distinct(t)
    requires child.key == t.fields[name].key && Rep(c, child)
    requires SameAt(b, c, t.key) && AgreeOn(b, c, Keys(t) - Keys(t.fields[name]))
    ensures Rep(c, Object(t.key, t.fields[name := child]))
  {
    var fields := t.fields[name := child];
    forall n ensures c.LinkOf(t.key, n) == FieldKey(fields, n) {}
    forall n | n in fields ensures Rep(c, fields[n]) {
      if n != name {
        SiblingKeys(t, Name(name), Name(n));
        RepFrame(b, c, t.fields[n]);
      }
    }
  }

  /** A change confined to the subtree at `p`, whose root key stays, shows in the whole tree as `Subst`. */
  lemma {:induction false} SubstRep(b: Backend, c: Backend, t: Tree, p: Path, u: Tree)
    requires Rep(b, t) && Distinct(t) && At(t, p).Some?
    requires u.key == At(t, p).value.key && Rep(c, u)
    requires AgreeOn(b, c, Keys(t) - Keys(At(t, p).value))
    ensures Rep(c, Subst(t, p, u))
    decreases p
  {
    if p != [] {
      var child := Child(t, p[0]).value;
      ChildKeys(t, p[0]);
      ChildRep(b, t, p[0]);
      AtKeys(child, p[1..]);
      SubstRep(b, c, child, p[1..], u);
      ReplaceChildRep(b, c, t, p[0], Subst(child, p[1..], u));
    }
  }
}
