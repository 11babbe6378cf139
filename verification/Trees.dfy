/** Keyed document trees: what a node store holds, seen as one value.

    A store is well formed when its entries are exactly the entries of one such
    tree (see Backends). Every tree operation of the engine has its counterpart
    here, in the same steps, and is related to the plain document it denotes. */
module Trees {
  import opened Basics
  import opened Paths
  import opened Scalars
  import opened ScalarCodec
  import opened Skeys
  import opened Values

  datatype Kind = KObject | KList | KLeaf

  /** `Packed` is an entity kept in one engine value: `inner` is the tree in its
      blob, rooted at `ROOT` there. */
  datatype Tree =
    | Leaf(key: Skey, scalar: Scalar)
    | List(key: Skey, items: seq<Tree>)
    | Object(key: Skey, fields: map<string, Tree>)
    | Packed(key: Skey, inner: Tree)

  function KindOf(t: Tree): Kind {
    match t
    case Leaf(_, _) => KLeaf
    case List(_, _) => KList
    case Object(_, _) => KObject
    case Packed(_, inner) => KindOf(inner)
  }

  function ContainerKind(list: bool): Kind { if list then KList else KObject }

  function EmptyContainer(k: Skey, list: bool): Tree {
    if list then List(k, []) else Object(k, map[])
  }

  function Denote(t: Tree): Value {
    match t
    case Leaf(_, s) => VLeaf(s)
    case List(_, items) => VList(seq(|items|, i requires 0 <= i < |items| => Denote(items[i])))
    case Object(_, fields) => VNode(map n | n in fields :: Denote(fields[n]))
    case Packed(_, inner) => Denote(inner)
  }

  function DocumentOf(t: Option<Tree>): Document {
    match t case Some(u) => Some(Denote(u)) case None => None
  }

  /** Every key a tree uses, inside blobs too. */
  function Keys(t: Tree): set<Skey> {
    match t
    case Leaf(k, _) => {k}
    case List(k, items) => {k} + set i, x | 0 <= i < |items| && x in Keys(items[i]) :: x
    case Object(k, fields) => {k} + set n, x | n in fields && x in Keys(fields[n]) :: x
    case Packed(k, inner) => {k} + (Keys(inner) - {ROOT})
  }

  predicate PackedFree(t: Tree) {
    match t
    case Leaf(_, _) => true
    case List(_, items) => forall i | 0 <= i < |items| :: PackedFree(items[i])
    case Object(_, fields) => forall n | n in fields :: PackedFree(fields[n])
    case Packed(_, _) => false
  }

  /** No key occurs twice, and a blob holds no packed entity. */
  predicate Distinct(t: Tree) {
    match t
    case Leaf(_, _) => true
    case List(k, items) =>
      && (forall i | 0 <= i < |items| :: Distinct(items[i]) && k !in Keys(items[i]))
      && (forall i, j | 0 <= i < j < |items| :: Keys(items[i]) !! Keys(items[j]))
    case Object(k, fields) =>
      && (forall n | n in fields :: Distinct(fields[n]) && k !in Keys(fields[n]))
      && (forall m, n | m in fields && n in fields && m != n :: Keys(fields[m]) !! Keys(fields[n]))
    case Packed(k, inner) =>
      Distinct(inner) && PackedFree(inner) && inner.key == ROOT && k !in Keys(inner) - {ROOT}
  }

  /** A whole table: rooted at `ROOT`, keys distinct and already issued. */
  predicate Sound(t: Option<Tree>, next: Skey) {
    && next > ROOT
    && (t.Some? ==>
          && t.value.key == ROOT
          && Distinct(t.value)
          && forall k | k in Keys(t.value) :: k < next)
  }

  // ----- navigation -----------------------------------------------------------

  function Child(t: Tree, seg: Segment): (r: Option<Tree>)
    ensures r.Some? ==> r.value < t
  {
    match (t, seg)
    case (Object(_, fields), Name(n)) => if n in fields then Some(fields[n]) else None
    case (List(_, items), Index(i)) => if i < |items| then Some(items[i]) else None
    case _ => None
  }

  function At(t: Tree, p: Path): Option<Tree>
    decreases p
  {
    if p == [] then Some(t)
    else match Child(t, p[0]) case Some(c) => At(c, p[1..]) case None => None
  }

  function AtDoc(t: Option<Tree>, p: Path): Option<Tree> {
    match t case Some(u) => At(u, p) case None => None
  }

  /** `t` with `c` attached at `seg`: replaced, or appended just past a list's end. */
  function WithChild(t: Tree, seg: Segment, c: Tree): (r: Option<Tree>)
    ensures r.Some? ==> Child(r.value, seg) == Some(c) && r.value.key == t.key
    ensures Child(t, seg).Some? ==> r.Some?
  {
    match (t, seg)
    case (Object(k, fields), Name(n)) => Some(Object(k, fields[n := c]))
    case (List(k, items), Index(i)) =>
      if i < |items| then Some(List(k, items[i := c]))
      else if i == |items| then Some(List(k, items + [c]))
      else None
    case _ => None
  }

  /** `t` with the child at `seg` detached; later list elements shift left. */
  function WithoutChild(t: Tree, seg: Segment): Tree {
    match (t, seg)
    case (Object(k, fields), Name(n)) => Object(k, fields - {n})
    case (List(k, items), Index(i)) => if i < |items| then List(k, items[..i] + items[i + 1..]) else t
    case _ => t
  }

  function Subst(t: Tree, p: Path, u: Tree): (r: Tree)
    requires At(t, p).Some?
    ensures At(r, p) == Some(u)
    ensures u.key == At(t, p).value.key ==> r.key == t.key
    decreases p
  {
    if p == [] then u
    else WithChild(t, p[0], Subst(Child(t, p[0]).value, p[1..], u)).value
  }

  /** No packed entity sits strictly above the end of `p`. */
  predicate Open(t: Tree, p: Path)
    decreases p
  {
    p == [] || (!t.Packed? && (Child(t, p[0]).Some? ==> Open(Child(t, p[0]).value, p[1..])))
  }

  predicate OpenDoc(t: Option<Tree>, p: Path) { t.Some? ==> Open(t.value, p) }

  /** Where a path lands: on a plain node, or at `rel` inside the entity at `at`. */
  datatype Located =
    | Missing
    | Plain(node: Tree)
    | Inside(entity: Tree, at: Path, rel: Path)

  function Locate(t: Tree, p: Path): (r: Located)
    ensures r.Inside? ==> r.entity.Packed? && At(t, r.at) == Some(r.entity) && p == r.at + r.rel
    ensures r.Plain? ==> !r.node.Packed? && At(t, p) == Some(r.node)
    ensures r.Missing? ==> At(t, p) == None
    ensures r.Inside? && r.rel != [] ==> At(t, p) == None
    ensures r.Inside? && r.rel == [] ==> At(t, p) == Some(r.entity)
    ensures Open(t, p) <==> !r.Inside? || r.rel == []
    decreases p
  {
    if t.Packed? then Inside(t, [], p)
    else if p == [] then Plain(t)
    else match Child(t, p[0])
         case None => Missing
         case Some(c) =>
           match Locate(c, p[1..])
           case Inside(e, at, rel) =>
             assert p == ([p[0]] + at) + rel && ([p[0]] + at)[1..] == at;
             Inside(e, [p[0]] + at, rel)
           case other => other
  }

  function LocateDoc(t: Option<Tree>, p: Path): Located {
    match t case Some(u) => Locate(u, p) case None => Missing
  }

  // ----- the engine's writes --------------------------------------------------

  /** A changed tree, its supply of fresh keys advanced to `next`. */
  datatype Grown = Grown(tree: Tree, next: Skey)

  /** Ensures a container at `rel`, creating missing ancestors from the top down. */
  function EnsureT(t: Option<Tree>, rel: Path, list: bool, next: Skey): (r: Option<Grown>)
    ensures r.Some? ==> At(r.value.tree, rel).Some? && KindOf(At(r.value.tree, rel).value) == ContainerKind(list)
    decreases |rel|
  {
    match AtDoc(t, rel)
    case Some(u) =>
      if KindOf(u) == ContainerKind(list) then Some(Grown(t.value, next)) else None
    case None =>
      if rel == [] then Some(Grown(EmptyContainer(ROOT, list), next))
      else
        match EnsureT(t, Parent(rel), Last(rel).Index?, next)
        case None => None
        case Some(g) => AttachT(g, rel, EmptyContainer(g.next, list))
  }

  /** Links `child`, which carries the next fresh key, at `p` under its existing parent. */
  function AttachT(g: Grown, p: Path, child: Tree): (r: Option<Grown>)
    requires p != [] && At(g.tree, Parent(p)).Some?
    ensures r.Some? ==> At(r.value.tree, p) == Some(child) && r.value.next == g.next + 1
  {
    match WithChild(At(g.tree, Parent(p)).value, Last(p), child)
    case None => None
    case Some(parent) =>
      AtSplit(Subst(g.tree, Parent(p), parent), Parent(p), [Last(p)]);
      assert p == Parent(p) + [Last(p)];
      Some(Grown(Subst(g.tree, Parent(p), parent), g.next + 1))
  }

  lemma {:induction false} AtSplit(t: Tree, p: Path, q: Path)
    ensures At(t, p + q) == match At(t, p) case Some(u) => At(u, q) case None => None
    decreases p
  {
    if p == [] {
      assert p + q == q;
    } else {
      assert (p + q)[1..] == p[1..] + q;
      if Child(t, p[0]).Some? {
        AtSplit(Child(t, p[0]).value, p[1..], q);
      }
    }
  }

  /** Stores a scalar at `rel` of a store whose path there is open. */
  function PutRelT(t: Option<Tree>, rel: Path, s: Scalar, next: Skey): Option<Grown> {
    if rel == [] then Some(Grown(Leaf(if t.Some? then t.value.key else ROOT, s), next))
    else
      match EnsureT(t, Parent(rel), Last(rel).Index?, next)
      case None => None
      case Some(g) => AttachT(g, rel, Leaf(g.next, s))
  }

  /** Stores a scalar inside a packed entity. A leaf whose encoding keeps its length
      is overwritten where it lies and keeps its key; anything else is the general write. */
  function PutInsideT(inner: Tree, rel: Path, s: Scalar, next: Skey): Option<Grown> {
    match At(inner, rel)
    case Some(Leaf(k, was)) =>
      if |Encode(was)| == |Encode(s)| then Some(Grown(Subst(inner, rel, Leaf(k, s)), next))
      else PutRelT(Some(inner), rel, s, next)
    case _ => PutRelT(Some(inner), rel, s, next)
  }

  /** Stores a scalar at any path, editing the blob when the path ends in one. */
  function PutT(t: Option<Tree>, p: Path, s: Scalar, next: Skey): Option<Grown> {
    match LocateDoc(t, p)
    case Inside(e, at, rel) =>
      (match PutInsideT(e.inner, rel, s, next)
       case None => None
       case Some(g) => Some(Grown(Subst(t.value, at, Packed(e.key, g.tree)), g.next)))
    case _ => PutRelT(t, p, s, next)
  }

  /** What is left after the subtree at `p` is removed; `None` when nothing was there.
      Removing the root leaves an empty table. */
  function RemoveRelT(t: Tree, p: Path): Option<Tree>
    requires p != []
  {
    match At(t, p)
    case None => None
    case Some(_) =>
      AtSplit(t, Parent(p), [Last(p)]);
      assert p == Parent(p) + [Last(p)];
      Some(Subst(t, Parent(p), WithoutChild(At(t, Parent(p)).value, Last(p))))
  }

  // ----- keys -----------------------------------------------------------------

  function ForestKeys(ts: seq<Tree>): set<Skey> {
    set i, x | 0 <= i < |ts| && x in Keys(ts[i]) :: x
  }

  predicate Disjoint(ts: seq<Tree>) {
    forall i, j | 0 <= i < j < |ts| :: Keys(ts[i]) !! Keys(ts[j])
  }

  lemma KeyIsOwn(t: Tree)
    ensures t.key in Keys(t)
  {}

  lemma ChildKeys(t: Tree, seg: Segment)
    requires Child(t, seg).Some?
    ensures Keys(Child(t, seg).value) <= Keys(t)
    ensures Distinct(t) ==> Distinct(Child(t, seg).value) && t.key !in Keys(Child(t, seg).value)
    ensures PackedFree(t) ==> PackedFree(Child(t, seg).value)
  {}

  lemma {:induction false} AtKeys(t: Tree, p: Path)
    requires At(t, p).Some?
    ensures Keys(At(t, p).value) <= Keys(t)
    ensures Distinct(t) ==> Distinct(At(t, p).value)
    ensures PackedFree(t) ==> PackedFree(At(t, p).value)
    decreases p
  {
    if p != [] {
      ChildKeys(t, p[0]);
      AtKeys(Child(t, p[0]).value, p[1..]);
    }
  }

  function OldKeys(t: Tree, seg: Segment): set<Skey> {
    match Child(t, seg) case Some(c) => Keys(c) case None => {}
  }

  /** Siblings share no key with each other or with their parent. */
  lemma SiblingKeys(t: Tree, seg: Segment, other: Segment)
    requires Distinct(t) && Child(t, other).Some? && seg != other
    ensures Keys(Child(t, other).value) <= Keys(t) - {t.key} - OldKeys(t, seg)
  {}

  lemma WithChildKeys(t: Tree, seg: Segment, c: Tree)
    requires Distinct(t) && WithChild(t, seg, c).Some?
    ensures Keys(WithChild(t, seg, c).value) == Keys(t) - OldKeys(t, seg) + Keys(c)
  {
    match t
    case List(k, items) => WithElementKeys(t, seg.index, c);
    case Object(k, fields) => WithFieldKeys(t, seg.name, c);
  }

  lemma WithElementKeys(t: Tree, at: nat, c: Tree)
    requires Distinct(t) && t.List? && at <= |t.items|
    ensures Keys(WithChild(t, Index(at), c).value) == Keys(t) - OldKeys(t, Index(at)) + Keys(c)
  {
    hide Distinct;
    var t' := WithChild(t, Index(at), c).value;
    if at < |t.items| { ChildKeys(t, Index(at)); }
    forall i | 0 <= i < |t.items| && i != at ensures Keys(t.items[i]) <= Keys(t') && Keys(t.items[i]) !! OldKeys(t, Index(at)) {
      SiblingKeys(t, Index(at), Index(i));
      assert t'.items[i] == t.items[i];
    }
    assert t'.items[at] == c;
  }

  lemma WithFieldKeys(t: Tree, n: string, c: Tree)
    requires Distinct(t) && t.Object?
    ensures Keys(WithChild(t, Name(n), c).value) == Keys(t) - OldKeys(t, Name(n)) + Keys(c)
  {
    hide Distinct;
    var t' := WithChild(t, Name(n), c).value;
    if n in t.fields { ChildKeys(t, Name(n)); }
    forall m | m in t.fields && m != n ensures Keys(t.fields[m]) <= Keys(t') && Keys(t.fields[m]) !! OldKeys(t, Name(n)) {
      SiblingKeys(t, Name(n), Name(m));
      assert t'.fields[m] == t.fields[m];
    }
    assert t'.fields[n] == c;
  }

  lemma WithChildDistinct(t: Tree, seg: Segment, c: Tree)
    requires Distinct(t) && WithChild(t, seg, c).Some? && Distinct(c)
    requires Keys(c) !! (Keys(t) - OldKeys(t, seg))
    ensures Distinct(WithChild(t, seg, c).value)
  {
    var t' := WithChild(t, seg, c).value;
    KeyIsOwn(t);
    match t
    case List(k, items) =>
      forall i | 0 <= i < |items| && i != seg.index ensures Keys(items[i]) !! Keys(c) {
        assert Keys(items[i]) <= Keys(t);
      }
    case Object(k, fields) =>
      forall n | n in fields && n != seg.name ensures Keys(fields[n]) !! Keys(c) {
        assert Keys(fields[n]) <= Keys(t);
      }
  }

  lemma SetSwap<T>(whole: set<T>, mid: set<T>, o: set<T>, n: set<T>)
    requires o <= mid <= whole && n !! (whole - o)
    ensures (mid - o + n) !! (whole - mid)
    ensures whole - mid + (mid - o + n) == whole - o + n
    ensures n !! (mid - o)
  {}

  lemma {:induction false} SubstShape(t: Tree, p: Path, u: Tree)
    requires Distinct(t) && At(t, p).Some? && Distinct(u)
    requires Keys(u) !! (Keys(t) - Keys(At(t, p).value))
    ensures Distinct(Subst(t, p, u))
    ensures Keys(Subst(t, p, u)) == Keys(t) - Keys(At(t, p).value) + Keys(u)
    ensures Keys(At(t, p).value) <= Keys(t)
    decreases p
  {
    AtKeys(t, p);
    if p != [] {
      var c := Child(t, p[0]).value;
      ChildKeys(t, p[0]);
      AtKeys(c, p[1..]);
      SetSwap(Keys(t), Keys(c), Keys(At(t, p).value), Keys(u));
      SubstShape(c, p[1..], u);
      WithChildKeys(t, p[0], Subst(c, p[1..], u));
      WithChildDistinct(t, p[0], Subst(c, p[1..], u));
    }
  }

  lemma WithoutChildKeys(t: Tree, seg: Segment)
    requires Distinct(t) && Child(t, seg).Some?
    ensures Keys(WithoutChild(t, seg)) == Keys(t) - OldKeys(t, seg)
  {
    match t
    case List(k, items) => WithoutElementKeys(t, seg.index);
    case Object(k, fields) =>
      var t' := WithoutChild(t, seg);
      forall n | n in fields && n != seg.name
        ensures Keys(fields[n]) <= Keys(t') && Keys(fields[n]) !! Keys(fields[seg.name])
      {
        assert t'.fields[n] == fields[n];
      }
  }

  lemma WithoutElementKeys(t: Tree, at: nat)
    requires Distinct(t) && t.List? && at < |t.items|
    ensures Keys(WithoutChild(t, Index(at))) == Keys(t) - Keys(t.items[at])
  {
    var t' := WithoutChild(t, Index(at));
    ChildKeys(t, Index(at));
    ListKeys(t);
    ListKeys(t');
    ForestWithout(t.items, at);
  }

  lemma ListKeys(t: Tree)
    requires t.List?
    ensures Keys(t) == {t.key} + ForestKeys(t.items)
    ensures Distinct(t) ==> Disjoint(t.items) && t.key !in ForestKeys(t.items)
  {}

  lemma ForestWithout(ts: seq<Tree>, at: nat)
    requires Disjoint(ts) && at < |ts|
    ensures ForestKeys(ts[..at] + ts[at + 1..]) == ForestKeys(ts) - Keys(ts[at])
  {
    hide Keys;
    var rest := ts[..at] + ts[at + 1..];
    forall k | k in ForestKeys(rest) ensures k in ForestKeys(ts) - Keys(ts[at]) {
      var i :| 0 <= i < |rest| && k in Keys(rest[i]);
      var j := if i < at then i else i + 1;
      assert k in Keys(ts[j]) && Keys(ts[j]) !! Keys(ts[at]);
    }
    forall k | k in ForestKeys(ts) - Keys(ts[at]) ensures k in ForestKeys(rest) {
      var j :| 0 <= j < |ts| && k in Keys(ts[j]);
      assert rest[if j < at then j else j - 1] == ts[j];
    }
  }

  lemma WithoutChildDistinct(t: Tree, seg: Segment)
    requires Distinct(t) && Child(t, seg).Some?
    ensures Distinct(WithoutChild(t, seg))
  {
    if t.List? {
      var t' := WithoutChild(t, seg);
      forall i | 0 <= i < |t'.items| ensures Distinct(t'.items[i]) && t.key !in Keys(t'.items[i]) {
        assert t'.items[i] == t.items[if i < seg.index then i else i + 1];
      }
    }
  }
}
