/** Reading a store: ordered scans, path walks, and loading a document. Each walk
    follows one key at a time and is proved against the keyed tree the store holds. */
module Walks {
  import opened Basics
  import opened Bytes
  import opened Scalars
  import opened Skeys
  import opened Paths
  import opened Values
  import opened Trees
  import opened TreeLaws
  import opened Blobs
  import opened Backends

  // ----- ordered scan of child links ------------------------------------------

  type Link = (Skey, string)

  /** Byte order of the child-link block: parent first, then name. */
  predicate LinkLess(a: Link, b: Link) {
    a.0 < b.0 || (a.0 == b.0 && NameLess(a.1, b.1))
  }

  predicate LinksAscend(links: seq<(Link, Skey)>) {
    forall i, j | 0 <= i < j < |links| :: LinkLess(links[i].0, links[j].0)
  }

  predicate IsFirstLink(a: Link, s: set<Link>) {
    a in s && forall x | x in s && x != a :: LinkLess(a, x)
  }

  lemma {:induction false} HasFirstLink(s: set<Link>)
    requires s != {}
    ensures exists a :: IsFirstLink(a, s)
    decreases |s|
  {
    var x :| x in s;
    if s == {x} {
      assert IsFirstLink(x, s);
    } else {
      HasFirstLink(s - {x});
      var k :| IsFirstLink(k, s - {x});
      NameTotal(x.1, k.1);
      if LinkLess(x, k) {
        forall y | y in s && y != x ensures LinkLess(x, y) {
          assert y in s - {x};
          if y != k && x.0 == k.0 == y.0 { NameTransitive(x.1, k.1, y.1); }
        }
        assert IsFirstLink(x, s);
      } else {
        assert IsFirstLink(k, s);
      }
    }
  }

  /** The engine table's range over child links, from `(parent, "")` on. */
  method RangeFrom(links: map<Link, Skey>, parent: Skey) returns (out: seq<(Link, Skey)>)
    ensures LinksAscend(out)
    ensures forall i | 0 <= i < |out| :: parent <= out[i].0.0 && out[i].0 in links && links[out[i].0] == out[i].1
    ensures forall n | (parent, n) in links :: exists i :: 0 <= i < |out| && out[i].0 == (parent, n)
  {
    out := [];
    var rest := set l: Link | l in links && parent <= l.0;
    while rest != {}
      invariant LinksAscend(out)
      invariant forall l | l in rest :: l in links && parent <= l.0
      invariant forall i | 0 <= i < |out| :: parent <= out[i].0.0 && out[i].0 in links && links[out[i].0] == out[i].1
      invariant forall i, l | 0 <= i < |out| && l in rest :: LinkLess(out[i].0, l)
      invariant forall n | (parent, n) in links && (parent, n) !in rest :: Listed(out, (parent, n))
      decreases |rest|
    {
      HasFirstLink(rest);
      var l :| l in rest && forall x | x in rest && x != l :: LinkLess(l, x);
      ListedGrows(out, l, links[l]);
      out := out + [(l, links[l])];
      rest := rest - {l};
    }
    forall n | (parent, n) in links ensures exists i :: 0 <= i < |out| && out[i].0 == (parent, n) {
      assert Listed(out, (parent, n));
    }
  }

  predicate Listed(out: seq<(Link, Skey)>, l: Link) {
    exists i :: 0 <= i < |out| && out[i].0 == l
  }

  lemma ListedGrows(out: seq<(Link, Skey)>, l: Link, k: Skey)
    ensures Listed(out + [(l, k)], l)
    ensures forall x | Listed(out, x) :: Listed(out + [(l, k)], x)
  {
    var more := out + [(l, k)];
    assert more[|out|].0 == l;
    forall x | Listed(out, x) ensures Listed(more, x) {
      var i :| 0 <= i < |out| && out[i].0 == x;
      assert more[i].0 == x;
    }
  }

  /** The store's links at or after `(parent, "")`, in key order. The engine's range
      runs on into later parents; the other backends hold one parent's block. */
  method ScanFrom(b: Backend, parent: Skey) returns (out: seq<(Link, Skey)>)
    requires b.Archived? ==> WellFormed(b.blob)
    ensures LinksAscend(out)
    ensures forall i | 0 <= i < |out| :: parent <= out[i].0.0 && b.LinkOf(out[i].0.0, out[i].0.1) == Some(out[i].1)
    ensures forall n | b.LinkOf(parent, n).Some? :: exists i :: 0 <= i < |out| && out[i].0 == (parent, n)
  {
    out := [];
    match b
    case Engine(_, links) =>
      out := RangeFrom(links, parent);
    case Mem(cells) =>
      if parent in cells && cells[parent].MObject? {
        var pairs := DrainNames(cells[parent].children);
        out := FromPairs(parent, pairs);
        PairsExact(parent, pairs);
      }
    case Archived(blob) =>
      match Lookup(blob, parent) {
        case Some(AObject(pairs)) =>
          LookupAscends(blob, parent);
          out := FromPairs(parent, pairs);
          PairsExact(parent, pairs);
          forall n ensures b.LinkOf(parent, n) == if n in PairsToMap(pairs) then Some(PairsToMap(pairs)[n]) else None {
            FindNameAgrees(pairs, n);
          }
        case _ =>
      }
  }

  lemma LookupAscends(b: Blob, k: Skey)
    requires WellFormed(b) && Lookup(b, k).Some? && Lookup(b, k).value.AObject?
    ensures NamesAscend(Lookup(b, k).value.pairs)
  {}

  function FromPairs(parent: Skey, pairs: seq<(string, Skey)>): (out: seq<(Link, Skey)>)
    ensures |out| == |pairs|
    ensures forall i | 0 <= i < |out| :: out[i] == ((parent, pairs[i].0), pairs[i].1)
  {
    seq(|pairs|, i requires 0 <= i < |pairs| => ((parent, pairs[i].0), pairs[i].1))
  }

  lemma PairsExact(parent: Skey, pairs: seq<(string, Skey)>)
    requires NamesAscend(pairs)
    ensures LinksAscend(FromPairs(parent, pairs))
    ensures forall i | 0 <= i < |pairs| :: pairs[i].0 in PairsToMap(pairs) && PairsToMap(pairs)[pairs[i].0] == pairs[i].1
    ensures forall n | n in PairsToMap(pairs) :: exists i :: 0 <= i < |pairs| && FromPairs(parent, pairs)[i].0 == (parent, n)
  {
    forall i | 0 <= i < |pairs| { PairsLookup(pairs, i); }
    forall n | n in PairsToMap(pairs)
      ensures exists i :: 0 <= i < |pairs| && FromPairs(parent, pairs)[i].0 == (parent, n)
    {
      PairsDomain(pairs, n);
      var i :| 0 <= i < |pairs| && pairs[i].0 == n;
      assert FromPairs(parent, pairs)[i].0 == (parent, n);
    }
  }

  /** `out` lists the links of `parent`, each once, names ascending. */
  ghost predicate ListsLinks(b: Backend, parent: Skey, out: seq<(string, Skey)>) {
    && NamesAscend(out)
    && (forall i | 0 <= i < |out| :: b.LinkOf(parent, out[i].0) == Some(out[i].1))
    && (forall n | b.LinkOf(parent, n).Some? :: exists i :: 0 <= i < |out| && out[i].0 == n)
  }

  /** Every link of one object: the scan stops at the first other parent. */
  method ObjectChildren(b: Backend, parent: Skey) returns (out: seq<(string, Skey)>)
    requires b.Archived? ==> WellFormed(b.blob)
    ensures ListsLinks(b, parent, out)
  {
    out := [];
    var items := ScanFrom(b, parent);
    var i := 0;
    while i < |items|
      invariant 0 <= i <= |items| && |out| == i
      invariant forall j | 0 <= j < i :: items[j].0 == (parent, out[j].0) && items[j].1 == out[j].1
    {
      if items[i].0.0 != parent {
        break;
      }
      out := out + [(items[i].0.1, items[i].1)];
      i := i + 1;
    }
    forall j, k | 0 <= j < k < |out| ensures NameLess(out[j].0, out[k].0) {
      assert LinkLess(items[j].0, items[k].0);
    }
    forall n | b.LinkOf(parent, n).Some? ensures exists j :: 0 <= j < |out| && out[j].0 == n {
      var j :| 0 <= j < |items| && items[j].0 == (parent, n);
      assert out[j].0 == n;
    }
  }

  // ----- walking a path -------------------------------------------------------

  function KeyOf(t: Option<Tree>): Option<Skey> {
    match t case Some(u) => Some(u.key) case None => None
  }

  /** The store holds `t` under `base`, or nothing at all there. */
  ghost predicate HoldsAt(b: Backend, base: Skey, t: Option<Tree>) {
    match t
    case Some(u) => Rep(b, u) && u.key == base
    case None => Blank(b, base)
  }

  function ChildDoc(t: Option<Tree>, seg: Segment): Option<Tree> {
    match t case Some(u) => Child(u, seg) case None => None
  }

  /** One hop: a link for a name, a list position for an index. */
  function ChildKey(b: Backend, parent: Skey, seg: Segment): Option<Skey> {
    match seg
    case Name(n) => b.LinkOf(parent, n)
    case Index(i) =>
      match b.NodeOf(parent)
      case Some(NList(items)) => if i < |items| then Some(items[i]) else None
      case _ => None
  }

  lemma ChildKeyWalks(b: Backend, base: Skey, t: Option<Tree>, seg: Segment)
    requires HoldsAt(b, base, t)
    ensures ChildKey(b, base, seg) == KeyOf(ChildDoc(t, seg))
    ensures ChildDoc(t, seg).Some? ==> Rep(b, ChildDoc(t, seg).value)
  {
    if seg.Name? {
      assert b.LinkOf(base, seg.name) == KeyOf(ChildDoc(t, seg));
    }
  }

  /** The key `rel` leads to from `key`, hop by hop. The starting key itself is not checked for existence. */
  function WalkKey(b: Backend, key: Skey, rel: Path): Option<Skey>
    decreases rel
  {
    if rel == [] then Some(key)
    else match ChildKey(b, key, rel[0]) case Some(child) => WalkKey(b, child, rel[1..]) case None => None
  }

  method ResolveFrom(b: Backend, base: Skey, rel: Path) returns (r: Option<Skey>)
    ensures r == WalkKey(b, base, rel)
  {
    var key := base;
    assert rel[0..] == rel;
    for i := 0 to |rel|
      invariant WalkKey(b, base, rel) == WalkKey(b, key, rel[i..])
    {
      assert rel[i..][0] == rel[i] && rel[i..][1..] == rel[i + 1..];
      var child := ChildKey(b, key, rel[i]);
      if child.None? {
        return None;
      }
      key := child.value;
    }
    return Some(key);
  }

  function ResolvedKey(base: Skey, t: Option<Tree>, rel: Path): Option<Skey> {
    if rel == [] then Some(base) else KeyOf(AtDoc(t, rel))
  }

  /** The walk over the store's entries follows the tree they represent. */
  lemma {:induction false} WalkFollowsTree(b: Backend, base: Skey, t: Option<Tree>, rel: Path)
    requires HoldsAt(b, base, t)
    ensures WalkKey(b, base, rel) == ResolvedKey(base, t, rel)
    decreases rel
  {
    if rel != [] {
      ChildKeyWalks(b, base, t, rel[0]);
      var c := ChildDoc(t, rel[0]);
      if c.Some? {
        WalkFollowsTree(b, c.value.key, c, rel[1..]);
        assert AtDoc(t, rel) == AtDoc(c, rel[1..]);
      }
    }
  }

  /** Changes strictly below a node do not disturb the walk that leads to it. */
  lemma {:induction false} WalkAbove(b: Backend, c: Backend, t: Tree, p: Path, changed: set<Skey>)
    requires Rep(b, t) && Distinct(t) && At(t, p).Some?
    requires changed <= Keys(At(t, p).value) - {At(t, p).value.key}
    requires forall k | k !in changed :: SameAt(b, c, k)
    ensures WalkKey(c, t.key, p) == Some(At(t, p).value.key)
    decreases p
  {
    hide Distinct, Backend.NodeOf, Backend.LinkOf;
    if p != [] {
      var child := Child(t, p[0]).value;
      AtKeys(child, p[1..]);
      ChildKeys(t, p[0]);
      assert SameAt(b, c, t.key);
      ChildKeyWalks(b, t.key, Some(t), p[0]);
      WalkAbove(b, c, child, p[1..], changed);
    }
  }

  /** Like `ResolveFrom` at the table root, and nothing at all in an empty store. */
  method Resolve(b: Backend, path: Path, ghost t: Option<Tree>) returns (r: Option<Skey>)
    requires HoldsAt(b, ROOT, t)
    ensures r == KeyOf(AtDoc(t, path))
  {
    if b.NodeOf(ROOT).None? {
      return None;
    }
    WalkFollowsTree(b, ROOT, t, path);
    r := ResolveFrom(b, ROOT, path);
  }

  datatype LocatedKey =
    | AtNothing
    | AtPlain(key: Skey)
    | AtPacked(entity: Skey, rel: Path)

  function LocatedKeyOf(l: Located): LocatedKey {
    match l
    case Missing => AtNothing
    case Plain(u) => AtPlain(u.key)
    case Inside(e, _, rel) => AtPacked(e.key, rel)
  }

  lemma LocateHop(t: Option<Tree>, p: Path)
    requires t.Some? && !t.value.Packed? && p != []
    ensures LocatedKeyOf(LocateDoc(t, p))
         == match ChildDoc(t, p[0])
            case Some(c) => LocatedKeyOf(LocateDoc(Some(c), p[1..]))
            case None => AtNothing
  {}

  /** What the node under a key says of the walk that stands there. */
  lemma NodeSays(b: Backend, key: Skey, t: Option<Tree>, p: Path)
    requires HoldsAt(b, key, t)
    ensures b.NodeOf(key).None? <==> t.None?
    ensures t.None? ==> LocateDoc(t, p) == Missing
    ensures t.Some? ==> t.value.key == key && (b.NodeOf(key).value.NPacked? <==> t.value.Packed?)
    ensures t.Some? && t.value.Packed? ==> LocatedKeyOf(LocateDoc(t, p)) == AtPacked(key, p)
    ensures t.Some? && !t.value.Packed? && p == [] ==> LocatedKeyOf(LocateDoc(t, p)) == AtPlain(key)
  {}

  lemma ChildHolds(b: Backend, key: Skey, t: Option<Tree>, seg: Segment)
    requires HoldsAt(b, key, t) && ChildDoc(t, seg).Some?
    ensures HoldsAt(b, ChildDoc(t, seg).value.key, ChildDoc(t, seg))
  {
    ChildKeyWalks(b, key, t, seg);
  }

  /** Walks `path` from the root, reading each node once, and stops at a packed entity. */
  method LocateKey(b: Backend, path: Path, ghost t: Option<Tree>) returns (r: LocatedKey)
    requires HoldsAt(b, ROOT, t)
    ensures r == LocatedKeyOf(LocateDoc(t, path))
  {
    hide Rep, Locate, HoldsAt;
    var key, i := ROOT, 0;
    ghost var cur := t;
    assert path[0..] == path;
    while true
      invariant 0 <= i <= |path|
      invariant HoldsAt(b, key, cur)
      invariant LocatedKeyOf(LocateDoc(t, path)) == LocatedKeyOf(LocateDoc(cur, path[i..]))
      decreases |path| - i
    {
      NodeSays(b, key, cur, path[i..]);
      var step := b.NodeOf(key);
      if step.None? {
        return AtNothing;
      }
      if step.value.NPacked? {
        return AtPacked(key, path[i..]);
      }
      if i == |path| {
        return AtPlain(key);
      }
      LocateHop(cur, path[i..]);
      assert path[i..][0] == path[i] && path[i..][1..] == path[i + 1..];
      ChildKeyWalks(b, key, cur, path[i]);
      var child := HopFrom(b, key, step.value, path[i]);
      if child.None? {
        return AtNothing;
      }
      ChildHolds(b, key, cur, path[i]);
      cur := ChildDoc(cur, path[i]);
      key, i := child.value, i + 1;
    }
  }

  /** A hop that reuses the node just read: a list index needs no second read. */
  function HopFrom(b: Backend, key: Skey, node: Node, seg: Segment): (r: Option<Skey>)
    ensures b.NodeOf(key) == Some(node) ==> r == ChildKey(b, key, seg)
  {
    match seg
    case Name(n) => b.LinkOf(key, n)
    case Index(at) => if node.NList? && at < |node.items| then Some(node.items[at]) else None
  }

  // ----- reading values -------------------------------------------------------

  /** The decoded in-memory table of a packed entity. */
  function DecodePacked(b: Backend, key: Skey): Result<Backend> {
    match b.NodeOf(key)
    case Some(NPacked(_, blob)) =>
      (match FromBlob(blob) case Ok(cells) => Ok(Mem(cells)) case Err(e) => Err(e))
    case _ => Err(Corrupt)
  }

  lemma DecodePackedHolds(b: Backend, e: Tree)
    requires Rep(b, e) && e.Packed? && e.inner.key == ROOT
    ensures DecodePacked(b, e.key).Ok? && Holds(DecodePacked(b, e.key).value, Some(e.inner))
    ensures HoldsAt(DecodePacked(b, e.key).value, ROOT, Some(e.inner))
  {}

  /** Loads the whole subtree under `key`, decoding a packed entity on the way. */
  method ValueAt(b: Backend, key: Skey, ghost t: Tree) returns (v: Value)
    requires Rep(b, t) && t.key == key && Distinct(t)
    requires b.Archived? ==> WellFormed(b.blob)
    ensures v == Denote(t)
    decreases t, 1
  {
    hide Backend.NodeOf, Backend.LinkOf, FromBlob, WellFormed, Keys;
    match b.NodeOf(key).value
    case NLeaf(s) => v := VLeaf(s);
    case NList(items) => v := ListAt(b, items, t);
    case NObject => v := ObjectAt(b, key, t);
    case NPacked(_, blob) => v := ValueAt(Mem(FromBlob(blob).value), ROOT, t.inner);
  }

  method ListAt(b: Backend, items: seq<Skey>, ghost t: Tree) returns (v: Value)
    requires Rep(b, t) && t.List? && Distinct(t) && items == KeysOf(t.items)
    requires b.Archived? ==> WellFormed(b.blob)
    ensures v == Denote(t)
    decreases t, 0
  {
    hide Backend.NodeOf, Backend.LinkOf, FromBlob, WellFormed, Keys;
    var out: seq<Value> := [];
    for i := 0 to |items|
      invariant |out| == i && forall j | 0 <= j < i :: out[j] == Denote(t.items[j])
    {
      var child := ValueAt(b, items[i], t.items[i]);
      out := out + [child];
    }
    v := VList(out);
  }

  method ObjectAt(b: Backend, key: Skey, ghost t: Tree) returns (v: Value)
    requires Rep(b, t) && t.Object? && t.key == key && Distinct(t)
    requires b.Archived? ==> WellFormed(b.blob)
    ensures v == Denote(t)
    decreases t, 0
  {
    hide Backend.NodeOf, Backend.LinkOf, WellFormed, Keys, Rep, Distinct, Denote;
    var out: map<string, Value> := map[];
    var links := ObjectChildren(b, key);
    for i := 0 to |links|
      invariant forall j | 0 <= j < i :: links[j].0 in out
      invariant forall n | n in out :: n in t.fields && out[n] == Denote(t.fields[n])
    {
      FieldHeld(b, t, links[i].0);
      var child := ValueAt(b, links[i].1, t.fields[links[i].0]);
      out := out[links[i].0 := child];
    }
    forall n | n in t.fields ensures n in out {
      FieldHeld(b, t, n);
    }
    ObjectDenotes(t, out);
    v := VNode(out);
  }

  lemma FieldHeld(b: Backend, t: Tree, n: string)
    requires Rep(b, t) && t.Object? && Distinct(t)
    ensures b.LinkOf(t.key, n) == FieldKey(t.fields, n)
    ensures n in t.fields ==> Rep(b, t.fields[n]) && Distinct(t.fields[n])
  {
    hide Backend.NodeOf, Backend.LinkOf, WellFormed, Keys;
  }

  lemma ObjectDenotes(t: Tree, out: map<string, Value>)
    requires t.Object? && out.Keys == t.fields.Keys && forall n | n in out :: out[n] == Denote(t.fields[n])
    ensures VNode(out) == Denote(t)
  {
    assert out == Denote(t).entries;
  }

  /** Loads the document at `path`, wherever it is kept. */
  method ReadValue(b: Backend, path: Path, ghost t: Option<Tree>) returns (v: Option<Value>)
    requires HoldsAt(b, ROOT, t) && !b.Archived? && (t.Some? ==> Distinct(t.value))
    ensures v == SubDoc(DocumentOf(t), path)
  {
    if t.Some? { LocateReadsDocument(t.value, path); }
    var at := LocateKey(b, path, t);
    match at
    case AtNothing => v := None;
    case AtPlain(key) =>
      AtRep(b, t.value, path);
      AtKeys(t.value, path);
      var u := ValueAt(b, key, At(t.value, path).value);
      v := Some(u);
    case AtPacked(entity, rel) =>
      ghost var e := LocateDoc(t, path).entity;
      AtRep(b, t.value, LocateDoc(t, path).at);
      AtKeys(t.value, LocateDoc(t, path).at);
      v := ReadPacked(b, entity, rel, e);
  }

  /** Continues a read inside the entity's decoded blob. */
  method ReadPacked(b: Backend, entity: Skey, rel: Path, ghost e: Tree) returns (v: Option<Value>)
    requires Rep(b, e) && e.Packed? && Distinct(e) && e.key == entity
    ensures v == match At(e.inner, rel) case Some(u) => Some(Denote(u)) case None => None
  {
    DecodePackedHolds(b, e);
    var mem := DecodePacked(b, entity).value;
    WalkFollowsTree(mem, ROOT, Some(e.inner), rel);
    var key := ResolveFrom(mem, ROOT, rel);
    if key.None? {
      return None;
    }
    if rel == [] { assert At(e.inner, rel) == Some(e.inner); }
    AtRep(mem, e.inner, rel);
    AtKeys(e.inner, rel);
    var u := ValueAt(mem, key.value, At(e.inner, rel).value);
    v := Some(u);
  }
}
