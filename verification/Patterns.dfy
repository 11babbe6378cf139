/** Index path patterns: which nodes an index covers, and which of them a mutation
    at some path can touch. */
module Patterns {
  import opened Basics
  import opened Scalars
  import opened Skeys
  import opened Paths
  import opened Values
  import opened Trees
  import opened TreeLaws
  import opened Blobs
  import opened Backends
  import opened Walks
  import opened Edits

  datatype PatternSeg = Lit(seg: Segment) | Star

  type Pattern = seq<PatternSeg>

  predicate SegMatches(p: PatternSeg, seg: Segment) { p.Star? || p.seg == seg }

  /** The pattern selects the place `q`: same depth, and every segment fits. */
  predicate Matches(pat: Pattern, q: Path) {
    |pat| == |q| && forall i | 0 <= i < |pat| :: SegMatches(pat[i], q[i])
  }

  // ----- reaching below a base --------------------------------------------------

  /** Whether the pattern selects places strictly below `base`. */
  predicate CoversStrictlyBelow(pat: Pattern, base: Path) {
    |pat| > |base| && forall i | 0 <= i < |base| :: SegMatches(pat[i], base[i])
  }

  function SomePath(pat: Pattern): (q: Path)
    ensures |q| == |pat| && forall i | 0 <= i < |pat| :: SegMatches(pat[i], q[i])
  {
    if pat == [] then []
    else [match pat[0] case Lit(seg) => seg case Star => Name("")] + SomePath(pat[1..])
  }

  /** It does exactly when some path extending `base` fits the pattern; so a base that
      may be packed hides no place the index could select. */
  lemma CoversMeansBelow(pat: Pattern, base: Path)
    ensures CoversStrictlyBelow(pat, base) <==> exists q :: base < q && Matches(pat, q)
  {
    if CoversStrictlyBelow(pat, base) {
      var q := base + SomePath(pat[|base|..]);
      forall i | 0 <= i < |pat| ensures SegMatches(pat[i], q[i]) {
        if i >= |base| { assert pat[i] == pat[|base|..][i - |base|]; }
      }
      assert base < q && Matches(pat, q);
    }
    if exists q :: base < q && Matches(pat, q) {
      var q :| base < q && Matches(pat, q);
      forall i | 0 <= i < |base| ensures SegMatches(pat[i], base[i]) {
        assert q[i] == base[i];
      }
    }
  }

  // ----- the walk ---------------------------------------------------------------

  /** `r`, relative to where the walk stands, is selected, exists, and lies on the
      mutation's line. Where the walk starts is taken to exist. */
  predicate Hits(pat: Pattern, scope: Path, u: Option<Tree>, r: Path) {
    Matches(pat, r) && Comparable(scope, r) && (r == [] || AtDoc(u, r).Some?)
  }

  function KeyThere(cur: Skey, u: Option<Tree>, r: Path): Skey {
    if r != [] && AtDoc(u, r).Some? then AtDoc(u, r).value.key else cur
  }

  /** `out` holds the keys at `paths`: every hit, once each, and nothing else. */
  ghost predicate Lists(pat: Pattern, scope: Path, cur: Skey, u: Option<Tree>, out: seq<Skey>, paths: seq<Path>) {
    && |out| == |paths|
    && (forall i | 0 <= i < |paths| :: Hits(pat, scope, u, paths[i]) && out[i] == KeyThere(cur, u, paths[i]))
    && (forall i, j | 0 <= i < j < |paths| :: paths[i] != paths[j])
    && (forall r | Hits(pat, scope, u, r) :: r in paths)
  }

  function ScopeTail(scope: Path): Path { if scope == [] then [] else scope[1..] }

  /** A hit below one segment is a hit seen from the child. */
  lemma HopHits(pat: Pattern, scope: Path, u: Option<Tree>, seg: Segment, r: Path)
    requires pat != []
    ensures Hits(pat, scope, u, [seg] + r)
       <==> SegMatches(pat[0], seg) && (scope == [] || scope[0] == seg)
            && ChildDoc(u, seg).Some? && Hits(pat[1..], ScopeTail(scope), ChildDoc(u, seg), r)
  {
    var q := [seg] + r;
    assert q[0] == seg && q[1..] == r;
    if Matches(pat, q) {
      forall i | 0 <= i < |r| ensures SegMatches(pat[1..][i], r[i]) { assert q[i + 1] == r[i]; }
    }
    if SegMatches(pat[0], seg) && Matches(pat[1..], r) {
      forall i | 0 <= i < |pat| ensures SegMatches(pat[i], q[i]) {
        if i > 0 { assert pat[i] == pat[1..][i - 1]; }
      }
    }
    if scope != [] && scope[0] == seg { PrefixStep(scope, q); }
    if scope != [] && scope[0] != seg { assert !(scope <= q) && !(q <= scope); }
    HopAt(u, seg, r);
  }

  lemma HopAt(u: Option<Tree>, seg: Segment, r: Path)
    ensures AtDoc(u, [seg] + r) == match ChildDoc(u, seg) case Some(c) => At(c, r) case None => None
  {
    assert ([seg] + r)[0] == seg && ([seg] + r)[1..] == r;
  }

  lemma HopKey(pat: Pattern, scope: Path, cur: Skey, u: Option<Tree>, seg: Segment, r: Path)
    requires ChildDoc(u, seg).Some? && Hits(pat, scope, ChildDoc(u, seg), r)
    ensures KeyThere(cur, u, [seg] + r) == KeyThere(ChildDoc(u, seg).value.key, ChildDoc(u, seg), r)
  {
    HopAt(u, seg, r);
  }

  function Under(seg: Segment, paths: seq<Path>): (r: seq<Path>)
    ensures |r| == |paths| && forall i | 0 <= i < |paths| :: r[i] == [seg] + paths[i]
  {
    seq(|paths|, i requires 0 <= i < |paths| => [seg] + paths[i])
  }

  /** Every key a node's children have, and the segments they sit at. */
  ghost predicate ListsChildren(u: Option<Tree>, keys: seq<Skey>, segs: seq<Segment>) {
    && |keys| == |segs|
    && (forall i | 0 <= i < |segs| :: ChildDoc(u, segs[i]).Some? && ChildDoc(u, segs[i]).value.key == keys[i])
    && (forall i, j | 0 <= i < j < |segs| :: segs[i] != segs[j])
    && (forall seg | ChildDoc(u, seg).Some? :: seg in segs)
  }

  method Children(b: Backend, key: Skey, ghost u: Option<Tree>) returns (keys: seq<Skey>, ghost segs: seq<Segment>)
    requires !b.Archived? && HoldsAt(b, key, u)
    ensures ListsChildren(u, keys, segs)
  {
    hide Backend.NodeOf, Backend.LinkOf;
    keys, segs := [], [];
    var node := b.NodeOf(key);
    if node.Some? {
      match node.value
      case NObject => keys, segs := ObjectKeys(b, key, u);
      case NList(items) =>
        keys := items;
        segs := seq(|items|, i requires 0 <= i < |items| => Index(i));
        forall seg | ChildDoc(u, seg).Some? ensures seg in segs {
          assert segs[seg.index] == seg;
        }
      case NLeaf(_) =>
      case NPacked(_, _) =>
    }
  }

  method ObjectKeys(b: Backend, key: Skey, ghost u: Option<Tree>) returns (keys: seq<Skey>, ghost segs: seq<Segment>)
    requires !b.Archived? && HoldsAt(b, key, u) && u.Some? && u.value.Object?
    ensures ListsChildren(u, keys, segs)
  {
    hide Backend.NodeOf, Backend.LinkOf;
    var links := ObjectChildren(b, key);
    LinksAreFields(b, u.value, links);
    keys := seq(|links|, i requires 0 <= i < |links| => links[i].1);
    segs := seq(|links|, i requires 0 <= i < |links| => Name(links[i].0));
    NamesApart(links);
    forall seg | ChildDoc(u, seg).Some? ensures seg in segs {
      var i :| 0 <= i < |links| && links[i].0 == seg.name;
      assert segs[i] == seg;
    }
  }

  lemma NamesApart(links: seq<(string, Skey)>)
    requires NamesAscend(links)
    ensures forall i, j | 0 <= i < j < |links| :: links[i].0 != links[j].0
  {
    forall i, j | 0 <= i < j < |links| ensures links[i].0 != links[j].0 {
      Bytes.NameIrreflexive(links[i].0);
    }
  }

  /** What the loop over a wildcard's children has listed so far. */
  ghost predicate ListsUpTo(pat: Pattern, cur: Skey, u: Option<Tree>, segs: seq<Segment>, n: nat, out: seq<Skey>, paths: seq<Path>)
    requires n <= |segs|
  {
    && |out| == |paths|
    && (forall i | 0 <= i < |paths| :: Hits(pat, [], u, paths[i]) && out[i] == KeyThere(cur, u, paths[i]))
    && (forall i | 0 <= i < |paths| :: paths[i] != [] && paths[i][0] in segs[..n])
    && (forall i, j | 0 <= i < j < |paths| :: paths[i] != paths[j])
    && (forall r | Hits(pat, [], u, r) && r != [] && r[0] in segs[..n] :: r in paths)
  }

  /** The walk through one child lists the hits below it. */
  lemma ChildLists(pat: Pattern, scope: Path, cur: Skey, u: Option<Tree>, seg: Segment, out: seq<Skey>, paths: seq<Path>)
    requires pat != [] && ChildDoc(u, seg).Some? && SegMatches(pat[0], seg) && (scope == [] || scope[0] == seg)
    requires Lists(pat[1..], ScopeTail(scope), ChildDoc(u, seg).value.key, ChildDoc(u, seg), out, paths)
    ensures |out| == |paths|
    ensures forall i | 0 <= i < |paths| :: Hits(pat, scope, u, [seg] + paths[i]) && out[i] == KeyThere(cur, u, [seg] + paths[i])
    ensures forall r | Hits(pat, scope, u, r) && r != [] && r[0] == seg :: r in Under(seg, paths)
  {
    hide Hits;
    forall i | 0 <= i < |paths| ensures Hits(pat, scope, u, [seg] + paths[i]) && out[i] == KeyThere(cur, u, [seg] + paths[i]) {
      HopHits(pat, scope, u, seg, paths[i]);
      HopKey(pat[1..], ScopeTail(scope), cur, u, seg, paths[i]);
    }
    forall r | Hits(pat, scope, u, r) && r != [] && r[0] == seg ensures r in Under(seg, paths) {
      assert r == [seg] + r[1..];
      HopHits(pat, scope, u, seg, r[1..]);
      var i :| 0 <= i < |paths| && paths[i] == r[1..];
      assert Under(seg, paths)[i] == r;
    }
  }

  lemma UnderApart(seg: Segment, paths: seq<Path>)
    requires forall i, j | 0 <= i < j < |paths| :: paths[i] != paths[j]
    ensures forall i, j | 0 <= i < j < |paths| :: Under(seg, paths)[i] != Under(seg, paths)[j]
  {
    forall i, j | 0 <= i < j < |paths| ensures Under(seg, paths)[i] != Under(seg, paths)[j] {
      assert ([seg] + paths[i])[1..] == paths[i] && ([seg] + paths[j])[1..] == paths[j];
    }
  }

  /** When only one segment can be taken, its child lists everything. */
  lemma OnlyChild(pat: Pattern, scope: Path, cur: Skey, u: Option<Tree>, seg: Segment, out: seq<Skey>, paths: seq<Path>)
    requires pat != [] && ChildDoc(u, seg).Some? && SegMatches(pat[0], seg) && (scope == [] || scope[0] == seg)
    requires Lists(pat[1..], ScopeTail(scope), ChildDoc(u, seg).value.key, ChildDoc(u, seg), out, paths)
    requires forall s | SegMatches(pat[0], s) && (scope == [] || scope[0] == s) :: s == seg
    ensures Lists(pat, scope, cur, u, out, Under(seg, paths))
  {
    hide Hits, KeyThere;
    ChildLists(pat, scope, cur, u, seg, out, paths);
    UnderApart(seg, paths);
    forall r | Hits(pat, scope, u, r) ensures r in Under(seg, paths) {
      FirstSegment(pat, scope, u, r);
    }
  }

  lemma FirstSegment(pat: Pattern, scope: Path, u: Option<Tree>, r: Path)
    requires pat != [] && Hits(pat, scope, u, r)
    ensures r != [] && SegMatches(pat[0], r[0]) && (scope == [] || scope[0] == r[0]) && ChildDoc(u, r[0]).Some?
  {
    assert r == [r[0]] + r[1..];
    HopHits(pat, scope, u, r[0], r[1..]);
  }

  /** No segment can be taken: nothing is listed. */
  lemma NoChild(pat: Pattern, scope: Path, cur: Skey, u: Option<Tree>)
    requires pat != []
    requires forall s | SegMatches(pat[0], s) && (scope == [] || scope[0] == s) :: ChildDoc(u, s).None?
    ensures Lists(pat, scope, cur, u, [], [])
  {
    hide Hits;
    forall r ensures !Hits(pat, scope, u, r) {
      if Hits(pat, scope, u, r) { FirstSegment(pat, scope, u, r); }
    }
  }

  /** Walks the pattern from `cur`, pruned to the line of `scope`, and appends the key
      of every place it selects. */
  method Walk(b: Backend, pat: Pattern, si: nat, cur: Skey, scope: Path, depth: nat, out: seq<Skey>, ghost u: Option<Tree>)
    returns (out': seq<Skey>, ghost paths: seq<Path>)
    requires !b.Archived? && HoldsAt(b, cur, u) && si <= |pat|
    ensures out <= out' && Lists(pat[si..], Scope(scope, depth), cur, u, out'[|out|..], paths)
    decreases |pat| - si
  {
    hide Backend.NodeOf, Backend.LinkOf, Rep, Lists, Hits;
    if si == |pat| {
      out', paths := out + [cur], [[]];
      assert out'[|out|..] == [cur];
      WalkEnds(pat[si..], Scope(scope, depth), cur, u);
      return;
    }
    assert pat[si..][0] == pat[si] && pat[si..][1..] == pat[si + 1..];
    match pat[si]
    case Lit(seg) =>
      if depth < |scope| && scope[depth] != seg {
        out', paths := out, [];
        assert out[|out|..] == [];
        NoChild(pat[si..], Scope(scope, depth), cur, u);
        return;
      }
      out', paths := WalkChild(b, pat, si, cur, scope, depth, out, seg, u);
    case Star =>
      if depth < |scope| {
        out', paths := WalkChild(b, pat, si, cur, scope, depth, out, scope[depth], u);
      } else {
        out', paths := WalkChildren(b, pat, si, cur, scope, depth, out, u);
      }
  }

  /** What is left of the mutation's path at this depth. */
  function Scope(scope: Path, depth: nat): Path { if depth < |scope| then scope[depth..] else [] }

  lemma ScopeStep(scope: Path, depth: nat)
    ensures ScopeTail(Scope(scope, depth)) == Scope(scope, depth + 1)
  {}

  lemma WalkEnds(pat: Pattern, scope: Path, cur: Skey, u: Option<Tree>)
    requires pat == []
    ensures Lists(pat, scope, cur, u, [cur], [[]])
  {}

  method WalkChild(b: Backend, pat: Pattern, si: nat, cur: Skey, scope: Path, depth: nat, out: seq<Skey>, seg: Segment,
                   ghost u: Option<Tree>)
    returns (out': seq<Skey>, ghost paths: seq<Path>)
    requires !b.Archived? && HoldsAt(b, cur, u) && si < |pat|
    requires SegMatches(pat[si], seg) && (depth < |scope| ==> scope[depth] == seg)
    requires pat[si].Lit? || depth < |scope|
    ensures out <= out' && Lists(pat[si..], Scope(scope, depth), cur, u, out'[|out|..], paths)
    decreases |pat| - si, 0
  {
    hide Backend.NodeOf, Backend.LinkOf, Rep, Lists, Hits;
    assert pat[si..][0] == pat[si] && pat[si..][1..] == pat[si + 1..];
    ScopeStep(scope, depth);
    ChildKeyWalks(b, cur, u, seg);
    var child := ChildKey(b, cur, seg);
    if child.None? {
      out', paths := out, [];
      assert out[|out|..] == [];
      NoChild(pat[si..], Scope(scope, depth), cur, u);
      return;
    }
    ghost var below;
    out', below := Walk(b, pat, si + 1, child.value, scope, depth + 1, out, ChildDoc(u, seg));
    OnlyChild(pat[si..], Scope(scope, depth), cur, u, seg, out'[|out|..], below);
    paths := Under(seg, below);
  }

  method WalkChildren(b: Backend, pat: Pattern, si: nat, cur: Skey, scope: Path, depth: nat, out: seq<Skey>, ghost u: Option<Tree>)
    returns (out': seq<Skey>, ghost paths: seq<Path>)
    requires !b.Archived? && HoldsAt(b, cur, u) && si < |pat| && pat[si].Star? && depth >= |scope|
    ensures out <= out' && Lists(pat[si..], [], cur, u, out'[|out|..], paths)
    decreases |pat| - si, 0
  {
    hide Backend.NodeOf, Backend.LinkOf, Rep, Lists, Hits, ListsUpTo;
    assert pat[si..][0] == pat[si] && pat[si..][1..] == pat[si + 1..];
    var keys: seq<Skey>;
    ghost var segs: seq<Segment>;
    keys, segs := Children(b, cur, u);
    out', paths := out, [];
    assert out[|out|..] == [];
    StartsEmpty(pat[si..], cur, u, segs);
    for i := 0 to |keys|
      invariant out <= out' && ListsUpTo(pat[si..], cur, u, segs, i, out'[|out|..], paths)
    {
      ghost var before, done := out', paths;
      ChildHolds(b, cur, u, segs[i]);
      ghost var below;
      out', below := Walk(b, pat, si + 1, keys[i], scope, depth + 1, out', ChildDoc(u, segs[i]));
      paths := done + Under(segs[i], below);
      assert out'[|out|..] == before[|out|..] + out'[|before|..];
      ListsNext(pat[si..], cur, u, segs, i, before[|out|..], done, out'[|before|..], below);
    }
    AllListed(pat[si..], cur, u, keys, segs, out'[|out|..], paths);
  }

  lemma StartsEmpty(pat: Pattern, cur: Skey, u: Option<Tree>, segs: seq<Segment>)
    ensures ListsUpTo(pat, cur, u, segs, 0, [], [])
  {}

  lemma ListsNext(pat: Pattern, cur: Skey, u: Option<Tree>, segs: seq<Segment>, i: nat,
                  out: seq<Skey>, paths: seq<Path>, more: seq<Skey>, below: seq<Path>)
    requires pat != [] && pat[0].Star? && i < |segs| && ChildDoc(u, segs[i]).Some?
    requires forall j, k | 0 <= j < k < |segs| :: segs[j] != segs[k]
    requires ListsUpTo(pat, cur, u, segs, i, out, paths)
    requires Lists(pat[1..], [], ChildDoc(u, segs[i]).value.key, ChildDoc(u, segs[i]), more, below)
    ensures ListsUpTo(pat, cur, u, segs, i + 1, out + more, paths + Under(segs[i], below))
  {
    hide Hits, KeyThere, Lists, Under;
    var seg := segs[i];
    ChildLists(pat, [], cur, u, seg, more, below);
    ListsApart(pat[1..], [], ChildDoc(u, seg).value.key, ChildDoc(u, seg), more, below);
    UnderApart(seg, below);
    NewSegment(segs, i);
    var added := Under(seg, below);
    forall j | 0 <= j < |added| ensures added[j] != [] && added[j][0] == seg { assert added[j] == [seg] + below[j]; }
    JoinApart(paths, added, segs[..i], seg);
    JoinHits(pat, cur, u, out, paths, more, added);
    JoinCovers(pat, u, segs, i, paths, added);
  }

  lemma ListsApart(pat: Pattern, scope: Path, cur: Skey, u: Option<Tree>, out: seq<Skey>, paths: seq<Path>)
    requires Lists(pat, scope, cur, u, out, paths)
    ensures forall i, j | 0 <= i < j < |paths| :: paths[i] != paths[j]
  {
    hide Hits, KeyThere;
  }

  lemma NewSegment(segs: seq<Segment>, i: nat)
    requires i < |segs| && forall j, k | 0 <= j < k < |segs| :: segs[j] != segs[k]
    ensures segs[i] !in segs[..i]
  {}

  lemma JoinHits(pat: Pattern, cur: Skey, u: Option<Tree>, out: seq<Skey>, paths: seq<Path>, more: seq<Skey>, added: seq<Path>)
    requires |out| == |paths| && |more| == |added|
    requires forall i | 0 <= i < |paths| :: Hits(pat, [], u, paths[i]) && out[i] == KeyThere(cur, u, paths[i])
    requires forall i | 0 <= i < |added| :: Hits(pat, [], u, added[i]) && more[i] == KeyThere(cur, u, added[i])
    ensures forall i | 0 <= i < |paths + added| :: Hits(pat, [], u, (paths + added)[i]) && (out + more)[i] == KeyThere(cur, u, (paths + added)[i])
  {
    hide Hits, KeyThere;
  }

  lemma JoinCovers(pat: Pattern, u: Option<Tree>, segs: seq<Segment>, i: nat, paths: seq<Path>, added: seq<Path>)
    requires i < |segs|
    requires forall j | 0 <= j < |paths| :: paths[j] != [] && paths[j][0] in segs[..i]
    requires forall j | 0 <= j < |added| :: added[j] != [] && added[j][0] == segs[i]
    requires forall r | Hits(pat, [], u, r) && r != [] && r[0] in segs[..i] :: r in paths
    requires forall r | Hits(pat, [], u, r) && r != [] && r[0] == segs[i] :: r in added
    ensures forall j | 0 <= j < |paths + added| :: (paths + added)[j] != [] && (paths + added)[j][0] in segs[..i + 1]
    ensures forall r | Hits(pat, [], u, r) && r != [] && r[0] in segs[..i + 1] :: r in paths + added
  {
    hide Hits;
    assert segs[..i + 1] == segs[..i] + [segs[i]];
  }

  lemma JoinApart(a: seq<Path>, b: seq<Path>, heads: seq<Segment>, seg: Segment)
    requires seg !in heads
    requires forall i | 0 <= i < |a| :: a[i] != [] && a[i][0] in heads
    requires forall i | 0 <= i < |b| :: b[i] != [] && b[i][0] == seg
    requires (forall i, j | 0 <= i < j < |a| :: a[i] != a[j]) && (forall i, j | 0 <= i < j < |b| :: b[i] != b[j])
    ensures forall i, j | 0 <= i < j < |a + b| :: (a + b)[i] != (a + b)[j]
  {}

  lemma AllListed(pat: Pattern, cur: Skey, u: Option<Tree>, keys: seq<Skey>, segs: seq<Segment>, out: seq<Skey>, paths: seq<Path>)
    requires pat != [] && ListsChildren(u, keys, segs) && ListsUpTo(pat, cur, u, segs, |segs|, out, paths)
    ensures Lists(pat, [], cur, u, out, paths)
  {
    hide Hits, KeyThere;
    assert segs[..|segs|] == segs;
    forall r | Hits(pat, [], u, r) ensures r in paths {
      FirstSegment(pat, [], u, r);
    }
  }

  /** `k` is the key of a selected place on the line of `scope`. */
  ghost predicate HitKey(pat: Pattern, scope: Path, t: Option<Tree>, k: Skey) {
    exists q :: Hits(pat, scope, t, q) && k == KeyThere(ROOT, t, q)
  }

  lemma ListedKeys(pat: Pattern, scope: Path, t: Option<Tree>, out: seq<Skey>, paths: seq<Path>)
    requires Lists(pat, scope, ROOT, t, out, paths)
    ensures forall k :: k in out <==> HitKey(pat, scope, t, k)
  {
    hide Hits, KeyThere;
    forall k | k in out ensures HitKey(pat, scope, t, k) {
      var i :| 0 <= i < |out| && out[i] == k;
      assert Hits(pat, scope, t, paths[i]);
    }
    forall k | HitKey(pat, scope, t, k) ensures k in out {
      var q :| Hits(pat, scope, t, q) && k == KeyThere(ROOT, t, q);
      assert q in paths;
      var i :| 0 <= i < |paths| && paths[i] == q;
      assert out[i] == k;
    }
  }

  /** The entities a mutation at `scope` can affect: exactly the selected places that
      lie on its root-to-node line, once each. */
  method AffectedEntities(b: Backend, pat: Pattern, scope: Path, ghost t: Option<Tree>)
    returns (out: seq<Skey>, ghost paths: seq<Path>)
    requires !b.Archived? && HoldsAt(b, ROOT, t)
    ensures Lists(pat, scope, ROOT, t, out, paths)
    ensures forall k :: k in out <==> HitKey(pat, scope, t, k)
  {
    hide Lists, Hits, KeyThere, HitKey;
    out, paths := Walk(b, pat, 0, ROOT, scope, 0, [], t);
    assert pat[0..] == pat && out[0..] == out;
    assert Scope(scope, 0) == scope;
    ListedKeys(pat, scope, t, out, paths);
  }
}
