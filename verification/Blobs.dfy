/** The archive a packed entity is stored as.

    The archive library is taken as a faithful container: the blob keeps the
    entity's nodes sorted by key, an object's links sorted by name, and each
    leaf's encoded scalar as a byte span of its own. */
module Blobs {
  import opened Basics
  import opened Bytes
  import opened Scalars
  import opened ScalarCodec
  import opened Skeys

  /** A node of the in-memory table, children inline. */
  datatype MemNode =
    | MObject(children: map<string, Skey>)
    | MList(items: seq<Skey>)
    | MLeaf(scalar: Scalar)

  type MemNodes = map<Skey, MemNode>

  datatype ArchNode =
    | AObject(pairs: seq<(string, Skey)>)
    | AList(items: seq<Skey>)
    | ALeaf(offset: nat, len: nat)

  datatype Blob = Blob(nodes: seq<(Skey, ArchNode)>, bytes: bytes)

  predicate KeysAscend(nodes: seq<(Skey, ArchNode)>) {
    forall i, j | 0 <= i < j < |nodes| :: nodes[i].0 < nodes[j].0
  }

  predicate NamesAscend(pairs: seq<(string, Skey)>) {
    forall i, j | 0 <= i < j < |pairs| :: NameLess(pairs[i].0, pairs[j].0)
  }

  predicate InBounds(n: ArchNode, size: nat) {
    n.ALeaf? ==> n.offset + n.len <= size
  }

  predicate Apart(m: ArchNode, n: ArchNode) {
    m.ALeaf? && n.ALeaf? ==> m.offset + m.len <= n.offset || n.offset + n.len <= m.offset
  }

  /** A leaf's span holds the encoding of a scalar and nothing more. */
  predicate Stored(n: ArchNode, data: bytes) {
    n.ALeaf? ==>
      && n.offset + n.len <= |data|
      && ViewOf(n, data).Some?
      && data[n.offset..n.offset + n.len] == Encode(ViewOf(n, data).value.scalar)
  }

  predicate SpansStored(nodes: seq<(Skey, ArchNode)>, data: bytes) {
    forall i | 0 <= i < |nodes| :: InBounds(nodes[i].1, |data|) && Stored(nodes[i].1, data)
  }

  predicate SpansApart(nodes: seq<(Skey, ArchNode)>) {
    forall i, j | 0 <= i < j < |nodes| :: Apart(nodes[i].1, nodes[j].1)
  }

  predicate LinksSorted(nodes: seq<(Skey, ArchNode)>) {
    forall i | 0 <= i < |nodes| :: nodes[i].1.AObject? ==> NamesAscend(nodes[i].1.pairs)
  }

  /** The layout the archive library promises. */
  predicate WellFormed(b: Blob) {
    KeysAscend(b.nodes) && SpansStored(b.nodes, b.bytes) && SpansApart(b.nodes) && LinksSorted(b.nodes)
  }

  // ----- lookup by binary search ----------------------------------------------

  /** Bisects `nodes[lo..hi]` for `key`. */
  function FindKey(nodes: seq<(Skey, ArchNode)>, key: Skey, lo: nat, hi: nat): (r: Option<nat>)
    requires lo <= hi <= |nodes|
    ensures r.Some? ==> lo <= r.value < hi && nodes[r.value].0 == key
    ensures KeysAscend(nodes) && r.None? ==> forall i | lo <= i < hi :: nodes[i].0 != key
    decreases hi - lo
  {
    if lo == hi then None
    else
      var mid := (lo + hi) / 2;
      if nodes[mid].0 == key then Some(mid)
      else if nodes[mid].0 < key then FindKey(nodes, key, mid + 1, hi)
      else FindKey(nodes, key, lo, mid)
  }

  /** Bisects `pairs[lo..hi]` for `name`. */
  function FindName(pairs: seq<(string, Skey)>, name: string, lo: nat, hi: nat): (r: Option<nat>)
    requires lo <= hi <= |pairs|
    ensures r.Some? ==> lo <= r.value < hi && pairs[r.value].0 == name
    ensures NamesAscend(pairs) && r.None? ==> forall i | lo <= i < hi :: pairs[i].0 != name
    decreases hi - lo
  {
    if lo == hi then None
    else
      var mid := (lo + hi) / 2;
      if pairs[mid].0 == name then Some(mid)
      else if NameLess(pairs[mid].0, name) then
        var r := FindName(pairs, name, mid + 1, hi);
        assert NamesAscend(pairs) ==> forall i | lo <= i < mid :: pairs[i].0 != name by {
          NotBefore(pairs, name, lo, mid);
        }
        r
      else
        var r := FindName(pairs, name, lo, mid);
        assert NamesAscend(pairs) ==> forall i | mid < i < hi :: pairs[i].0 != name by {
          NotAfter(pairs, name, mid, hi);
        }
        r
  }

  lemma NotBefore(pairs: seq<(string, Skey)>, name: string, lo: nat, mid: nat)
    requires mid < |pairs| && NameLess(pairs[mid].0, name)
    ensures NamesAscend(pairs) ==> forall i | lo <= i < mid :: pairs[i].0 != name
  {
    if NamesAscend(pairs) {
      forall i | lo <= i < mid ensures pairs[i].0 != name {
        NameTransitive(pairs[i].0, pairs[mid].0, name);
        NameIrreflexive(name);
      }
    }
  }

  lemma NotAfter(pairs: seq<(string, Skey)>, name: string, mid: nat, hi: nat)
    requires mid < hi <= |pairs| && pairs[mid].0 != name && !NameLess(pairs[mid].0, name)
    ensures NamesAscend(pairs) ==> forall i | mid < i < hi :: pairs[i].0 != name
  {
    if NamesAscend(pairs) {
      forall i | mid < i < hi ensures pairs[i].0 != name {
        NameTotal(name, pairs[mid].0);
        NameTransitive(name, pairs[mid].0, pairs[i].0);
        NameIrreflexive(name);
      }
    }
  }

  function Lookup(b: Blob, key: Skey): Option<ArchNode> {
    match FindKey(b.nodes, key, 0, |b.nodes|)
    case Some(at) => Some(b.nodes[at].1)
    case None => None
  }

  /** The bytes of leaf `key` within the blob. */
  function LeafByteSpan(b: Blob, key: Skey): Option<(nat, nat)> {
    match Lookup(b, key)
    case Some(ALeaf(offset, len)) => Some((offset, len))
    case _ => None
  }

  // ----- decoding into an in-memory table -------------------------------------

  function PairsToMap(pairs: seq<(string, Skey)>): map<string, Skey> {
    if pairs == [] then map[]
    else PairsToMap(pairs[..|pairs| - 1])[pairs[|pairs| - 1].0 := pairs[|pairs| - 1].1]
  }

  function ViewOf(n: ArchNode, data: bytes): Option<MemNode> {
    match n
    case AObject(pairs) => Some(MObject(PairsToMap(pairs)))
    case AList(items) => Some(MList(items))
    case ALeaf(offset, len) =>
      if offset + len > |data| then None
      else match Decode(data[offset..offset + len])
           case Some(s) => Some(MLeaf(s))
           case None => None
  }

  /** Every node of a blob, decoded. */
  function Views(b: Blob): (views: seq<Option<MemNode>>)
    ensures |views| == |b.nodes|
    ensures forall i | 0 <= i < |b.nodes| :: views[i] == ViewOf(b.nodes[i].1, b.bytes)
  {
    seq(|b.nodes|, i requires 0 <= i < |b.nodes| => ViewOf(b.nodes[i].1, b.bytes))
  }

  /** The first `n` decoded nodes, gathered into a table; one bad node spoils it. */
  function Gather(nodes: seq<(Skey, ArchNode)>, views: seq<Option<MemNode>>, n: nat): Option<MemNodes>
    requires n <= |nodes| == |views|
  {
    if n == 0 then Some(map[])
    else match (Gather(nodes, views, n - 1), views[n - 1])
         case (Some(m), Some(node)) => Some(m[nodes[n - 1].0 := node])
         case _ => None
  }

  function FromBlob(b: Blob): Result<MemNodes> {
    match Gather(b.nodes, Views(b), |b.nodes|)
    case Some(m) => Ok(m)
    case None => Err(Corrupt)
  }

  lemma {:induction false} PairsLookup(pairs: seq<(string, Skey)>, i: nat)
    requires NamesAscend(pairs) && i < |pairs|
    ensures pairs[i].0 in PairsToMap(pairs) && PairsToMap(pairs)[pairs[i].0] == pairs[i].1
  {
    var n := |pairs| - 1;
    if i < n {
      PairsLookup(pairs[..n], i);
      NameIrreflexive(pairs[n].0);
    }
  }

  lemma {:induction false} PairsDomain(pairs: seq<(string, Skey)>, name: string)
    ensures name in PairsToMap(pairs) <==> exists i :: 0 <= i < |pairs| && pairs[i].0 == name
  {
    if pairs != [] {
      var n := |pairs| - 1;
      PairsDomain(pairs[..n], name);
      if pairs[n].0 != name && exists i :: 0 <= i < |pairs| && pairs[i].0 == name {
        var i :| 0 <= i < |pairs| && pairs[i].0 == name;
        assert pairs[..n][i].0 == name;
      }
    }
  }

  /** Binary search by name agrees with the decoded link map. */
  lemma FindNameAgrees(pairs: seq<(string, Skey)>, name: string)
    requires NamesAscend(pairs)
    ensures (match FindName(pairs, name, 0, |pairs|) case Some(at) => Some(pairs[at].1) case None => None)
         == (if name in PairsToMap(pairs) then Some(PairsToMap(pairs)[name]) else None)
  {
    PairsDomain(pairs, name);
    match FindName(pairs, name, 0, |pairs|)
    case Some(at) => PairsLookup(pairs, at);
    case None =>
  }

  lemma {:induction false} GatherEntry(nodes: seq<(Skey, ArchNode)>, views: seq<Option<MemNode>>, n: nat, i: nat)
    requires KeysAscend(nodes) && i < n <= |nodes| == |views| && Gather(nodes, views, n).Some?
    ensures nodes[i].0 in Gather(nodes, views, n).value
    ensures views[i] == Some(Gather(nodes, views, n).value[nodes[i].0])
  {
    if i < n - 1 {
      GatherEntry(nodes, views, n - 1, i);
    }
  }

  lemma {:induction false} GatherDomain(nodes: seq<(Skey, ArchNode)>, views: seq<Option<MemNode>>, n: nat, key: Skey)
    requires n <= |nodes| == |views| && Gather(nodes, views, n).Some? && key in Gather(nodes, views, n).value
    ensures exists i :: 0 <= i < n && nodes[i].0 == key
  {
    if key != nodes[n - 1].0 {
      GatherDomain(nodes, views, n - 1, key);
    }
  }

  /** The archived read by binary search and the decoded table hold the same nodes. */
  lemma LookupAgrees(b: Blob, key: Skey)
    requires WellFormed(b) && FromBlob(b).Ok?
    ensures Lookup(b, key).Some? <==> key in FromBlob(b).value
    ensures Lookup(b, key).Some? ==> ViewOf(Lookup(b, key).value, b.bytes) == Some(FromBlob(b).value[key])
    ensures Lookup(b, key).Some? && Lookup(b, key).value.AObject? ==> NamesAscend(Lookup(b, key).value.pairs)
  {
    hide Decode, Encode;
    match FindKey(b.nodes, key, 0, |b.nodes|)
    case Some(at) => GatherEntry(b.nodes, Views(b), |b.nodes|, at);
    case None =>
      if key in FromBlob(b).value {
        GatherDomain(b.nodes, Views(b), |b.nodes|, key);
      }
  }

  // ----- building -------------------------------------------------------------

  predicate IsLeast(k: Skey, s: set<Skey>) { k in s && forall x | x in s :: k <= x }

  lemma {:induction false} HasLeast(s: set<Skey>)
    requires s != {}
    ensures exists k :: IsLeast(k, s)
    decreases |s|
  {
    var x :| x in s;
    if s == {x} {
      assert IsLeast(x, s);
    } else {
      HasLeast(s - {x});
      var k :| IsLeast(k, s - {x});
      var low := if x < k then x else k;
      forall y | y in s ensures low <= y {
        if y != x { assert y in s - {x}; }
      }
      assert IsLeast(low, s);
    }
  }

  predicate IsFirstName(n: string, s: set<string>) { n in s && forall x | x in s && x != n :: NameLess(n, x) }

  lemma {:induction false} HasFirstName(s: set<string>)
    requires s != {}
    ensures exists n :: IsFirstName(n, s)
    decreases |s|
  {
    var x :| x in s;
    if s == {x} {
      assert IsFirstName(x, s);
    } else {
      HasFirstName(s - {x});
      var k :| IsFirstName(k, s - {x});
      NameTotal(x, k);
      if NameLess(x, k) {
        forall y | y in s && y != x ensures NameLess(x, y) {
          if y != k { NameTransitive(x, k, y); }
        }
        assert IsFirstName(x, s);
      } else {
        assert IsFirstName(k, s);
      }
    }
  }

  /** A name map drained in ascending order. */
  method DrainNames(m: map<string, Skey>) returns (pairs: seq<(string, Skey)>)
    ensures NamesAscend(pairs) && PairsToMap(pairs) == m
  {
    hide Decode, Encode;
    pairs := [];
    var rest := m.Keys;
    while rest != {}
      invariant rest <= m.Keys
      invariant NamesAscend(pairs) && PairsToMap(pairs) == m - rest
      invariant forall i, n | 0 <= i < |pairs| && n in rest :: NameLess(pairs[i].0, n)
      decreases |rest|
    {
      HasFirstName(rest);
      var n :| n in rest && forall x | x in rest && x != n :: NameLess(n, x);
      DrainStep(m, rest, n);
      assert (pairs + [(n, m[n])])[..|pairs|] == pairs;
      pairs := pairs + [(n, m[n])];
      rest := rest - {n};
    }
    assert m - {} == m;
  }

  lemma DrainStep<K, V>(m: map<K, V>, rest: set<K>, k: K)
    requires k in rest && rest <= m.Keys
    ensures (m - rest)[k := m[k]] == m - (rest - {k})
  {}

  /** The entry a node contributes to the archive, its scalar placed past `data`. */
  method Archive(node: MemNode, data: bytes) returns (arch: ArchNode, data': bytes)
    ensures data <= data' && InBounds(arch, |data'|)
    ensures arch.ALeaf? ==> |data| <= arch.offset
    ensures arch.AObject? ==> NamesAscend(arch.pairs)
    ensures ViewOf(arch, data') == Some(node) && Stored(arch, data')
  {
    data' := data;
    match node
    case MObject(children) =>
      var pairs := DrainNames(children);
      arch := AObject(pairs);
    case MList(items) =>
      arch := AList(items);
    case MLeaf(scalar) =>
      var encoded := Encode(scalar);
      arch := ALeaf(|data|, |encoded|);
      data' := data + encoded;
      LeafPlaced(scalar, data);
  }

  lemma LeafPlaced(s: Scalar, data: bytes)
    ensures ViewOf(ALeaf(|data|, |Encode(s)|), data + Encode(s)) == Some(MLeaf(s))
    ensures Stored(ALeaf(|data|, |Encode(s)|), data + Encode(s))
  {
    hide Decode, Encode;
    DecodeEncode(s);
    assert (data + Encode(s))[|data|..|data| + |Encode(s)|] == Encode(s);
  }

  /** An empty store archives an empty root object. */
  function Rooted(m: MemNodes): MemNodes {
    if m == map[] then map[ROOT := MObject(map[])] else m
  }

  /** Serializes an in-memory table, sorted by key. */
  method IntoBlob(m: MemNodes) returns (b: Blob)
    ensures WellFormed(b) && FromBlob(b) == Ok(Rooted(m))
  {
    var source := Rooted(m);
    var rest := source.Keys;
    b := Blob([], []);
    assert source - rest == map[];
    while rest != {}
      invariant rest <= source.Keys
      invariant WellFormed(b) && FromBlob(b) == Ok(source - rest)
      invariant forall k | k in rest :: Precedes(b, k)
      decreases |rest|
    {
      HasLeast(rest);
      var k :| k in rest && forall x | x in rest :: k <= x;
      b := ArchiveNext(b, k, source[k]);
      DrainStep(source, rest, k);
      rest := rest - {k};
    }
    assert source - {} == source;
  }

  predicate Precedes(b: Blob, k: Skey) { b.nodes != [] ==> b.nodes[|b.nodes| - 1].0 < k }

  /** Adds the node with the next key in order. */
  method ArchiveNext(b: Blob, k: Skey, node: MemNode) returns (b': Blob)
    requires WellFormed(b) && FromBlob(b).Ok?
    requires Precedes(b, k)
    ensures WellFormed(b') && FromBlob(b') == Ok(FromBlob(b).value[k := node])
    ensures forall x | k < x :: Precedes(b', x)
  {
    var arch, data := Archive(node, b.bytes);
    b' := Blob(b.nodes + [(k, arch)], data);
    AppendNode(b, b', k, arch, node);
  }

  lemma AppendNode(b: Blob, b': Blob, k: Skey, arch: ArchNode, node: MemNode)
    requires WellFormed(b) && FromBlob(b).Ok?
    requires b'.nodes == b.nodes + [(k, arch)] && b.bytes <= b'.bytes
    requires Precedes(b, k)
    requires InBounds(arch, |b'.bytes|) && (arch.ALeaf? ==> |b.bytes| <= arch.offset)
    requires arch.AObject? ==> NamesAscend(arch.pairs)
    requires ViewOf(arch, b'.bytes) == Some(node) && Stored(arch, b'.bytes)
    ensures WellFormed(b') && FromBlob(b') == Ok(FromBlob(b).value[k := node])
  {
    hide Decode, Encode;
    AppendViews(b, b', k, arch);
    AppendSpans(b, b', k, arch);
    AppendOrder(b.nodes, k, arch);
    GatherExtends(b.nodes, Views(b), (k, arch), Some(node), |b.nodes|);
  }

  lemma AppendOrder(nodes: seq<(Skey, ArchNode)>, k: Skey, arch: ArchNode)
    requires KeysAscend(nodes) && LinksSorted(nodes) && (nodes != [] ==> nodes[|nodes| - 1].0 < k)
    requires arch.AObject? ==> NamesAscend(arch.pairs)
    ensures KeysAscend(nodes + [(k, arch)]) && LinksSorted(nodes + [(k, arch)])
  {}

  lemma AppendViews(b: Blob, b': Blob, k: Skey, arch: ArchNode)
    requires SpansStored(b.nodes, b.bytes) && b'.nodes == b.nodes + [(k, arch)] && b.bytes <= b'.bytes
    ensures Views(b') == Views(b) + [ViewOf(arch, b'.bytes)]
  {
    hide Decode, Encode;
    forall i | 0 <= i < |b.nodes| ensures Views(b')[i] == Views(b)[i] {
      ViewExtends(b.nodes[i].1, b.bytes, b'.bytes);
    }
  }

  lemma AppendSpans(b: Blob, b': Blob, k: Skey, arch: ArchNode)
    requires SpansStored(b.nodes, b.bytes) && SpansApart(b.nodes)
    requires b'.nodes == b.nodes + [(k, arch)] && b.bytes <= b'.bytes
    requires InBounds(arch, |b'.bytes|) && (arch.ALeaf? ==> |b.bytes| <= arch.offset) && Stored(arch, b'.bytes)
    ensures SpansStored(b'.nodes, b'.bytes) && SpansApart(b'.nodes)
  {
    hide Decode, Encode;
    forall i | 0 <= i < |b.nodes| ensures Stored(b'.nodes[i].1, b'.bytes) {
      assert b'.nodes[i] == b.nodes[i];
      StoredExtends(b.nodes[i].1, b.bytes, b'.bytes);
    }
    forall i | 0 <= i < |b.nodes| ensures Apart(b'.nodes[i].1, arch) {
      assert InBounds(b.nodes[i].1, |b.bytes|);
    }
  }

  lemma {:induction false} GatherExtends(nodes: seq<(Skey, ArchNode)>, views: seq<Option<MemNode>>,
                                         entry: (Skey, ArchNode), view: Option<MemNode>, n: nat)
    requires n <= |nodes| == |views|
    ensures Gather(nodes + [entry], views + [view], n) == Gather(nodes, views, n)
  {
    if n > 0 {
      GatherExtends(nodes, views, entry, view, n - 1);
    }
  }

  lemma PrefixSlice(data: bytes, more: bytes, from: nat, to: nat)
    requires data <= more && from <= to <= |data|
    ensures more[from..to] == data[from..to]
  {}

  lemma ViewExtends(arch: ArchNode, data: bytes, more: bytes)
    requires InBounds(arch, |data|) && data <= more
    ensures ViewOf(arch, more) == ViewOf(arch, data)
  {
    hide Decode;
    if arch.ALeaf? { PrefixSlice(data, more, arch.offset, arch.offset + arch.len); }
  }

  lemma StoredExtends(arch: ArchNode, data: bytes, more: bytes)
    requires InBounds(arch, |data|) && data <= more && Stored(arch, data)
    ensures Stored(arch, more)
  {
    hide Decode, Encode;
    if arch.ALeaf? { PrefixSlice(data, more, arch.offset, arch.offset + arch.len); }
  }

  // ----- editing one leaf in place --------------------------------------------

  function Splice(data: bytes, offset: nat, patch: bytes): (r: bytes)
    requires offset + |patch| <= |data|
    ensures |r| == |data|
  {
    data[..offset] + patch + data[offset + |patch|..]
  }

  lemma SpliceReads(data: bytes, offset: nat, patch: bytes, at: nat, len: nat)
    requires offset + |patch| <= |data| && at + len <= |data|
    ensures at == offset && len == |patch| ==> Splice(data, offset, patch)[at..at + len] == patch
    ensures at + len <= offset || offset + |patch| <= at ==>
              Splice(data, offset, patch)[at..at + len] == data[at..at + len]
  {}

  /** Overwriting a leaf's own bytes with an equally long encoding changes that
      leaf and nothing else: every other leaf, link and key is untouched. */
  lemma SpliceOneLeaf(b: Blob, key: Skey, s: Scalar)
    requires WellFormed(b) && FromBlob(b).Ok? && LeafByteSpan(b, key).Some?
    requires LeafByteSpan(b, key).value.1 == |Encode(s)|
    ensures InBounds(Lookup(b, key).value, |b.bytes|)
    ensures WellFormed(Blob(b.nodes, Splice(b.bytes, LeafByteSpan(b, key).value.0, Encode(s))))
    ensures FromBlob(Blob(b.nodes, Splice(b.bytes, LeafByteSpan(b, key).value.0, Encode(s))))
         == Ok(FromBlob(b).value[key := MLeaf(s)])
  {
    hide Decode, Encode;
    var at := FindKey(b.nodes, key, 0, |b.nodes|).value;
    var b' := Blob(b.nodes, Splice(b.bytes, b.nodes[at].1.offset, Encode(s)));
    assert forall i | 0 <= i < |b.nodes| && i != at :: Apart(b.nodes[i].1, b.nodes[at].1);
    SpliceStored(b, b', at, s);
    SpliceViews(b, b', at, s);
    GatherUpdate(b.nodes, Views(b), at, MLeaf(s), |b.nodes|);
  }

  lemma SpliceStored(b: Blob, b': Blob, at: nat, s: Scalar)
    requires WellFormed(b) && at < |b.nodes| && b.nodes[at].1.ALeaf? && b.nodes[at].1.len == |Encode(s)|
    requires b' == Blob(b.nodes, Splice(b.bytes, b.nodes[at].1.offset, Encode(s)))
    ensures SpansStored(b'.nodes, b'.bytes)
  {
    hide Decode, Encode;
    forall i | 0 <= i < |b.nodes| ensures Stored(b'.nodes[i].1, b'.bytes) {
      assert Stored(b.nodes[i].1, b.bytes);
      if b.nodes[i].1.ALeaf? {
        SpliceReads(b.bytes, b.nodes[at].1.offset, Encode(s), b.nodes[i].1.offset, b.nodes[i].1.len);
        if i == at {
          SpliceHere(b.nodes[at].1, b.bytes, s);
        } else {
          assert Apart(b.nodes[i].1, b.nodes[at].1);
        }
      }
    }
  }

  lemma SpliceViews(b: Blob, b': Blob, at: nat, s: Scalar)
    requires WellFormed(b) && at < |b.nodes| && b.nodes[at].1.ALeaf? && b.nodes[at].1.len == |Encode(s)|
    requires b' == Blob(b.nodes, Splice(b.bytes, b.nodes[at].1.offset, Encode(s)))
    ensures Views(b') == Views(b)[at := Some(MLeaf(s))]
  {
    hide Decode, Encode;
    forall i | 0 <= i < |b.nodes| ensures Views(b')[i] == if i == at then Some(MLeaf(s)) else Views(b)[i] {
      if i == at {
        SpliceHere(b.nodes[at].1, b.bytes, s);
      } else {
        assert Apart(b.nodes[i].1, b.nodes[at].1);
        SpliceAway(b.nodes[i].1, b.nodes[at].1, b.bytes, s);
      }
    }
  }

  lemma SpliceHere(span: ArchNode, data: bytes, s: Scalar)
    requires span.ALeaf? && span.len == |Encode(s)| && InBounds(span, |data|)
    ensures ViewOf(span, Splice(data, span.offset, Encode(s))) == Some(MLeaf(s))
  {
    hide Decode, Encode;
    SpliceReads(data, span.offset, Encode(s), span.offset, span.len);
    DecodeEncode(s);
  }

  lemma SpliceAway(arch: ArchNode, span: ArchNode, data: bytes, s: Scalar)
    requires span.ALeaf? && span.len == |Encode(s)| && InBounds(span, |data|)
    requires InBounds(arch, |data|) && Apart(arch, span)
    ensures ViewOf(arch, Splice(data, span.offset, Encode(s))) == ViewOf(arch, data)
  {
    hide Decode, Encode;
    if arch.ALeaf? { SpliceReads(data, span.offset, Encode(s), arch.offset, arch.len); }
  }

  lemma UpdateOrder(m: MemNodes, j: Skey, x: MemNode, k: Skey, y: MemNode)
    ensures j != k ==> m[j := x][k := y] == m[k := y][j := x]
    ensures j == k ==> m[k := y][j := x] == m[k := x]
  {}

  lemma {:induction false} GatherUpdate(nodes: seq<(Skey, ArchNode)>, views: seq<Option<MemNode>>,
                                        at: nat, cell: MemNode, n: nat)
    requires KeysAscend(nodes) && n <= |nodes| == |views| && at < |nodes| && Gather(nodes, views, n).Some?
    ensures Gather(nodes, views[at := Some(cell)], n)
         == Some(if at < n then Gather(nodes, views, n).value[nodes[at].0 := cell] else Gather(nodes, views, n).value)
  {
    if n > 0 {
      GatherUpdate(nodes, views, at, cell, n - 1);
      UpdateOrder(Gather(nodes, views, n - 1).value, nodes[at].0, cell, nodes[n - 1].0, views[n - 1].value);
    }
  }

  /** A leaf's span is as long as its scalar's encoding. */
  lemma SpanLength(b: Blob, key: Skey)
    requires WellFormed(b) && FromBlob(b).Ok?
    ensures LeafByteSpan(b, key).Some? <==> key in FromBlob(b).value && FromBlob(b).value[key].MLeaf?
    ensures LeafByteSpan(b, key).Some? ==> LeafByteSpan(b, key).value.1 == |Encode(FromBlob(b).value[key].scalar)|
  {
    hide Decode, Encode;
    LookupAgrees(b, key);
    match FindKey(b.nodes, key, 0, |b.nodes|)
    case Some(at) => assert Stored(b.nodes[at].1, b.bytes);
    case None =>
  }
}
