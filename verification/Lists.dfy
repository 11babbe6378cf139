/** The list accessor: its operations are loops of path-addressed removals, moves and
    swaps, proved to be the sequence operations their names promise, keys included. */
module Lists {
  import opened Basics
  import opened Scalars
  import opened Skeys
  import opened Paths
  import opened Values
  import opened Trees
  import opened TreeLaws
  import opened Backends
  import opened Walks
  import opened Edits
  import opened Repacking
  import opened TreeStores
  import opened Removal
  import opened Containers
  import opened Elsewhere
  import opened Storing
  import Unpacking

  // ----- removing one element ---------------------------------------------------

  function Without<T>(items: seq<T>, i: nat): seq<T> {
    if i < |items| then items[..i] + items[i + 1..] else items
  }

  /** The elements from `lo` up to `hi` cut out, as far as there are any. */
  function CutOut<T>(items: seq<T>, lo: nat, hi: nat): seq<T> {
    if hi <= lo || |items| <= lo then items
    else items[..lo] + items[Least(hi, |items|)..]
  }

  lemma ListPath(base: Path, i: nat)
    ensures Parent(base + [Index(i)]) == base && Last(base + [Index(i)]) == Index(i)
  {}

  lemma ElementAt(t: Tree, base: Path, i: nat)
    requires At(t, base).Some? && At(t, base).value.List?
    ensures At(t, base + [Index(i)]) == if i < |At(t, base).value.items| then Some(At(t, base).value.items[i]) else None
  {
    AtSplit(t, base, [Index(i)]);
    ChildAt(At(t, base).value, Index(i));
  }

  /** No packed entity is in the way of an element's path. */
  lemma ElementLocated(t: Tree, base: Path, i: nat)
    requires At(t, base).Some? && At(t, base).value.List?
    ensures !(Locate(t, base + [Index(i)]).Inside? && Locate(t, base + [Index(i)]).rel != [])
  {
    AtIsOpen(t, base);
    var u := At(t, base).value;
    assert Open(u, [Index(i)]) by { if Child(u, Index(i)).Some? { assert Open(Child(u, Index(i)).value, [Index(i)][1..]); } }
    OpenSplit(t, base, [Index(i)]);
  }

  lemma RemoveElement(t: Tree, base: Path, i: nat)
    requires IsList(Some(t), base)
    ensures Removes(Some(t), base + [Index(i)]) <==> i < |At(t, base).value.items|
    ensures RemoveT(Some(t), base + [Index(i)]) == ReorderT(Some(t), base, Without(At(t, base).value.items, i))
  {
    hide Subst, Locate, RemoveWhole;
    ElementAt(t, base, i);
    ElementLocated(t, base, i);
    RemoveElementWhole(t, base, i);
  }

  lemma RemoveElementWhole(t: Tree, base: Path, i: nat)
    requires IsList(Some(t), base)
    ensures RemoveWhole(Some(t), base + [Index(i)]) == ReorderT(Some(t), base, Without(At(t, base).value.items, i))
  {
    hide Subst, Locate;
    ListPath(base, i);
    ElementAt(t, base, i);
    if i >= |At(t, base).value.items| { Unpacking.SubstSame(t, base); }
  }

  lemma ReorderedList(t: Option<Tree>, base: Path, now: seq<Tree>)
    requires IsList(t, base)
    ensures IsList(ReorderT(t, base, now), base)
    ensures AtDoc(ReorderT(t, base, now), base).value == List(AtDoc(t, base).value.key, now)
  {}

  lemma ReorderTwice(t: Option<Tree>, base: Path, a: seq<Tree>, b: seq<Tree>)
    requires IsList(t, base)
    ensures ReorderT(ReorderT(t, base, a), base, b) == ReorderT(t, base, b)
  {
    SubstTwice(t.value, base, List(AtDoc(t, base).value.key, a), List(AtDoc(t, base).value.key, b));
  }

  lemma {:induction false} SubstTwice(t: Tree, p: Path, a: Tree, b: Tree)
    requires At(t, p).Some?
    ensures Subst(Subst(t, p, a), p, b) == Subst(t, p, b)
    decreases p
  {
    if p != [] {
      var c := Child(t, p[0]).value;
      SubstTwice(c, p[1..], a, b);
      match t
      case List(_, items) =>
        var i := p[0].index;
        assert items[i := Subst(c, p[1..], a)][i := Subst(c, p[1..], b)] == items[i := Subst(c, p[1..], b)];
      case Object(_, fields) =>
        var n := p[0].name;
        assert fields[n := Subst(c, p[1..], a)][n := Subst(c, p[1..], b)] == fields[n := Subst(c, p[1..], b)];
    }
  }

  function Loaded(items: seq<Tree>): (values: seq<Value>)
    ensures |values| == |items|
    ensures forall i | 0 <= i < |items| :: values[i] == Denote(items[i])
  {
    seq(|items|, i requires 0 <= i < |items| => Denote(items[i]))
  }

  /** What rearranging a list's elements does to the document. */
  lemma ReorderDenotes(t: Tree, base: Path, now: seq<Tree>)
    requires IsList(Some(t), base)
    ensures SetIn(Denote(t), base, VList(Loaded(now))) == Some(Denote(ReorderT(Some(t), base, now).value))
  {
    hide SetIn, Subst;
    var u := List(At(t, base).value.key, now);
    AtIsOpen(t, base);
    DenoteSubst(t, base, u);
    assert Denote(u).items == Loaded(now);
  }

  // ----- the accessor -----------------------------------------------------------

  /** A write accessor for the list under `key`, which sits at `base`. */
  class SeqMut {
    const s: TreeStore
    const base: Path
    const key: Skey

    constructor (store: TreeStore, at: Path, list: Skey)
      ensures s == store && base == at && key == list
    {
      s, base, key := store, at, list;
    }

    ghost predicate Valid()
      reads this, s
    {
      s.Valid() && s.store.Engine? && IsList(s.tree, base) && AtDoc(s.tree, base).value.key == key
    }

    ghost function Items(): seq<Tree>
      reads this, s
      requires Valid()
    {
      AtDoc(s.tree, base).value.items
    }

    /** The table is as `t` was, but for the elements of this list. */
    ghost predicate Becomes(t: Option<Tree>, items: seq<Tree>)
      reads this, s
    {
      Valid() && IsList(t, base) && s.tree == ReorderT(t, base, items)
    }

    method Len() returns (n: nat)
      requires Valid()
      ensures n == |Items()|
    {
      AtRep(s.store, s.tree.value, base);
      n := |s.store.NodeOf(key).value.items|;
    }

    method Load(i: nat) returns (v: Option<Value>)
      requires Valid()
      ensures v == if i < |Items()| then Some(Denote(Items()[i])) else None
    {
      hide Rep, Distinct, Keys, Denote;
      ElementAt(s.tree.value, base, i);
      ElementLocated(s.tree.value, base, i);
      LocateReadsDocument(s.tree.value, base + [Index(i)]);
      ReadsElement(s.tree.value, base, i);
      TableHeld(s.store, s.tree);
      v := ReadValue(s.store, base + [Index(i)], s.tree);
    }

    method RemoveAt(i: nat) returns (removed: bool)
      requires Valid()
      modifies s`store, s`tree
      ensures removed <==> i < |old(Items())|
      ensures Becomes(old(s.tree), Without(old(Items()), i))
    {
      hide Rep, Distinct, Keys, RemoveT, Removes, Subst;
      RemoveElement(s.tree.value, base, i);
      ReorderedList(s.tree, base, Without(Items(), i));
      removed := RemovePathAt(s, base + [Index(i)]);
    }

    method Move(from: nat, to: nat)
      requires Valid() && from < |Items()|
      modifies s`store, s`tree
      ensures Becomes(old(s.tree), Moved(old(Items()), from, to))
    {
      hide Rep, Distinct, Keys, Subst, Moved;
      ReorderedList(s.tree, base, Moved(Items(), from, to));
      var r := ListMove(s, key, from, to, base);
    }

    method Swap(i: nat, j: nat) returns (r: Result<()>)
      requires Valid()
      modifies s`store, s`tree
      ensures r.Ok? <==> i < |old(Items())| && j < |old(Items())|
      ensures r.Ok? ==> Becomes(old(s.tree), Swapped(old(Items()), i, j))
      ensures r.Err? ==> s.store == old(s.store) && s.tree == old(s.tree)
    {
      hide Rep, Distinct, Keys, Subst;
      if i < |Items()| && j < |Items()| { ReorderedList(s.tree, base, Swapped(Items(), i, j)); }
      r := ListSwap(s, key, i, j, base);
    }

    /** Removes the elements of a range by removing its first position over and over. */
    method RemoveRange(lo: nat, hi: nat)
      requires Valid()
      modifies s`store, s`tree
      ensures Becomes(old(s.tree), CutOut(old(Items()), lo, hi))
    {
      hide Rep, Distinct, Keys, Subst;
      ghost var t, items := s.tree, Items();
      Unpacking.SubstSame(t.value, base);
      var i := lo;
      while i < hi
        invariant lo <= i && (i <= hi || i == lo)
        invariant Becomes(t, CutOut(items, lo, i))
      {
        ghost var before := s.tree;
        ReorderedList(t, base, CutOut(items, lo, i));
        var removed := RemoveAt(lo);
        CutMoreOut(items, lo, i);
        ReorderTwice(t, base, CutOut(items, lo, i), Without(CutOut(items, lo, i), lo));
        ReorderedList(t, base, CutOut(items, lo, i + 1));
        if !removed {
          CutShort(items, lo, i, hi);
          return;
        }
        i := i + 1;
      }
    }

    /** Removes an element by swapping the last one into its place. */
    method SwapRemove(i: nat) returns (v: Option<Value>)
      requires Valid()
      modifies s`store, s`tree
      ensures v == if i < |old(Items())| then Some(Denote(old(Items())[i])) else None
      ensures i >= |old(Items())| ==> s.tree == old(s.tree)
      ensures i < |old(Items())| ==> Becomes(old(s.tree), SwapRemoved(old(Items()), i))
    {
      hide Rep, Distinct, Keys, Denote, Subst;
      var len := Len();
      if i >= len {
        return None;
      }
      ghost var t, items := s.tree, Items();
      v := Load(i);
      var last := len - 1;
      if i != last {
        var swapped := Swap(i, last);
        ReorderedList(t, base, Swapped(items, i, last));
      } else {
        Unpacking.SubstSame(t.value, base);
        assert Swapped(items, i, last) == items;
      }
      var removed := RemoveAt(last);
      ReorderTwice(t, base, Swapped(items, i, last), Without(Swapped(items, i, last), last));
      SwappedOut(items, i);
    }

    /** Removes and returns the elements of a range, all of which must exist. */
    method Drain(lo: nat, hi: nat) returns (r: Result<seq<Value>>)
      requires Valid()
      modifies s`store, s`tree
      ensures r.Ok? <==> hi <= lo || hi <= |old(Items())|
      ensures r.Ok? ==> r.value == (if hi <= lo then [] else Loaded(old(Items())[lo..hi])) && Becomes(old(s.tree), CutOut(old(Items()), lo, hi))
      ensures r.Err? ==> s.store == old(s.store) && s.tree == old(s.tree)
    {
      hide Rep, Distinct, Keys, Denote, Subst;
      var drained: seq<Value> := [];
      var i := lo;
      while i < hi
        invariant lo <= i && (i <= hi || i == lo) && s.tree == old(s.tree) && s.store == old(s.store) && Valid()
        invariant i > lo ==> i <= |Items()|
        invariant |drained| == i - lo && forall j | 0 <= j < |drained| :: drained[j] == Denote(Items()[lo + j])
      {
        var v := Load(i);
        if v.None? {
          return Err(InvalidPath);
        }
        drained := drained + [v.value];
        i := i + 1;
      }
      RemoveRange(lo, hi);
      r := Ok(drained);
    }

    /** Keeps the elements whose value passes: failing positions are noted front to
        back and removed back to front, so that none shifts before its turn. */
    method Retain(keep: Value -> bool)
      requires Valid()
      modifies s`store, s`tree
      ensures Becomes(old(s.tree), Passing(old(Items()), keep))
    {
      hide Rep, Distinct, Keys, Denote, Subst;
      ghost var t, items := s.tree, Items();
      var drop := Failing(keep);
      Unpacking.SubstSame(t.value, base);
      var n := |drop|;
      assert drop[n..] == [];
      WithoutNone(items);
      while n > 0
        invariant 0 <= n <= |drop|
        invariant Becomes(t, WithoutAll(items, drop[n..]))
      {
        n := n - 1;
        ghost var now := WithoutAll(items, drop[n + 1..]);
        ReorderedList(t, base, now);
        var removed := RemoveAt(drop[n]);
        ReorderTwice(t, base, now, Without(now, drop[n]));
        assert drop[n..][0] == drop[n] && drop[n..][1..] == drop[n + 1..];
      }
      assert drop[0..] == drop;
      AllFailing(items, keep, drop);
    }

    method Failing(keep: Value -> bool) returns (drop: seq<nat>)
      requires Valid()
      ensures forall i, j | 0 <= i < j < |drop| :: drop[i] < drop[j]
      ensures forall i | 0 <= i < |drop| :: drop[i] < |Items()|
      ensures forall k: nat | k < |Items()| :: k in drop <==> !keep(Denote(Items()[k]))
    {
      hide Rep, Distinct, Keys, Denote;
      var len := Len();
      drop := [];
      for i := 0 to len
        invariant forall j, k | 0 <= j < k < |drop| :: drop[j] < drop[k]
        invariant forall j | 0 <= j < |drop| :: drop[j] < i
        invariant forall k: nat | k < i :: k in drop <==> !keep(Denote(Items()[k]))
      {
        var v := Load(i);
        if !keep(v.value) {
          drop := drop + [i];
        }
      }
    }

    /** Inserts a value before the element at `index`, or at the end: it is stored as a
        new last element and then moved. Every other element keeps its key and order. */
    method InsertAt(index: nat, v: Value) returns (ghost added: Tree)
      requires Valid() && GoodNames(v)
      modifies s
      ensures Valid() && Denote(added) == v
      ensures Items() == old(Items())[..Least(index, |old(Items())|)] + [added] + old(Items())[Least(index, |old(Items())|)..]
      ensures forall q | !(base <= q) && !(q <= base) :: AtDoc(s.tree, q) == AtDoc(old(s.tree), q)
    {
      hide Rep, Distinct, Keys, Denote, Subst, Wrote, SetIn;
      ghost var t, next, items := s.tree, s.issued, Items();
      var end := Len();
      var at := base + [Index(end)];
      ElementAt(t.value, base, end);
      AppendReady(t.value, base, v);
      assert [] + at == at;
      var wrote := WriteValue(s, ROOT, at, v, []);
      assert wrote.Ok?;
      added := Appended(t, next, s.tree, s.issued, base, v);
      ghost var u, issued := s.tree, s.issued;
      Move(end, index);
      ReorderedList(u, base, Moved(items + [added], end, index));
      MoveIsInsert(items, added, index);
      ElsewhereAfter(t, next, u, issued, base, v, Moved(items + [added], end, index));
    }
  }

  lemma ReadsElement(t: Tree, base: Path, i: nat)
    requires At(t, base).Some? && At(t, base).value.List? && Distinct(t)
    ensures SubDoc(Some(Denote(t)), base + [Index(i)])
         == if i < |At(t, base).value.items| then Some(Denote(At(t, base).value.items[i])) else None
  {
    hide Distinct;
    ElementAt(t, base, i);
    AtIsOpen(t, base);
    var u := At(t, base).value;
    assert Open(u, [Index(i)]) by { if Child(u, Index(i)).Some? { assert Open(Child(u, Index(i)).value, [Index(i)][1..]); } }
    OpenSplit(t, base, [Index(i)]);
    OpenRead(t, base + [Index(i)]);
  }

  // ----- sequence facts ---------------------------------------------------------

  lemma CutMoreOut<T>(items: seq<T>, lo: nat, i: nat)
    requires lo <= i
    ensures Without(CutOut(items, lo, i), lo) == CutOut(items, lo, i + 1)
    ensures lo < |CutOut(items, lo, i)| <==> i < |items|
  {}

  lemma CutShort<T>(items: seq<T>, lo: nat, i: nat, hi: nat)
    requires lo <= i < hi && |items| <= i
    ensures CutOut(items, lo, i + 1) == CutOut(items, lo, hi)
  {}

  function SwapRemoved<T>(items: seq<T>, i: nat): seq<T>
    requires i < |items|
  {
    items[i := items[|items| - 1]][..|items| - 1]
  }

  lemma SwappedOut<T>(items: seq<T>, i: nat)
    requires i < |items|
    ensures Without(Swapped(items, i, |items| - 1), |items| - 1) == SwapRemoved(items, i)
  {}

  function Passing(items: seq<Tree>, keep: Value -> bool): seq<Tree> {
    if items == [] then []
    else
      var n := |items| - 1;
      if keep(Denote(items[n])) then Passing(items[..n], keep) + [items[n]] else Passing(items[..n], keep)
  }

  /** The positions removed from the last to the first. */
  function WithoutAll<T>(items: seq<T>, drop: seq<nat>): seq<T> {
    if drop == [] then items else Without(WithoutAll(items, drop[1..]), drop[0])
  }

  lemma WithoutNone<T>(items: seq<T>)
    ensures WithoutAll(items, []) == items
  {}

  lemma {:induction false} WithoutFront(items: seq<Tree>, x: Tree, drop: seq<nat>)
    requires (forall i | 0 <= i < |drop| :: drop[i] < |items|) && forall i, j | 0 <= i < j < |drop| :: drop[i] < drop[j]
    ensures |WithoutAll(items, drop)| + |drop| == |items|
    ensures drop != [] ==> drop[0] <= |WithoutAll(items, drop)|
    ensures WithoutAll(items + [x], drop) == WithoutAll(items, drop) + [x]
    decreases |drop|
  {
    if drop != [] {
      WithoutFront(items, x, drop[1..]);
      var now := WithoutAll(items, drop[1..]);
      Spread(drop, |items|);
      assert drop[0] < |now|;
      assert (now + [x])[..drop[0]] == now[..drop[0]] && (now + [x])[drop[0] + 1..] == now[drop[0] + 1..] + [x];
    }
  }

  /** Ascending positions below `n` leave room below the first of them. */
  lemma {:induction false} Spread(drop: seq<nat>, n: nat)
    requires drop != [] && (forall i | 0 <= i < |drop| :: drop[i] < n) && forall i, j | 0 <= i < j < |drop| :: drop[i] < drop[j]
    ensures drop[0] + |drop| <= n
  {
    if |drop| > 1 { Spread(drop[1..], n); }
  }

  lemma {:induction false} WithoutLast(items: seq<Tree>, x: Tree, drop: seq<nat>)
    requires (forall i | 0 <= i < |drop| :: drop[i] < |items|) && forall i, j | 0 <= i < j < |drop| :: drop[i] < drop[j]
    ensures WithoutAll(items + [x], drop + [|items|]) == WithoutAll(items, drop)
    decreases |drop|
  {
    if drop == [] {
      assert [|items|][1..] == [] && Without(items + [x], |items|) == items;
      assert WithoutAll(items + [x], [|items|]) == Without(WithoutAll(items + [x], []), |items|);
      assert [] + [|items|] == [|items|];
    } else {
      WithoutLast(items, x, drop[1..]);
      assert (drop + [|items|])[1..] == drop[1..] + [|items|] && (drop + [|items|])[0] == drop[0];
    }
  }

  /** Removing exactly the failing positions leaves the passing elements, in order. */
  lemma {:induction false} AllFailing(items: seq<Tree>, keep: Value -> bool, drop: seq<nat>)
    requires forall i, j | 0 <= i < j < |drop| :: drop[i] < drop[j]
    requires forall i | 0 <= i < |drop| :: drop[i] < |items|
    requires forall k: nat | k < |items| :: k in drop <==> !keep(Denote(items[k]))
    ensures WithoutAll(items, drop) == Passing(items, keep)
    decreases |items|
  {
    hide Denote;
    if items == [] {
      assert drop == [];
    } else {
      var n := |items| - 1;
      var front := items[..n];
      assert items == front + [items[n]];
      if keep(Denote(items[n])) {
        assert n !in drop;
        forall i | 0 <= i < |drop| ensures drop[i] < n { assert drop[i] in drop; }
        AllFailing(front, keep, drop);
        WithoutFront(front, items[n], drop);
      } else {
        var m := |drop| - 1;
        LastDropped(drop, n);
        var less := drop[..m];
        forall k: nat | k < n ensures k in less <==> !keep(Denote(front[k])) {
          if k in drop { var j :| 0 <= j < |drop| && drop[j] == k; assert less[j] == k; }
        }
        AllFailing(front, keep, less);
        WithoutLast(front, items[n], less);
        assert drop == less + [n];
      }
    }
  }

  lemma LastDropped(drop: seq<nat>, n: nat)
    requires n in drop && (forall i | 0 <= i < |drop| :: drop[i] <= n) && forall i, j | 0 <= i < j < |drop| :: drop[i] < drop[j]
    ensures drop[|drop| - 1] == n && forall i | 0 <= i < |drop| - 1 :: drop[i] < n
  {
    var last := drop[|drop| - 1];
    forall i | 0 <= i < |drop| - 1 ensures drop[i] < last {}
  }

  // ----- insertion --------------------------------------------------------------

  lemma AppendReady(t: Tree, base: Path, x: Value)
    requires IsList(Some(t), base)
    ensures Open(t, base + [Index(|At(t, base).value.items|)])
    ensures SetIn(Denote(t), base + [Index(|At(t, base).value.items|)], x).Some?
  {
    hide Denote;
    var n := |At(t, base).value.items|;
    var u := At(t, base).value;
    var full := base + [Index(n)];
    AtIsOpen(t, base);
    assert Open(u, [Index(n)]);
    OpenSplit(t, base, [Index(n)]);
    OpenRead(t, base);
    ShortList(u);
    AppendStep(Denote(u), x);
    SetBelow(Denote(t), base, [Index(n)], x);
    SetExisting(Denote(t), base, SetIn(Denote(u), [Index(n)], x).value);
  }

  lemma AppendStep(v: Value, x: Value)
    requires v.VList?
    ensures SetIn(v, [Index(|v.items|)], x) == Some(VList(v.items + [x]))
  {
    assert BuildFresh([Index(|v.items|)][1..], x) == Some(x);
  }

  /** After the write the list has one more element, holding the value. */
  lemma Appended(t: Option<Tree>, next: Skey, t': Option<Tree>, next': Skey, base: Path, v: Value) returns (added: Tree)
    requires IsList(t, base) && Wrote(t, next, t', next', base + [Index(|AtDoc(t, base).value.items|)], v)
    ensures IsList(t', base) && AtDoc(t', base).value == List(AtDoc(t, base).value.key, AtDoc(t, base).value.items + [added])
    ensures Denote(added) == v
  {
    hide Denote, Extends, SetIn;
    var items := AtDoc(t, base).value.items;
    var n := |items|;
    var full := base + [Index(n)];
    AtSplit(t'.value, base, [Index(n)]);
    var u := At(t'.value, base).value;
    ChildAt(u, Index(n));
    added := Child(u, Index(n)).value;
    assert base < full && KeyAt(t', base) == KeyAt(t, base);
    forall i | 0 <= i < n ensures u.items[i] == items[i] {
      OtherElement(t, t', base, i, n);
    }
    AppendLength(t, next, t', next', base, v);
    AddedDenotes(t, next, t', next', base, v);
    assert u.items == items + [added];
  }

  lemma OtherElement(t: Option<Tree>, t': Option<Tree>, base: Path, i: nat, n: nat)
    requires IsList(t, base) && t'.Some? && At(t'.value, base).Some? && At(t'.value, base).value.List? && i < n
    requires i < |AtDoc(t, base).value.items| && i < |At(t'.value, base).value.items|
    requires Untouched(t, t', base + [Index(n)])
    ensures At(t'.value, base).value.items[i] == AtDoc(t, base).value.items[i]
  {
    var q, full := base + [Index(i)], base + [Index(n)];
    assert q[|base|] != full[|base|];
    assert !Comparable(full, q);
    ElementAt(t.value, base, i);
    ElementAt(t'.value, base, i);
  }

  lemma AppendLength(t: Option<Tree>, next: Skey, t': Option<Tree>, next': Skey, base: Path, v: Value)
    requires IsList(t, base) && Wrote(t, next, t', next', base + [Index(|AtDoc(t, base).value.items|)], v)
    requires At(t'.value, base).Some? && At(t'.value, base).value.List?
    ensures |At(t'.value, base).value.items| == |AtDoc(t, base).value.items| + 1
  {
    hide Denote, Extends, SetIn, Untouched;
    var u, w := AtDoc(t, base).value, At(t'.value, base).value;
    var n := |u.items|;
    AtIsOpen(t.value, base);
    OpenRead(t.value, base);
    AtIsOpen(t'.value, base);
    OpenRead(t'.value, base);
    ShortList(u);
    ShortList(w);
    AppendStep(Denote(u), v);
    SetBelow(Denote(t.value), base, [Index(n)], v);
    ReadAfterSet(Denote(t.value), base, SetIn(Denote(u), [Index(n)], v).value);
  }

  lemma AddedDenotes(t: Option<Tree>, next: Skey, t': Option<Tree>, next': Skey, base: Path, v: Value)
    requires IsList(t, base) && Wrote(t, next, t', next', base + [Index(|AtDoc(t, base).value.items|)], v)
    ensures Denote(At(t'.value, base + [Index(|AtDoc(t, base).value.items|)]).value) == v
  {
    hide Denote, Extends, SetIn, Untouched;
    var full := base + [Index(|AtDoc(t, base).value.items|)];
    ReadAfterSetDoc(DocumentOf(t), full, v);
    AtIsOpen(t'.value, full);
    OpenRead(t'.value, full);
  }

  lemma MoveIsInsert<T>(items: seq<T>, x: T, index: nat)
    ensures Moved(items + [x], |items|, index) == items[..Least(index, |items|)] + [x] + items[Least(index, |items|)..]
  {
    var all := items + [x];
    assert all[..|items|] + all[|items| + 1..] == items;
  }

  lemma ElsewhereAfter(t: Option<Tree>, next: Skey, u: Option<Tree>, next': Skey, base: Path, v: Value, now: seq<Tree>)
    requires IsList(t, base) && IsList(u, base) && Wrote(t, next, u, next', base + [Index(|AtDoc(t, base).value.items|)], v)
    ensures forall q | !(base <= q) && !(q <= base) :: AtDoc(ReorderT(u, base, now), q) == AtDoc(t, q)
  {
    hide Subst, Denote, SetDoc, Extends;
    var full := base + [Index(|AtDoc(t, base).value.items|)];
    forall q | !(base <= q) && !(q <= base) ensures AtDoc(ReorderT(u, base, now), q) == AtDoc(t, q) {
      ComparableAbove(base, full, q);
      AtSubst(u.value, base, List(AtDoc(u, base).value.key, now), q);
    }
  }
}
