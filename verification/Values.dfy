/** The dynamic document type and its path-addressed reads and writes. */
module Values {
  import opened Basics
  import opened Paths
  import opened Scalars

  datatype Value =
    | VLeaf(scalar: Scalar)
    | VList(items: seq<Value>)
    | VNode(entries: map<string, Value>)

  function EmptyValue(list: bool): Value {
    if list then VList([]) else VNode(map[])
  }

  /** The child one segment below `v`. */
  function Step(v: Value, seg: Segment): Option<Value> {
    match (v, seg)
    case (VNode(entries), Name(n)) => if n in entries then Some(entries[n]) else None
    case (VList(items), Index(i)) => if i < |items| then Some(items[i]) else None
    case _ => None
  }

  function Subtree(v: Value, p: Path): Option<Value>
    decreases p
  {
    if p == [] then Some(v)
    else match Step(v, p[0])
         case Some(c) => Subtree(c, p[1..])
         case None => None
  }

  /** A brand-new subtree holding `x` at `p`: an index in fresh territory can only be zero. */
  function BuildFresh(p: Path, x: Value): Option<Value>
    decreases p
  {
    if p == [] then Some(x)
    else match (p[0], BuildFresh(p[1..], x))
         case (Name(n), Some(c)) => Some(VNode(map[n := c]))
         case (Index(i), Some(c)) => if i == 0 then Some(VList([c])) else None
         case (_, None) => None
  }

  /** `v` with `x` placed at `p`, or `None` where a segment would traverse a leaf,
      meet the wrong container kind, or grow a list past its end. */
  function SetIn(v: Value, p: Path, x: Value): Option<Value>
    decreases p
  {
    if p == [] then Some(x)
    else match (v, p[0])
         case (VNode(entries), Name(n)) =>
           (match if n in entries then SetIn(entries[n], p[1..], x) else BuildFresh(p[1..], x)
            case Some(c) => Some(VNode(entries[n := c]))
            case None => None)
         case (VList(items), Index(i)) =>
           if i < |items| then
             match SetIn(items[i], p[1..], x)
             case Some(c) => Some(VList(items[i := c]))
             case None => None
           else if i == |items| then
             match BuildFresh(p[1..], x)
             case Some(c) => Some(VList(items + [c]))
             case None => None
           else None
         case _ => None
  }

  /** A document is a value, or nothing at all while the table is empty. */
  type Document = Option<Value>

  function SetDoc(doc: Document, p: Path, x: Value): Option<Value> {
    match doc
    case Some(v) => SetIn(v, p, x)
    case None => BuildFresh(p, x)
  }

  function SubDoc(doc: Document, p: Path): Option<Value> {
    match doc
    case Some(v) => Subtree(v, p)
    case None => None
  }

  /** `v` without what sits at `p`; a list closes the gap. */
  function RemoveIn(v: Value, p: Path): Value
    requires p != []
    decreases p
  {
    if |p| == 1 then
      match (v, p[0])
      case (VNode(entries), Name(n)) => VNode(entries - {n})
      case (VList(items), Index(i)) => if i < |items| then VList(items[..i] + items[i + 1..]) else v
      case _ => v
    else
      match (v, p[0])
      case (VNode(entries), Name(n)) =>
        if n in entries then VNode(entries[n := RemoveIn(entries[n], p[1..])]) else v
      case (VList(items), Index(i)) =>
        if i < |items| then VList(items[i := RemoveIn(items[i], p[1..])]) else v
      case _ => v
  }

  // ----- laws -----------------------------------------------------------------

  /** A read sees the last write at the same path. */
  lemma {:induction false} ReadAfterFresh(p: Path, x: Value)
    requires BuildFresh(p, x).Some?
    ensures Subtree(BuildFresh(p, x).value, p) == Some(x)
    decreases p
  {
    if p != [] {
      ReadAfterFresh(p[1..], x);
    }
  }

  lemma {:induction false} ReadAfterSet(v: Value, p: Path, x: Value)
    requires SetIn(v, p, x).Some?
    ensures Subtree(SetIn(v, p, x).value, p) == Some(x)
    decreases p
  {
    if p != [] {
      match Step(v, p[0])
      case Some(c) => ReadAfterSet(c, p[1..], x);
      case None => ReadAfterFresh(p[1..], x);
    }
  }

  lemma {:induction false} FreshReadsNothingElse(p: Path, q: Path, x: Value)
    requires BuildFresh(p, x).Some? && !Comparable(p, q)
    ensures Subtree(BuildFresh(p, x).value, q) == None
    decreases p
  {
    if p[0] == q[0] {
      assert !Comparable(p[1..], q[1..]) by { PrefixStep(p, q); }
      FreshReadsNothingElse(p[1..], q[1..], x);
    }
  }

  lemma PrefixStep(p: Path, q: Path)
    requires p != [] && q != [] && p[0] == q[0]
    ensures Comparable(p[1..], q[1..]) <==> Comparable(p, q)
  {
    assert p == [p[0]] + p[1..] && q == [q[0]] + q[1..];
  }

  /** A write leaves every path off its line as it was. */
  lemma {:induction false} ReadElsewhere(v: Value, p: Path, q: Path, x: Value)
    requires SetIn(v, p, x).Some? && !Comparable(p, q)
    ensures Subtree(SetIn(v, p, x).value, q) == Subtree(v, q)
    decreases p
  {
    if p[0] == q[0] {
      PrefixStep(p, q);
      match Step(v, p[0])
      case Some(c) => ReadElsewhere(c, p[1..], q[1..], x);
      case None => FreshReadsNothingElse(p[1..], q[1..], x);
    }
  }

  /** Whether a write applies depends on the path alone, not on the value written. */
  lemma {:induction false} FreshIgnoresValue(p: Path, x: Value, y: Value)
    ensures BuildFresh(p, x).Some? <==> BuildFresh(p, y).Some?
    decreases p
  {
    if p != [] {
      FreshIgnoresValue(p[1..], x, y);
    }
  }

  lemma {:induction false} SetIgnoresValue(v: Value, p: Path, x: Value, y: Value)
    ensures SetIn(v, p, x).Some? <==> SetIn(v, p, y).Some?
    decreases p
  {
    if p != [] {
      FreshIgnoresValue(p[1..], x, y);
      if Step(v, p[0]).Some? {
        SetIgnoresValue(Step(v, p[0]).value, p[1..], x, y);
      }
    }
  }

  /** Writing below a place just written is one write of the edited value. */
  lemma {:induction false} FreshThenSet(p: Path, y: Value, q: Path, x: Value)
    requires BuildFresh(p, y).Some?
    ensures SetIn(BuildFresh(p, y).value, p + q, x)
         == match SetIn(y, q, x) case Some(y') => BuildFresh(p, y') case None => None
    decreases p
  {
    if p == [] {
      assert p + q == q;
    } else {
      FreshThenSet(p[1..], y, q, x);
      assert (p + q)[1..] == p[1..] + q;
      if SetIn(y, q, x).Some? {
        var y' := SetIn(y, q, x).value;
        FreshIgnoresValue(p[1..], y, y');
        var c, c' := BuildFresh(p[1..], y).value, BuildFresh(p[1..], y').value;
        match p[0]
        case Name(n) => assert map[n := c][n := c'] == map[n := c'];
        case Index(_) => assert [c][0 := c'] == [c'];
      }
    }
  }

  lemma Overwrite(v: Value, seg: Segment, c: Value, c': Value)
    ensures v.VNode? && seg.Name? ==> v.entries[seg.name := c][seg.name := c'] == v.entries[seg.name := c']
    ensures v.VList? && seg.Index? && seg.index < |v.items| ==>
              v.items[seg.index := c][seg.index := c'] == v.items[seg.index := c']
    ensures v.VList? ==> (v.items + [c])[|v.items| := c'] == v.items + [c']
  {}

  lemma {:induction false} SetThenSet(v: Value, p: Path, y: Value, q: Path, x: Value)
    requires SetIn(v, p, y).Some?
    ensures SetIn(SetIn(v, p, y).value, p + q, x)
         == match SetIn(y, q, x) case Some(y') => SetIn(v, p, y') case None => None
    decreases p
  {
    if p == [] {
      assert p + q == q;
    } else {
      assert (p + q)[1..] == p[1..] + q;
      match Step(v, p[0])
      case Some(c) =>
        SetThenSet(c, p[1..], y, q, x);
        if SetIn(y, q, x).Some? {
          var y' := SetIn(y, q, x).value;
          SetIgnoresValue(c, p[1..], y, y');
          Overwrite(v, p[0], SetIn(c, p[1..], y).value, SetIn(c, p[1..], y').value);
        }
      case None =>
        FreshThenSet(p[1..], y, q, x);
        if SetIn(y, q, x).Some? {
          var y' := SetIn(y, q, x).value;
          FreshIgnoresValue(p[1..], y, y');
          Overwrite(v, p[0], BuildFresh(p[1..], y).value, BuildFresh(p[1..], y').value);
        }
    }
  }

  /** A write below an existing place edits the subtree found there. */
  lemma {:induction false} SetBelow(v: Value, p: Path, q: Path, x: Value)
    requires Subtree(v, p).Some?
    ensures SetIn(v, p + q, x)
         == match SetIn(Subtree(v, p).value, q, x) case Some(y) => SetIn(v, p, y) case None => None
    decreases p
  {
    if p == [] {
      assert p + q == q;
    } else {
      assert (p + q)[1..] == p[1..] + q;
      SetBelow(Step(v, p[0]).value, p[1..], q, x);
    }
  }

  lemma {:induction false} SetExisting(v: Value, p: Path, x: Value)
    requires Subtree(v, p).Some?
    ensures SetIn(v, p, x).Some?
    decreases p
  {
    if p != [] {
      SetExisting(Step(v, p[0]).value, p[1..], x);
    }
  }

  /** A write below a missing place builds the missing part first. */
  lemma {:induction false} FreshSplit(p: Path, q: Path, x: Value)
    ensures BuildFresh(p + q, x)
         == match BuildFresh(q, x) case Some(y) => BuildFresh(p, y) case None => None
    decreases p
  {
    if p == [] {
      assert p + q == q;
    } else {
      assert (p + q)[1..] == p[1..] + q;
      FreshSplit(p[1..], q, x);
    }
  }

  lemma {:induction false} SetMissing(v: Value, p: Path, q: Path, x: Value)
    requires Subtree(v, p) == None
    ensures SetIn(v, p + q, x)
         == match BuildFresh(q, x) case Some(y) => SetIn(v, p, y) case None => None
    decreases p
  {
    assert (p + q)[1..] == p[1..] + q;
    match Step(v, p[0])
    case Some(c) => SetMissing(c, p[1..], q, x);
    case None => FreshSplit(p[1..], q, x);
  }

  lemma SetDocMissing(doc: Document, p: Path, q: Path, x: Value)
    requires SubDoc(doc, p) == None
    ensures SetDoc(doc, p + q, x)
         == match BuildFresh(q, x) case Some(y) => SetDoc(doc, p, y) case None => None
  {
    match doc
    case Some(v) => SetMissing(v, p, q, x);
    case None => FreshSplit(p, q, x);
  }

  lemma SetDocThenSet(doc: Document, p: Path, y: Value, q: Path, x: Value)
    requires SetDoc(doc, p, y).Some?
    ensures SetIn(SetDoc(doc, p, y).value, p + q, x)
         == match SetIn(y, q, x) case Some(y') => SetDoc(doc, p, y') case None => None
  {
    match doc
    case Some(v) => SetThenSet(v, p, y, q, x);
    case None => FreshThenSet(p, y, q, x);
  }

  lemma ReadAfterSetDoc(doc: Document, p: Path, x: Value)
    requires SetDoc(doc, p, x).Some?
    ensures Subtree(SetDoc(doc, p, x).value, p) == Some(x)
  {
    match doc
    case Some(v) => ReadAfterSet(v, p, x);
    case None => ReadAfterFresh(p, x);
  }

  lemma SetDocIgnoresValue(doc: Document, p: Path, x: Value, y: Value)
    ensures SetDoc(doc, p, x).Some? <==> SetDoc(doc, p, y).Some?
  {
    match doc
    case Some(v) => SetIgnoresValue(v, p, x, y);
    case None => FreshIgnoresValue(p, x, y);
  }

  // ----- when a write applies -----------------------------------------------------

  /** The step `p[k]` can be made: into a container of its kind, at most one past a list's
      end, and where nothing is yet by a name or as a first element. */
  predicate Admits(doc: Document, p: Path, k: nat)
    requires k < |p|
  {
    match SubDoc(doc, p[..k])
    case Some(VNode(_)) => p[k].Name?
    case Some(VList(items)) => p[k].Index? && p[k].index <= |items|
    case Some(VLeaf(_)) => false
    case None => p[k].Name? || p[k] == Index(0)
  }

  /** A write applies exactly when each step of its path can be made. */
  lemma {:induction false} SetExactly(doc: Document, p: Path, x: Value)
    ensures SetDoc(doc, p, x).Some? <==> forall k | 0 <= k < |p| :: Admits(doc, p, k)
    decreases p
  {
    if p != [] {
      var child := if doc.Some? then Step(doc.value, p[0]) else None;
      SetExactly(child, p[1..], x);
      FirstStep(doc, p, x, child);
      forall k | 0 <= k < |p| - 1 ensures Admits(doc, p, k + 1) <==> Admits(child, p[1..], k) {
        assert p[..k + 1][1..] == p[1..][..k];
        assert SubDoc(doc, p[..k + 1]) == SubDoc(child, p[1..][..k]);
      }
      if SetDoc(doc, p, x).Some? {
        forall k | 0 <= k < |p| ensures Admits(doc, p, k) {
          if k > 0 { assert Admits(child, p[1..], k - 1) <==> Admits(doc, p, k - 1 + 1); }
        }
      }
      if forall k | 0 <= k < |p| :: Admits(doc, p, k) {
        forall k | 0 <= k < |p| - 1 ensures Admits(child, p[1..], k) { assert Admits(doc, p, k + 1); }
      }
    }
  }

  lemma FirstStep(doc: Document, p: Path, x: Value, child: Document)
    requires p != [] && child == if doc.Some? then Step(doc.value, p[0]) else None
    ensures SetDoc(doc, p, x).Some? <==> Admits(doc, p, 0) && SetDoc(child, p[1..], x).Some?
  {
    assert p[..0] == [];
  }
}
