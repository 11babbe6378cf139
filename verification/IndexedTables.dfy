/** A table with its secondary indexes, and the invariant every operation keeps: the
    stored index entries are exactly those a walk of the current tree implies. */
module IndexedTables {
  import opened Basics
  import opened Bytes
  import opened Scalars
  import opened Skeys
  import opened Paths
  import opened Values
  import opened Trees
  import opened TreeLaws
  import opened Backends
  import opened Walks
  import opened Edits
  import opened Repacking
  import opened TreeStores
  import opened Removal
  import opened Patterns
  import opened Columns
  import opened TableKeys
  import opened Maintenance
  import opened IndexSets
  import opened TableRuns
  import opened Scans
  import opened Brackets
  import opened Storing
  import opened Containers
  import Elsewhere
  import Blobs

  /** Where nothing is, storing a scalar is the plain write. */
  lemma PutAtNothing(t: Option<Tree>, p: Path, x: Scalar, next: Skey)
    requires OpenDoc(t, p) && AtDoc(t, p).None?
    ensures PutT(t, p, x, next) == PutRelT(t, p, x, next)
  {}

  lemma RootRemoved(t: Option<Tree>)
    ensures RemoveT(t, []) == None
  {}

  /** In an empty table no two entities share an entry. */
  lemma NoTwinsInNothing(indexes: seq<IndexEntry>)
    ensures forall i | 0 <= i < |indexes| :: NoTwins(None, indexes[i])
  {}

  class IndexedTable {
    var table: TreeStore
    var data: Entries
    var indexes: seq<IndexEntry>
    var nextId: nat

    /** The table's state between two operations. */
    ghost function View(): Table
      reads this, table
    {
      Table(table.tree, table.issued, data, indexes, nextId)
    }

    ghost predicate Valid()
      reads this, table
    {
      table.Valid() && table.store.Engine? && Inv(View())
    }

    /** Every index here is as the tree says: the state between two transactions. */
    ghost predicate Keeps(t: Option<Tree>)
      reads this, table
    {
      Valid() && table.tree == t
    }

    /** A table without indexes. */
    constructor (s: TreeStore)
      requires s.Valid() && s.store.Engine?
      ensures Valid() && table == s && indexes == [] && data == map[] && nextId == 0
    {
      table, data, indexes, nextId := s, map[], [], 0;
    }

    /** Some registered index would have two entities under one entry. */
    ghost predicate Twins(t: Option<Tree>)
      reads this
    {
      exists i :: 0 <= i < |indexes| && !NoTwins(t, indexes[i])
    }

    method OpenBracket(scope: Path) returns (d1: Entries)
      requires Valid()
      ensures AllDeleted(data, d1, table.tree, indexes, scope) && Owned(d1, indexes) && Forms(d1, indexes)
    {
      hide Rep, Distinct, Keys, AllDeleted, AllExact;
      TableHeld(table.store, table.tree);
      d1 := DeleteEach(table.store, data, indexes, scope, table.tree);
      FormsKept(data, d1, table.tree, indexes, scope);
    }

    /** Puts the entries of the changed tree in. It fails exactly when two entities would
        share a unique entry; otherwise the whole bracket was one step of the table. */
    method CloseBracket(d1: Entries, scope: Path, ghost was: Table, ghost op: Op) returns (r: Result<()>)
      requires table.Valid() && table.store.Engine? && Inv(was) && was.indexes == indexes && was.nextId == nextId
      requires Mutated(was, op, table.tree) && scope == op.path
      requires AllDeleted(was.data, d1, was.tree, indexes, scope) && Owned(d1, indexes) && Forms(d1, indexes)
      modifies this`data
      ensures r.Ok? <==> !Twins(table.tree)
      ensures r.Ok? ==> Valid() && Moves(was, op, View()) && OpDoc(DocumentOf(was.tree), op) == Some(DocumentOf(table.tree))
    {
      hide Rep, Distinct, Keys, AllDeleted, AllExact, AllInserted, NoTwins, NoClash, Bracketed, Forms, Mutated, Moves, OpDoc, Owned;
      TableHeld(table.store, table.tree);
      AllBracketed(was, op, table.tree);
      var done := InsertEach(table.store, d1, indexes, scope, table.tree);
      ClashMeansTwins(was.data, d1, was.tree, table.tree, indexes, scope);
      if done.Err? {
        return Err(done.error);
      }
      AllKeep(was.data, d1, done.value, was.tree, table.tree, indexes, scope);
      data := done.value;
      StepDone(was, op, View(), d1);
      r := Ok(());
    }

    /** Stores a scalar. It succeeds exactly when the document takes it and no unique
        index would have two entities with the same columns. */
    method PutScalar(path: Path, s: Scalar) returns (r: Result<()>)
      requires Valid()
      modifies this`data, table
      ensures r.Ok? <==> PutT(old(table.tree), path, s, old(table.issued)).Some?
                         && !Twins(Some(PutT(old(table.tree), path, s, old(table.issued)).value.tree))
      ensures r.Ok? ==> Keeps(Some(PutT(old(table.tree), path, s, old(table.issued)).value.tree))
      ensures r.Ok? ==> table.issued == PutT(old(table.tree), path, s, old(table.issued)).value.next
      ensures r.Err? && PutT(old(table.tree), path, s, old(table.issued)).Some? ==> Twins(table.tree)
      ensures r.Ok? ==> Moves(old(View()), PutOp(path, s), View())
      ensures r.Ok? ==> OpDoc(DocumentOf(old(table.tree)), PutOp(path, s)) == Some(DocumentOf(table.tree))
    {
      hide Rep, Distinct, Keys, AllDeleted, AllExact, Registered, Owned, Forms, PutT, Bracketed, NoTwins, Moves, OpDoc;
      ghost var t, next := table.tree, table.issued;
      ghost var was := View();
      var d1 := OpenBracket(path);
      var put := table.PutScalarPath(path, s);
      if put.Err? {
        return Err(put.error);
      }
      r := CloseBracket(d1, path, was, PutOp(path, s));
    }

    /** Ensures a container at `path`, where no packed entity is in the way. */
    method EnsureContainer(path: Path, list: bool) returns (r: Result<()>)
      requires Valid() && OpenDoc(table.tree, path)
      modifies this`data, table
      ensures r.Ok? ==> EnsureT(old(table.tree), path, list, old(table.issued)).Some?
      ensures r.Ok? ==> Valid() && table.tree == Some(EnsureT(old(table.tree), path, list, old(table.issued)).value.tree)
      ensures r.Ok? ==> table.issued == EnsureT(old(table.tree), path, list, old(table.issued)).value.next
      ensures r.Err? && EnsureT(old(table.tree), path, list, old(table.issued)).Some? ==> Twins(table.tree)
      ensures r.Ok? ==> !Twins(table.tree) && Moves(old(View()), EnsureOp(path, list), View())
      ensures r.Ok? ==> OpDoc(DocumentOf(old(table.tree)), EnsureOp(path, list)) == Some(DocumentOf(table.tree))
    {
      hide Rep, Distinct, Keys, AllDeleted, AllExact, Registered, Owned, Forms, EnsureT, Bracketed, NoTwins, Moves, OpDoc, Open;
      ghost var was := View();
      var d1 := OpenBracket(path);
      assert [] + path == path;
      var made := table.EnsureContainerRel(ROOT, path, list, []);
      if made.Err? {
        return Err(made.error);
      }
      r := CloseBracket(d1, path, was, EnsureOp(path, list));
    }

    /** Removes the subtree at `path` and reports whether anything was removed. */
    method Remove(path: Path) returns (r: Result<bool>)
      requires Valid()
      requires path == [] || forall i | 0 <= i < |indexes| :: Steady(indexes[i].def.pattern)
      modifies this`data, table`store, table`tree
      ensures r.Ok? <==> !Twins(RemoveT(old(table.tree), path))
      ensures r.Ok? ==> Keeps(RemoveT(old(table.tree), path)) && r.value == Removes(old(table.tree), path)
      ensures r.Ok? ==> Moves(old(View()), RemoveOp(path), View())
      ensures r.Ok? ==> OpDoc(DocumentOf(old(table.tree)), RemoveOp(path)) == Some(DocumentOf(table.tree))
    {
      hide Rep, Distinct, Keys, AllDeleted, AllExact, Registered, Owned, Forms, RemoveT, Removes, Bracketed, Steady, NoTwins, Moves, OpDoc;
      ghost var t := table.tree;
      ghost var was := View();
      var d1 := OpenBracket(path);
      var removed := RemovePathAt(table, path);
      var done := CloseBracket(d1, path, was, RemoveOp(path));
      r := if done.Ok? then Ok(removed) else Err(done.error);
    }

    /** Empties the container `key` at `path` in place. */
    method Clear(path: Path, key: Skey) returns (r: Result<()>)
      requires Valid() && Names(table.tree, key, path)
      modifies this`data, table`store, table`tree
      ensures r.Ok? <==> ClearT(old(table.tree), path).Some? && !Twins(ClearT(old(table.tree), path))
      ensures r.Ok? ==> Keeps(ClearT(old(table.tree), path))
      ensures r.Ok? ==> Moves(old(View()), ClearOp(path), View())
      ensures r.Ok? ==> OpDoc(DocumentOf(old(table.tree)), ClearOp(path)) == Some(DocumentOf(table.tree))
    {
      hide Rep, Distinct, Keys, AllDeleted, AllExact, Registered, Owned, Forms, ClearT, Bracketed, NoTwins, Moves, OpDoc;
      ghost var t := table.tree;
      ghost var was := View();
      var d1 := OpenBracket(path);
      var cleared := ClearChildren(table, key, path);
      if cleared.Err? {
        return Err(cleared.error);
      }
      r := CloseBracket(d1, path, was, ClearOp(path));
    }

    /** No index selects anything strictly below `path`. */
    predicate MayPack(path: Path)
      reads this`indexes
    {
      forall i | 0 <= i < |indexes| :: !CoversStrictlyBelow(indexes[i].def.pattern, path)
    }

    /** Whether the subtree at `path` may become one packed entity: no index selects
        anything strictly below it. */
    method ShouldPack(path: Path) returns (pack: bool)
      ensures pack <==> MayPack(path)
    {
      for i := 0 to |indexes|
        invariant forall j | 0 <= j < i :: !CoversStrictlyBelow(indexes[j].def.pattern, path)
      {
        if CoversStrictlyBelow(indexes[i].def.pattern, path) {
          return false;
        }
      }
      return true;
    }

    /** Stores a whole value at a named place or at a list's end. It succeeds exactly
        when the document takes the value and no unique index would have two entities
        with the same columns. */
    method Store(path: Path, v: Value) returns (r: Result<()>)
      requires Valid() && path != [] && OpenDoc(table.tree, path) && AtEnd(DocumentOf(table.tree), path) && GoodNames(v)
      modifies this`data, table
      ensures r.Ok? <==> SetDoc(DocumentOf(old(table.tree)), path, v).Some? && !Twins(table.tree)
      ensures r.Ok? ==> Valid() && Stored(old(table.tree), table.tree, path, v) && Formed(table.tree, path, MayPack(path))
      ensures r.Ok? ==> SetDoc(DocumentOf(old(table.tree)), path, v) == DocumentOf(table.tree)
      ensures r.Ok? ==> Moves(old(View()), StoreOp(path, v), View())
    {
      hide Rep, Distinct, Keys, AllDeleted, AllExact, Registered, Owned, Forms, Bracketed, NoTwins, Stored, Formed, Open, AtEnd, SetDoc, Denote, Moves, OpDoc;
      ghost var t := table.tree;
      ClearedSame(t, path, v);
      ghost var was := View();
      var d1 := OpenBracket(path);
      var pack := ShouldPack(path);
      var done := StoreValue(table, path, v, pack);
      if done.Err? {
        return Err(done.error);
      }
      StoreThenLoad(t, table.tree, path, v, []);
      r := CloseBracket(d1, path, was, StoreOp(path, v));
    }

    /** Stores a whole entity, where a store moves nothing else: at a named place, at a
        list's end, or over an entity that is packed and may stay so, whose key survives. */
    method StoreEntity(path: Path, v: Value) returns (r: Result<()>)
      requires Valid() && path != [] && OpenDoc(table.tree, path) && GoodNames(v)
      requires AtEnd(DocumentOf(table.tree), path) || (PackedThere(table.tree, path) && MayPack(path))
      modifies this`data, table
      ensures r.Ok? <==> SetDoc(DocumentOf(old(table.tree)), path, v).Some? && !Twins(table.tree)
      ensures r.Ok? ==> Valid() && SetDoc(DocumentOf(old(table.tree)), path, v) == DocumentOf(table.tree)
      ensures r.Ok? ==> Formed(table.tree, path, MayPack(path))
      ensures r.Ok? && PackedThere(old(table.tree), path) && MayPack(path) ==> Overwrote(old(table.tree), table.tree, path, v)
      ensures r.Ok? ==> Moves(old(View()), StoreOp(path, v), View())
    {
      hide Rep, Distinct, Keys, AllDeleted, AllExact, Registered, Owned, Forms, Bracketed, NoTwins, Stored, Formed,
           Open, AtEnd, SetDoc, Denote, Elsewhere.Untouched, PackedThere, Moves, OpDoc;
      ghost var t := table.tree;
      ghost var was := View();
      var d1 := OpenBracket(path);
      var pack := ShouldPack(path);
      if !(pack && PackedThere(t, path)) { ClearedSame(t, path, v); }
      var done := StoreAt(table, path, v, pack);
      if done.Err? {
        return Err(done.error);
      }
      if !(pack && PackedThere(t, path)) { StoreThenLoad(t, table.tree, path, v, []); }
      r := CloseBracket(d1, path, was, StoreOp(path, v));
    }

    // ----- storing at the root ----------------------------------------------------

    /** Writes `v` at a free place, one bracket for each scalar and each container. */
    method WriteThrough(path: Path, v: Value) returns (r: Result<()>, ghost states: seq<Table>, ghost ops: seq<Op>)
      requires Valid() && OpenDoc(table.tree, path) && AtDoc(table.tree, path).None? && GoodNames(v)
      requires SetDoc(DocumentOf(table.tree), path, v).Some?
      modifies this`data, table
      ensures r.Ok? ==> Valid() && Wrote(old(table.tree), old(table.issued), table.tree, table.issued, path, v)
      ensures r.Ok? ==> RunFrom(states, ops, old(View()), View())
      ensures r.Err? ==> Twins(table.tree)
      decreases v, 1
    {
      hide Rep, Distinct, Keys, Inv, PutT, PutRelT, EnsureT, NoTwins, Moves, OpDoc, Open, SetDoc, Denote, Wrote, RunFrom;
      states, ops := [], [];
      ghost var was := View();
      SoundOf(was);
      match v
      case VLeaf(x) =>
        PutWrote(table.tree, path, x, table.issued);
        PutAtNothing(table.tree, path, x, table.issued);
        r := PutScalar(path, x);
        if r.Ok? {
          states, ops := [was, View()], [PutOp(path, x)];
          OneStep(was, PutOp(path, x), View());
        }
      case VList(_) =>
        EnsureWrote(table.tree, path, true, table.issued);
        SetDocIgnoresValue(DocumentOf(table.tree), path, v, EmptyValue(true));
        r := EnsureContainer(path, true);
        if r.Ok? {
          OneStep(was, EnsureOp(path, true), View());
          r, states, ops := WriteItemsThrough(path, v, was, [was, View()], [EnsureOp(path, true)]);
        }
      case VNode(_) =>
        EnsureWrote(table.tree, path, false, table.issued);
        SetDocIgnoresValue(DocumentOf(table.tree), path, v, EmptyValue(false));
        r := EnsureContainer(path, false);
        if r.Ok? {
          OneStep(was, EnsureOp(path, false), View());
          r, states, ops := WriteEntriesThrough(path, v, was, [was, View()], [EnsureOp(path, false)]);
        }
    }

    method WriteItemsThrough(path: Path, v: Value, ghost was: Table, ghost before: seq<Table>, ghost done: seq<Op>)
      returns (r: Result<()>, ghost states: seq<Table>, ghost ops: seq<Op>)
      requires Valid() && v.VList? && GoodNames(v) && Wrote(was.tree, was.next, table.tree, table.issued, path, VList([]))
      requires RunFrom(before, done, was, View())
      modifies this`data, table
      ensures r.Ok? ==> Valid() && Wrote(was.tree, was.next, table.tree, table.issued, path, v)
      ensures r.Ok? ==> RunFrom(states, ops, was, View())
      ensures r.Err? ==> Twins(table.tree)
      decreases v, 0
    {
      hide Rep, Inv, NoTwins, SetDoc, SetIn, Denote, Extends, Wrote, RunFrom, Sound, PutT;
      states, ops := before, done;
      assert v.items[..0] == [];
      for i := 0 to |v.items|
        invariant Valid() && Wrote(was.tree, was.next, table.tree, table.issued, path, VList(v.items[..i]))
        invariant RunFrom(states, ops, was, View())
      {
        ghost var t1, n1, mid := table.tree, table.issued, View();
        ItemSets(v.items, i);
        ReadyBelow(was.tree, was.next, t1, n1, path, VList(v.items[..i]), Index(i));
        ChildWrites(was.tree, was.next, t1, n1, path, VList(v.items[..i]), Index(i), v.items[i], VList(v.items[..i + 1]));
        ghost var more: seq<Table>, made: seq<Op>;
        r, more, made := WriteThrough(path + [Index(i)], v.items[i]);
        if r.Err? {
          return;
        }
        WroteBelow(was.tree, was.next, t1, n1, table.tree, table.issued, path, VList(v.items[..i]), Index(i), v.items[i], VList(v.items[..i + 1]));
        JoinRuns(states, ops, more, made, was, mid, View());
        states, ops := Joined(states, more), ops + made;
      }
      assert v.items[..|v.items|] == v.items;
      r := Ok(());
    }

    method WriteEntriesThrough(path: Path, v: Value, ghost was: Table, ghost before: seq<Table>, ghost done: seq<Op>)
      returns (r: Result<()>, ghost states: seq<Table>, ghost ops: seq<Op>)
      requires Valid() && v.VNode? && GoodNames(v) && Wrote(was.tree, was.next, table.tree, table.issued, path, VNode(map[]))
      requires RunFrom(before, done, was, View())
      modifies this`data, table
      ensures r.Ok? ==> Valid() && Wrote(was.tree, was.next, table.tree, table.issued, path, v)
      ensures r.Ok? ==> RunFrom(states, ops, was, View())
      ensures r.Err? ==> Twins(table.tree)
      decreases v, 0
    {
      hide Rep, Inv, NoTwins, SetDoc, SetIn, Denote, Extends, Wrote, RunFrom, Sound, PutT;
      states, ops := before, done;
      var rest := v.entries.Keys;
      assert v.entries - rest == map[];
      while rest != {}
        invariant rest <= v.entries.Keys
        invariant Valid() && Wrote(was.tree, was.next, table.tree, table.issued, path, VNode(v.entries - rest))
        invariant RunFrom(states, ops, was, View())
        decreases |rest|
      {
        Blobs.HasFirstName(rest);
        var n :| n in rest && forall x | x in rest && x != n :: NameLess(n, x);
        ghost var t1, n1, mid, written := table.tree, table.issued, View(), v.entries - rest;
        EntrySets(written, n, v.entries[n]);
        Blobs.DrainStep(v.entries, rest, n);
        ReadyBelow(was.tree, was.next, t1, n1, path, VNode(written), Name(n));
        ChildWrites(was.tree, was.next, t1, n1, path, VNode(written), Name(n), v.entries[n], VNode(written[n := v.entries[n]]));
        ghost var more: seq<Table>, made: seq<Op>;
        r, more, made := WriteThrough(PushName(path, n), v.entries[n]);
        if r.Err? {
          return;
        }
        WroteBelow(was.tree, was.next, t1, n1, table.tree, table.issued, path, VNode(written), Name(n),
                   v.entries[n], VNode(written[n := v.entries[n]]));
        JoinRuns(states, ops, more, made, was, mid, View());
        states, ops := Joined(states, more), ops + made;
        rest := rest - {n};
      }
      assert v.entries - {} == v.entries;
      r := Ok(());
    }

    /** Replaces the whole table by `v`: a removal, then a run of single writes. It fails
        only where, part-way, two entities would share a unique entry. */
    method StoreRoot(v: Value) returns (r: Result<()>, ghost states: seq<Table>, ghost ops: seq<Op>)
      requires Valid() && GoodNames(v)
      modifies this`data, table
      ensures r.Ok? ==> Valid() && DocumentOf(table.tree) == Some(v) && Formed(table.tree, [], false)
      ensures r.Ok? ==> RunFrom(states, ops, old(View()), View())
      ensures r.Err? ==> Twins(table.tree)
    {
      hide Rep, Inv, NoTwins, Moves, OpDoc, RemoveT, SetIn, Denote, RunFrom;
      ghost var was := View();
      states, ops := [], [];
      NoTwinsInNothing(indexes);
      RootRemoved(table.tree);
      var removed := Remove([]);
      OneStep(was, RemoveOp([]), View());
      ghost var first, empty := [was, View()], View();
      ghost var more: seq<Table>, made: seq<Op>;
      r, more, made := WriteThrough([], v);
      if r.Ok? {
        JoinRuns(first, [RemoveOp([])], more, made, was, empty, View());
        states, ops := Joined(first, more), [RemoveOp([])] + made;
      }
    }

    // ----- schema ---------------------------------------------------------------

    method FindIndex(name: string) returns (at: Option<nat>)
      ensures at.Some? ==> at.value < |indexes| && indexes[at.value].def.name == name
      ensures at.None? ==> forall i | 0 <= i < |indexes| :: indexes[i].def.name != name
    {
      for i := 0 to |indexes|
        invariant forall j | 0 <= j < i :: indexes[j].def.name != name
      {
        if indexes[i].def.name == name {
          return Some(i);
        }
      }
      return None;
    }

    /** Ids are given out to all tables alike: this many have been by now. */
    method OtherTable(now: nat)
      requires Valid() && nextId <= now <= Pow256(4)
      modifies this`nextId
      ensures Valid() && nextId == now && Moves(old(View()), OtherTableOp(now), View())
    {
      hide Rep, Distinct, Keys, Exact, Owned, Registered, Sound, Pow256;
      RaisedIds(indexes, nextId, now);
      nextId := now;
    }

    /** Registers an index and fills it in from the tree as it stands. A definition
        already there is left alone when it is the same, and refused otherwise; nothing
        changes on an error. */
    method CreateIndex(def: IndexDef) returns (r: Result<()>)
      requires Valid() && def.Valid()
      modifies this`data, this`indexes, this`nextId
      ensures Valid() && table.tree == old(table.tree)
      ensures r.Err? || def in Defs(old(indexes)) ==> data == old(data) && indexes == old(indexes) && nextId == old(nextId)
      ensures r.Ok? <==> def in Defs(old(indexes)) || Creatable(def, old(indexes), old(nextId), table.tree)
      ensures r == Err(SchemaMismatch) <==>
                exists i :: 0 <= i < |old(indexes)| && old(indexes)[i].def.name == def.name && old(indexes)[i].def != def
      ensures r.Err? && r.error != SchemaMismatch && old(nextId) + 1 < Pow256(4) ==>
                r.error == UniqueViolation && def.unique && !NoTwins(table.tree, IndexEntry(old(nextId), def))
      ensures r.Ok? && def !in Defs(old(indexes)) ==>
                indexes == old(indexes) + [IndexEntry(old(nextId), def)] && nextId == old(nextId) + 1
      ensures r.Ok? ==> Moves(old(View()), CreateOp(def), View())
    {
      hide Rep, Distinct, Keys, Exact, Owned, NoTwins, Inserted;
      var at := FindIndex(def.name);
      if at.Some? {
        NamedOnce(indexes, nextId, at.value, def);
        return if indexes[at.value].def == def then Ok(()) else Err(SchemaMismatch);
      }
      NotNamed(indexes, def);
      if nextId + 1 >= Pow256(4) {
        return Err(Corrupt);
      }
      r := BackFill(def);
    }

    method BackFill(def: IndexDef) returns (r: Result<()>)
      requires Valid() && def.Valid() && nextId + 1 <= Pow256(4) && forall i | 0 <= i < |indexes| :: indexes[i].def.name != def.name
      modifies this`data, this`indexes, this`nextId
      ensures Valid() && table.tree == old(table.tree)
      ensures r.Err? ==> data == old(data) && indexes == old(indexes) && nextId == old(nextId)
      ensures r.Ok? <==> NoTwins(table.tree, IndexEntry(old(nextId), def))
      ensures r.Err? ==> r.error == UniqueViolation && def.unique
      ensures r.Ok? ==> Created(old(View()), def, View())
    {
      hide Rep, Distinct, Keys, NoTwins, Exact, Inserted, NoClash, Owned;
      var entry := IndexEntry(nextId, def);
      TableHeld(table.store, table.tree);
      NothingUnder(data, indexes, nextId);
      var filled := Insert(table.store, data, entry, [], table.tree);
      FilledWhole(data, table.tree, entry);
      if filled.Err? {
        return Err(filled.error);
      }
      FilledExact(data, filled.value, table.tree, entry);
      GrownExact(data, filled.value, table.tree, indexes, entry);
      data, indexes, nextId := filled.value, indexes + [entry], nextId + 1;
      r := Ok(());
    }

    /** Drops an index and every entry it holds; `false` when there is none of that name. */
    method DropIndex(name: string) returns (found: bool)
      requires Valid() && table.issued <= Pow256(16)
      modifies this`data, this`indexes
      ensures Valid() && table.tree == old(table.tree)
      ensures found <==> !NoneNamed(old(indexes), name)
      ensures NoneNamed(indexes, name)
      ensures !found ==> data == old(data) && indexes == old(indexes)
      ensures found ==> exists i :: Dropped(old(indexes), indexes, old(data), data, name, i)
      ensures Moves(old(View()), DropOp(name), View())
    {
      hide Rep, Distinct, Keys, Inv, Moves, Dropped, FormOf, KeysFit, Pow256;
      EntriesFit(View());
      var at := FindIndex(name);
      if at.None? {
        NoDrop(View(), name);
        return false;
      }
      var i := at.value;
      DropForm(View(), i);
      var left := DeleteAll(data, indexes[i].id, indexes[i].def.unique);
      Drops(View(), name, i, left);
      data, indexes := left, indexes[..i] + indexes[i + 1..];
      return true;
    }
  }
}
