/** One table's indexes as the shared registry records them. Creating and dropping an
    index changes the registry and the table's entries in one transaction; afterwards the
    table's indexes are still the registry's records for it, in registration order. */
module Schemas {
  import opened Basics
  import opened Bytes
  import opened Paths
  import opened Trees
  import opened Patterns
  import opened Maintenance
  import opened IndexSets
  import opened TableRuns
  import opened IndexedTables
  import R = Registries
  import PatternText

  // ----- reading a record ---------------------------------------------------------

  function PathsOf(columns: seq<R.Column>): (paths: seq<Path>)
    ensures |paths| == |columns| && forall i | 0 <= i < |columns| :: paths[i] == columns[i].path
  {
    seq(|columns|, i requires 0 <= i < |columns| => columns[i].path)
  }

  function DirectionsOf(columns: seq<R.Column>): (descending: seq<bool>)
    ensures |descending| == |columns| && forall i | 0 <= i < |columns| :: descending[i] == columns[i].descending
  {
    seq(|columns|, i requires 0 <= i < |columns| => columns[i].descending)
  }

  predicate Readable(d: R.Def) { PatternText.ParsePattern(d.pattern).Ok? }

  /** A recorded definition with its pattern read. */
  function DefOf(d: R.Def): IndexDef
    requires Readable(d)
  {
    IndexDef(d.name, d.pattern, PatternText.ParsePattern(d.pattern).value, PathsOf(d.columns), DirectionsOf(d.columns), d.unique)
  }

  lemma DefRead(d: R.Def)
    ensures Readable(d) <==> PatternText.ParsePattern(d.pattern).Ok?
    ensures Readable(d) ==>
              DefOf(d) == IndexDef(d.name, d.pattern, PatternText.ParsePattern(d.pattern).value,
                                   PathsOf(d.columns), DirectionsOf(d.columns), d.unique)
  {}

  lemma DefIsOwn(a: R.Def, b: R.Def)
    requires Readable(a) && Readable(b) && DefOf(a) == DefOf(b)
    ensures a == b
  {
    assert a.columns == b.columns by {
      forall i | 0 <= i < |a.columns| ensures a.columns[i] == b.columns[i] {
        assert PathsOf(a.columns)[i] == PathsOf(b.columns)[i] && DirectionsOf(a.columns)[i] == DirectionsOf(b.columns)[i];
      }
    }
  }

  // ----- a table's records --------------------------------------------------------

  /** The records of one table, in registration order. */
  function ForTable(records: seq<R.Record>, table: string): (own: seq<R.Record>)
    ensures forall x :: x in own <==> x in records && x.table == table
  {
    if records == [] then []
    else
      var n := |records| - 1;
      if records[n].table == table then ForTable(records[..n], table) + [records[n]] else ForTable(records[..n], table)
  }

  /** The indexes are those records, one by one. */
  ghost predicate Loads(own: seq<R.Record>, indexes: seq<IndexEntry>) {
    && |own| == |indexes|
    && forall i | 0 <= i < |own| :: Readable(own[i].def) && indexes[i] == IndexEntry(own[i].id, DefOf(own[i].def))
  }

  /** The table's indexes are what the registry records for it. */
  ghost predicate Agrees(g: R.Registry, table: string, indexes: seq<IndexEntry>, nextId: nat) {
    Loads(ForTable(g.records, table), indexes) && nextId <= g.nextId
  }

  lemma ForTableGrows(records: seq<R.Record>, r: R.Record, table: string)
    ensures ForTable(records + [r], table) == if r.table == table then ForTable(records, table) + [r] else ForTable(records, table)
  {
    assert (records + [r])[..|records|] == records;
  }

  /** Where the record at `at` stands among its table's own. */
  function Rank(records: seq<R.Record>, at: nat): nat
    requires at < |records|
  {
    |ForTable(records[..at], records[at].table)|
  }

  lemma {:induction false} ForTableSplit(records: seq<R.Record>, at: nat, table: string)
    requires at < |records|
    ensures ForTable(R.Omitting(records, at), table)
         == if records[at].table == table then
              R.Omitting(ForTable(records, table), Ranked(records, at)) else ForTable(records, table)
    decreases |records|
  {
    hide ForTable, Rank;
    var n := |records| - 1;
    var front := records[..n];
    assert records == front + [records[n]];
    ForTableGrows(front, records[n], table);
    if at == n {
      assert R.Omitting(records, at) == front;
      RankedLast(records);
    } else {
      ForTableSplit(front, at, table);
      assert R.Omitting(records, at) == R.Omitting(front, at) + [records[n]];
      ForTableGrows(R.Omitting(front, at), records[n], table);
      if records[at].table == table {
        RankedFront(records, at);
        Omits(ForTable(front, table), records[n], Ranked(front, at));
      }
    }
  }

  lemma RankedLast(records: seq<R.Record>)
    requires records != []
    ensures var n := |records| - 1;
            var own := ForTable(records, records[n].table);
            R.Omitting(own, Ranked(records, n)) == ForTable(records[..n], records[n].table)
  {}

  lemma RankedFront(records: seq<R.Record>, at: nat)
    requires at < |records| - 1
    ensures Ranked(records, at) == Ranked(records[..|records| - 1], at)
  {
    hide ForTable;
    assert records[..|records| - 1][..at] == records[..at];
  }

  /** The record's rank, which is a position among its table's own. */
  function Ranked(records: seq<R.Record>, at: nat): (i: nat)
    requires at < |records|
    ensures i < |ForTable(records, records[at].table)| && ForTable(records, records[at].table)[i] == records[at]
  {
    RankInside(records, at);
    Rank(records, at)
  }

  lemma {:induction false} RankInside(records: seq<R.Record>, at: nat)
    requires at < |records|
    ensures Rank(records, at) < |ForTable(records, records[at].table)|
    ensures ForTable(records, records[at].table)[Rank(records, at)] == records[at]
    decreases |records|
  {
    var n := |records| - 1;
    if at < n {
      assert records[..n][..at] == records[..at];
      RankInside(records[..n], at);
    }
  }

  lemma Omits<T>(items: seq<T>, x: T, i: nat)
    requires i < |items|
    ensures R.Omitting(items + [x], i) == R.Omitting(items, i) + [x]
  {}

  // ----- the two together -----------------------------------------------------------

  lemma FindIs(g: R.Registry, table: string, indexes: seq<IndexEntry>, name: string)
    requires Loads(ForTable(g.records, table), indexes)
    ensures R.Find(g.records, table, name).None? <==> !NameTaken(g, table, name)
    ensures R.Find(g.records, table, name).None? <==> NoneNamed(indexes, name)
  {
    var own := ForTable(g.records, table);
    if R.Find(g.records, table, name).Some? {
      var r := g.records[R.Find(g.records, table, name).value];
      assert r in own;
      var i :| 0 <= i < |own| && own[i] == r;
      assert indexes[i].def.name == name;
    }
    if !NoneNamed(indexes, name) {
      var i :| 0 <= i < |indexes| && indexes[i].def.name == name;
      assert own[i] in g.records;
    }
  }

  lemma SameRecorded(g: R.Registry, table: string, indexes: seq<IndexEntry>, def: R.Def)
    requires Loads(ForTable(g.records, table), indexes) && Readable(def)
    ensures DefOf(def) in Defs(indexes) <==> exists i :: 0 <= i < |g.records| && g.records[i].table == table && g.records[i].def == def
  {
    hide Readable, DefOf, ForTable;
    var own := ForTable(g.records, table);
    if DefOf(def) in Defs(indexes) {
      var i :| 0 <= i < |indexes| && Defs(indexes)[i] == DefOf(def);
      DefIsOwn(own[i].def, def);
      assert own[i] in g.records;
    }
    if exists i :: 0 <= i < |g.records| && g.records[i].table == table && g.records[i].def == def {
      var j :| 0 <= j < |g.records| && g.records[j].table == table && g.records[j].def == def;
      assert g.records[j] in own;
      var i :| 0 <= i < |own| && own[i] == g.records[j];
      assert Defs(indexes)[i] == DefOf(def);
    }
  }

  /** A registered definition can be read: the same one as recorded is. */
  lemma RecordedReads(g: R.Registry, table: string, indexes: seq<IndexEntry>, i: nat)
    requires Loads(ForTable(g.records, table), indexes) && i < |g.records| && g.records[i].table == table
    ensures Readable(g.records[i].def)
  {
    hide PatternText.ParsePattern;
    var own := ForTable(g.records, table);
    assert g.records[i] in own;
    var j :| 0 <= j < |own| && own[j] == g.records[i];
  }

  lemma CreatedAgrees(g: R.Registry, table: string, indexes: seq<IndexEntry>, def: R.Def)
    requires Loads(ForTable(g.records, table), indexes) && Readable(def)
    ensures Loads(ForTable(g.records + [R.Record(table, g.nextId, def)], table), indexes + [IndexEntry(g.nextId, DefOf(def))])
  {
    hide Readable, DefOf, ForTable;
    ForTableGrows(g.records, R.Record(table, g.nextId, def), table);
  }

  lemma DroppedAgrees(g: R.Registry, table: string, indexes: seq<IndexEntry>, name: string, i: nat)
    requires R.Sane(g) && Loads(ForTable(g.records, table), indexes) && R.Find(g.records, table, name).Some?
    requires i < |indexes| && indexes[i].def.name == name
    ensures Loads(ForTable(R.Omitting(g.records, R.Find(g.records, table, name).value), table), indexes[..i] + indexes[i + 1..])
  {
    hide Readable, DefOf, ForTable, R.Sane;
    var own, at := ForTable(g.records, table), R.Find(g.records, table, name).value;
    ForTableSplit(g.records, at, table);
    var k := Ranked(g.records, at);
    NameRead(own, indexes, i);
    OwnOnce(g, table, i, k);
    LoadsWithout(own, indexes, i);
  }

  lemma NameRead(own: seq<R.Record>, indexes: seq<IndexEntry>, i: nat)
    requires Loads(own, indexes) && i < |own|
    ensures indexes[i].def.name == own[i].def.name
  {}

  lemma LoadsWithout(own: seq<R.Record>, indexes: seq<IndexEntry>, i: nat)
    requires Loads(own, indexes) && i < |own|
    ensures Loads(R.Omitting(own, i), indexes[..i] + indexes[i + 1..])
  {
    hide Readable, DefOf;
  }

  /** A table has one record of a name. */
  lemma OwnOnce(g: R.Registry, table: string, i: nat, k: nat)
    requires R.Sane(g) && i < |ForTable(g.records, table)| && k < |ForTable(g.records, table)|
    requires ForTable(g.records, table)[i].def.name == ForTable(g.records, table)[k].def.name
    ensures i == k
  {
    OwnApart(g.records, table);
    var own := ForTable(g.records, table);
    assert own[i] in g.records && own[k] in g.records;
  }

  predicate Apart(own: seq<R.Record>) { forall i, j | 0 <= i < j < |own| :: own[i] != own[j] }

  lemma {:induction false} OwnApart(records: seq<R.Record>, table: string)
    requires forall i, j | 0 <= i < j < |records| :: records[i].id != records[j].id
    ensures Apart(ForTable(records, table))
    decreases |records|
  {
    if records != [] {
      hide ForTable;
      var n := |records| - 1;
      var front := records[..n];
      assert records == front + [records[n]];
      ForTableGrows(front, records[n], table);
      forall i, j | 0 <= i < j < |front| ensures front[i].id != front[j].id { assert front[i] == records[i] && front[j] == records[j]; }
      OwnApart(front, table);
      forall x | x in front ensures x != records[n] {
        var i :| 0 <= i < n && front[i] == x;
        assert records[i].id != records[n].id;
      }
      var less := ForTable(front, table);
      assert records[n] !in less;
      if records[n].table == table { AppendApart(less, records[n]); }
    }
  }

  lemma AppendApart(items: seq<R.Record>, x: R.Record)
    requires x !in items && Apart(items)
    ensures Apart(items + [x])
  {}

  /** Another table's records are not touched. */
  lemma OthersAgree(g: R.Registry, table: string, def: R.Def, name: string, other: string)
    requires other != table
    ensures ForTable(g.records + [R.Record(table, g.nextId, def)], other) == ForTable(g.records, other)
    ensures R.Find(g.records, table, name).Some? ==>
              ForTable(R.Omitting(g.records, R.Find(g.records, table, name).value), other) == ForTable(g.records, other)
  {
    ForTableGrows(g.records, R.Record(table, g.nextId, def), other);
    if R.Find(g.records, table, name).Some? { ForTableSplit(g.records, R.Find(g.records, table, name).value, other); }
  }

  /** The table has a record of that very definition. */
  predicate Recorded(g: R.Registry, table: string, def: R.Def) {
    exists i :: 0 <= i < |g.records| && g.records[i].table == table && g.records[i].def == def
  }

  predicate NameTaken(g: R.Registry, table: string, name: string) {
    exists i :: 0 <= i < |g.records| && g.records[i].table == table && g.records[i].def.name == name
  }

  /** A new name and a pattern that can be read, no two entities a unique index could not
      tell apart, and room for an id and a record in 32 bits. */
  ghost predicate Registrable(g: R.Registry, table: string, def: R.Def, t: Option<Tree>) {
    && !NameTaken(g, table, def.name) && Readable(def) && NoTwins(t, IndexEntry(g.nextId, DefOf(def)))
    && g.nextId + 1 < 0x1_0000_0000 && |g.records| + 1 < 0x1_0000_0000
  }

  /** Registers an index and fills it in, in one transaction: on any error neither the
      registry nor the table has changed. It succeeds for a new registrable definition, and
      for one already recorded, which changes nothing; another one of a recorded name is a
      mismatch. */
  method CreateIndexOn(repo: R.Repository, it: IndexedTable, table: string, def: R.Def) returns (r: Result<()>)
    requires repo.Valid() && it.Valid() && Agrees(repo.registry, table, it.indexes, it.nextId)
    requires R.Fits(table) && R.Recordable(def)
    modifies repo, it`data, it`indexes, it`nextId
    ensures repo.Valid() && it.Valid() && it.table.tree == old(it.table.tree)
    ensures Agrees(repo.registry, table, it.indexes, it.nextId)
    ensures r.Err? ==> repo.registry == old(repo.registry) && it.data == old(it.data) && it.indexes == old(it.indexes)
    ensures r.Ok? <==> Recorded(old(repo.registry), table, def) || Registrable(old(repo.registry), table, def, it.table.tree)
    ensures r == Err(SchemaMismatch) <==>
              NameTaken(old(repo.registry), table, def.name) && !Recorded(old(repo.registry), table, def)
    ensures Recorded(old(repo.registry), table, def) ==>
              repo.registry == old(repo.registry) && it.data == old(it.data) && it.indexes == old(it.indexes)
    ensures r.Ok? ==> Readable(def) && DefOf(def) in Defs(it.indexes)
    ensures r.Ok? && !Recorded(old(repo.registry), table, def) ==>
              && repo.registry.records == old(repo.registry).records + [R.Record(table, old(repo.registry).nextId, def)]
              && it.indexes == old(it.indexes) + [IndexEntry(old(repo.registry).nextId, DefOf(def))]
    ensures forall other | other != table :: ForTable(repo.registry.records, other) == ForTable(old(repo.registry).records, other)
  {
    hide Readable, DefOf, ForTable, R.Recordable, R.Fits, R.Sane, R.RegistryFits, R.EncodeRegistry, R.Holds,
         R.Find, R.Room, Loads, Inv, Moves, NoTwins, Pow256, Creatable;
    var stored := repo.stored;
    ghost var g, given, indexes := repo.registry, repo.given, it.indexes;
    forall other | other != table
      ensures ForTable(g.records + [R.Record(table, g.nextId, def)], other) == ForTable(g.records, other)
    {
      OthersAgree(g, table, def, "", other);
    }
    var created := repo.Create(table, def);
    if created.Err? {
      return Err(created.error);
    }
    FindIs(g, table, indexes, def.name);
    if !created.value {
      ghost var i :| 0 <= i < |g.records| && g.records[i].table == table && g.records[i].def == def;
      RecordedReads(g, table, indexes, i);
      SameRecorded(g, table, indexes, def);
      return Ok(());
    }
    var pattern := PatternText.Parse(def.pattern);
    DefRead(def);
    if pattern.Err? {
      RollBack(repo, stored, g, given);
      return Err(pattern.error);
    }
    IdsFitRegistry(g, repo.stored, repo.registry, repo.given);
    var loaded := repo.Load();
    it.OtherTable(loaded.nextId - 1);
    R.Limit();
    DefRead(def);
    assert !NameTaken(g, table, def.name);
    NotNamed(indexes, DefOf(def));
    CreatableIs(g, table, def, it.table.tree, indexes);
    r := it.CreateIndex(IndexDef(def.name, def.pattern, pattern.value, PathsOf(def.columns), DirectionsOf(def.columns), def.unique));
    if r.Err? {
      RollBack(repo, stored, g, given);
      return;
    }
    SameRecorded(g, table, indexes, def);
    CreatedAgrees(g, table, indexes, def);
    assert Defs(it.indexes)[|indexes|] == DefOf(def);
  }

  /** Registers an index only where the name is free; an index of that name stays as it
      is, whatever its definition. */
  method EnsureIndexOn(repo: R.Repository, it: IndexedTable, table: string, def: R.Def) returns (r: Result<()>)
    requires repo.Valid() && it.Valid() && Agrees(repo.registry, table, it.indexes, it.nextId)
    requires R.Fits(table) && R.Recordable(def)
    modifies repo, it`data, it`indexes, it`nextId
    ensures repo.Valid() && it.Valid() && it.table.tree == old(it.table.tree)
    ensures Agrees(repo.registry, table, it.indexes, it.nextId)
    ensures r.Ok? <==> NameTaken(old(repo.registry), table, def.name)
                       || Registrable(old(repo.registry), table, def, it.table.tree)
    ensures r.Err? || NameTaken(old(repo.registry), table, def.name) ==>
              repo.registry == old(repo.registry) && it.data == old(it.data) && it.indexes == old(it.indexes)
    ensures r.Ok? && !NameTaken(old(repo.registry), table, def.name) ==>
              && repo.registry.records == old(repo.registry).records + [R.Record(table, old(repo.registry).nextId, def)]
              && it.indexes == old(it.indexes) + [IndexEntry(old(repo.registry).nextId, DefOf(def))]
    ensures forall other | other != table :: ForTable(repo.registry.records, other) == ForTable(old(repo.registry).records, other)
  {
    hide Readable, DefOf, ForTable, R.Recordable, R.Fits, R.Sane, R.RegistryFits, R.EncodeRegistry, R.Holds,
         R.Find, R.Room, Loads, NoTwins, Registrable;
    FindIs(repo.registry, table, it.indexes, def.name);
    var there := repo.Has(table, def.name);
    if there {
      return Ok(());
    }
    assert !Recorded(repo.registry, table, def);
    r := CreateIndexOn(repo, it, table, def);
    assert Registrable(old(repo.registry), table, def, it.table.tree) ==> !NameTaken(old(repo.registry), table, def.name) by {
      RegistrableIsNew(old(repo.registry), table, def, it.table.tree);
    }
  }

  lemma RegistrableIsNew(g: R.Registry, table: string, def: R.Def, t: Option<Tree>)
    ensures Registrable(g, table, def, t) ==> !NameTaken(g, table, def.name)
  {}

  lemma CreatableIs(g: R.Registry, table: string, def: R.Def, t: Option<Tree>, indexes: seq<IndexEntry>)
    requires Readable(def) && NoneNamed(indexes, def.name) && !NameTaken(g, table, def.name)
    requires g.nextId + 1 < 0x1_0000_0000 && |g.records| + 1 < 0x1_0000_0000
    ensures Creatable(DefOf(def), indexes, g.nextId, t) <==> Registrable(g, table, def, t)
  {
    hide NoTwins, NameTaken, PatternText.ParsePattern;
    R.Limit();
  }

  /** A dropped transaction leaves the registry as it was. */
  method RollBack(repo: R.Repository, stored: Option<bytes>, ghost g: R.Registry, ghost given: set<nat>)
    requires R.Holds(stored, g, given)
    modifies repo
    ensures repo.Valid() && repo.registry == g && repo.given == given
  {
    repo.stored := stored;
    repo.registry, repo.given := g, given;
  }

  lemma IdsFitRegistry(was: R.Registry, stored: Option<bytes>, now: R.Registry, given: set<nat>)
    requires now.nextId == was.nextId + 1 && R.Holds(stored, now, given)
    ensures now.nextId <= Pow256(4) && was.nextId + 1 < Pow256(4)
  {
    R.Limit();
  }

  /** Drops an index, its record and its entries, in one transaction. */
  method DropIndexOn(repo: R.Repository, it: IndexedTable, table: string, name: string) returns (found: bool)
    requires repo.Valid() && it.Valid() && Agrees(repo.registry, table, it.indexes, it.nextId) && it.table.issued <= Pow256(16)
    modifies repo, it`data, it`indexes
    ensures repo.Valid() && it.Valid() && it.table.tree == old(it.table.tree)
    ensures Agrees(repo.registry, table, it.indexes, it.nextId)
    ensures found <==> !NoneNamed(old(it.indexes), name)
    ensures NoneNamed(it.indexes, name) && repo.registry.nextId == old(repo.registry).nextId
    ensures forall other | other != table :: ForTable(repo.registry.records, other) == ForTable(old(repo.registry).records, other)
  {
    hide Readable, DefOf, ForTable, R.Sane, R.RegistryFits, R.EncodeRegistry, Inv, Moves, NoTwins, Pow256, Dropped;
    ghost var g, indexes, data := repo.registry, it.indexes, it.data;
    FindIs(g, table, indexes, name);
    forall other | other != table && R.Find(g.records, table, name).Some?
      ensures ForTable(R.Omitting(g.records, R.Find(g.records, table, name).value), other) == ForTable(g.records, other)
    {
      OthersAgree(g, table, R.Def("", "", [], false), name, other);
    }
    var removed := repo.Delete(table, name);
    if removed.None? {
      return false;
    }
    found := it.DropIndex(name);
    ghost var i :| Dropped(indexes, it.indexes, data, it.data, name, i);
    DroppedIs(indexes, it.indexes, data, it.data, name, i);
    DroppedAgrees(g, table, indexes, name, i);
  }

  lemma DroppedIs(was: seq<IndexEntry>, now: seq<IndexEntry>, data: Entries, left: Entries, name: string, i: nat)
    requires Dropped(was, now, data, left, name, i)
    ensures i < |was| && was[i].def.name == name && now == was[..i] + was[i + 1..]
  {}
}
