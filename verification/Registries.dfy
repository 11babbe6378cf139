/** The index registry: one blob holding an id allocator and every index definition. */
module Registries {
  import opened Basics
  import opened Bytes
  import opened ScalarCodec
  import opened Paths
  import PathText
  import Utf8

  datatype Column = Column(path: Path, descending: bool)

  datatype Def = Def(name: string, pattern: string, columns: seq<Column>, unique: bool)

  datatype Record = Record(table: string, id: nat, def: Def)

  /** The allocator's next id, and the records in registration order. */
  datatype Registry = Registry(nextId: nat, records: seq<Record>)

  const U32_LIMIT: nat := 0x1_0000_0000

  /** A text fits behind its 32-bit length. */
  predicate Fits(s: string) { |Utf8.Encode(s)| < U32_LIMIT }

  /** A definition that its record can carry: short texts, and column paths whose text reads back. */
  predicate Recordable(d: Def) {
    && Fits(d.name) && Fits(d.pattern) && |d.columns| < U32_LIMIT
    && forall i | 0 <= i < |d.columns| :: PathText.GoodPath(d.columns[i].path) && Fits(PathText.Print(d.columns[i].path))
  }

  predicate RecordFits(r: Record) { Fits(r.table) && r.id < U32_LIMIT && Recordable(r.def) }

  predicate RegistryFits(g: Registry) {
    g.nextId < U32_LIMIT && |g.records| < U32_LIMIT && forall i | 0 <= i < |g.records| :: RecordFits(g.records[i])
  }

  lemma Limit()
    ensures Pow256(4) == U32_LIMIT
  {
    assert Pow256(2) == 0x1_0000;
  }

  // ----- the bytes --------------------------------------------------------------

  function PutU32(n: nat): (b: bytes)
    requires n < U32_LIMIT
    ensures |b| == 4
  {
    Limit();
    BigEndian(n, 4)
  }

  function PutText(s: string): bytes
    requires Fits(s)
  {
    Limit();
    PutBytes(Utf8.Encode(s))
  }

  function ColumnBytes(columns: seq<Column>): bytes
    requires forall i | 0 <= i < |columns| :: PathText.GoodPath(columns[i].path) && Fits(PathText.Print(columns[i].path))
  {
    if columns == [] then []
    else PutText(PathText.Print(columns[0].path)) + [if columns[0].descending then 1 else 0] + ColumnBytes(columns[1..])
  }

  function DefBytes(d: Def): bytes
    requires Recordable(d)
  {
    PutText(d.name) + PutText(d.pattern) + [if d.unique then 1 else 0] + PutU32(|d.columns|) + ColumnBytes(d.columns)
  }

  function RecordBytes(r: Record): bytes
    requires RecordFits(r)
  {
    PutText(r.table) + PutU32(r.id) + DefBytes(r.def)
  }

  function RecordsBytes(records: seq<Record>): bytes
    requires forall i | 0 <= i < |records| :: RecordFits(records[i])
  {
    if records == [] then [] else RecordBytes(records[0]) + RecordsBytes(records[1..])
  }

  function EncodeRegistry(g: Registry): bytes
    requires RegistryFits(g)
  {
    PutU32(g.nextId) + PutU32(|g.records|) + RecordsBytes(g.records)
  }

  // ----- reading, as functions of what is left ----------------------------------

  function TakeU8(b: bytes): Option<(byte, bytes)> {
    if b == [] then None else Some((b[0], b[1..]))
  }

  function TakeU32(b: bytes): Option<(nat, bytes)> {
    if |b| < 4 then None else Some((FromBigEndian(b[..4]), b[4..]))
  }

  function TakeText(b: bytes): Option<(string, bytes)> {
    match TakeBytes(b)
    case None => None
    case Some((run, rest)) => match Utf8.Decode(run) case Some(s) => Some((s, rest)) case None => None
  }

  function TakeColumns(n: nat, b: bytes): Option<(seq<Column>, bytes)>
    decreases n
  {
    if n == 0 then Some(([], b))
    else match TakeText(b)
         case None => None
         case Some((text, b1)) =>
           match (PathText.Parse(text), TakeU8(b1))
           case (Ok(path), Some((flag, b2))) =>
             if flag > 1 then None
             else (match TakeColumns(n - 1, b2)
                   case Some((more, rest)) => Some(([Column(path, flag == 1)] + more, rest))
                   case None => None)
           case _ => None
  }

  function TakeDef(b: bytes): Option<(Def, bytes)> {
    match TakeText(b) case None => None case Some((name, b1)) =>
    match TakeText(b1) case None => None case Some((pattern, b2)) =>
    match TakeU8(b2) case None => None case Some((unique, b3)) =>
    match TakeU32(b3) case None => None case Some((count, b4)) =>
    match TakeColumns(count, b4) case None => None case Some((columns, rest)) =>
      Some((Def(name, pattern, columns, unique != 0), rest))
  }

  function TakeRecord(b: bytes): Option<(Record, bytes)> {
    match TakeText(b) case None => None case Some((table, b1)) =>
    match TakeU32(b1) case None => None case Some((id, b2)) =>
    match TakeDef(b2) case None => None case Some((def, rest)) =>
      Some((Record(table, id, def), rest))
  }

  function TakeRecords(n: nat, b: bytes): Option<(seq<Record>, bytes)>
    decreases n
  {
    if n == 0 then Some(([], b))
    else match TakeRecord(b) case None => None case Some((r, b1)) =>
         match TakeRecords(n - 1, b1) case None => None case Some((more, rest)) => Some(([r] + more, rest))
  }

  function DecodeRegistry(b: bytes): Option<Registry> {
    match TakeU32(b) case None => None case Some((nextId, b1)) =>
    match TakeU32(b1) case None => None case Some((count, b2)) =>
    match TakeRecords(count, b2) case None => None case Some((records, _)) => Some(Registry(nextId, records))
  }

  // ----- round trips ------------------------------------------------------------

  lemma TakePutU32(n: nat, rest: bytes)
    requires n < U32_LIMIT
    ensures TakeU32(PutU32(n) + rest) == Some((n, rest))
  {
    Limit();
    BigEndianRoundTrip(n, 4);
    assert (PutU32(n) + rest)[..4] == PutU32(n) && (PutU32(n) + rest)[4..] == rest;
  }

  lemma TakePutText(s: string, rest: bytes)
    requires Fits(s)
    ensures TakeText(PutText(s) + rest) == Some((s, rest))
  {
    hide Utf8.Encode, Utf8.Decode, PutBytes, TakeBytes;
    Limit();
    TakePut(Utf8.Encode(s), rest);
    Utf8.DecodeEncode(s);
  }

  lemma TakePutU8(b: byte, rest: bytes)
    ensures TakeU8([b] + rest) == Some((b, rest))
  {
    assert ([b] + rest)[1..] == rest;
  }

  lemma {:induction false} TakePutColumns(columns: seq<Column>, rest: bytes)
    requires forall i | 0 <= i < |columns| :: PathText.GoodPath(columns[i].path) && Fits(PathText.Print(columns[i].path))
    ensures TakeColumns(|columns|, ColumnBytes(columns) + rest) == Some((columns, rest))
    decreases |columns|
  {
    hide PutText, TakeText, TakeU8, PathText.Parse, PathText.Print, PathText.GoodPath;
    if columns == [] {
      assert [] + rest == rest;
    } else {
      var c := columns[0];
      var flag: byte := if c.descending then 1 else 0;
      var more := ColumnBytes(columns[1..]) + rest;
      assert ColumnBytes(columns) + rest == PutText(PathText.Print(c.path)) + ([flag] + more);
      TakePutText(PathText.Print(c.path), [flag] + more);
      TakePutU8(flag, more);
      PathText.ParsePrint(c.path);
      TakePutColumns(columns[1..], rest);
      assert [c] + columns[1..] == columns;
    }
  }

  lemma TakePutDef(d: Def, rest: bytes)
    requires Recordable(d)
    ensures TakeDef(DefBytes(d) + rest) == Some((d, rest))
  {
    hide PutText, TakeText, TakeU8, TakeU32, PutU32, TakeColumns, ColumnBytes, Fits, PathText.Print, PathText.GoodPath;
    var flag: byte := if d.unique then 1 else 0;
    var e := ColumnBytes(d.columns) + rest;
    var c := PutU32(|d.columns|) + e;
    var b := [flag] + c;
    var a := PutText(d.pattern) + b;
    assert DefBytes(d) + rest == PutText(d.name) + a;
    TakePutText(d.name, a);
    TakePutText(d.pattern, b);
    TakePutU8(flag, c);
    TakePutU32(|d.columns|, e);
    TakePutColumns(d.columns, rest);
  }

  lemma TakePutRecord(r: Record, rest: bytes)
    requires RecordFits(r)
    ensures TakeRecord(RecordBytes(r) + rest) == Some((r, rest))
  {
    hide PutText, TakeText, TakeU32, PutU32, TakeDef, DefBytes, Recordable, Fits;
    var b := DefBytes(r.def) + rest;
    var a := PutU32(r.id) + b;
    assert RecordBytes(r) + rest == PutText(r.table) + a;
    TakePutText(r.table, a);
    TakePutU32(r.id, b);
    TakePutDef(r.def, rest);
  }

  lemma {:induction false} TakePutRecords(records: seq<Record>, rest: bytes)
    requires forall i | 0 <= i < |records| :: RecordFits(records[i])
    ensures TakeRecords(|records|, RecordsBytes(records) + rest) == Some((records, rest))
    decreases |records|
  {
    hide TakeRecord, RecordBytes, RecordFits;
    if records == [] {
      assert [] + rest == rest;
    } else {
      var more := RecordsBytes(records[1..]) + rest;
      assert RecordsBytes(records) + rest == RecordBytes(records[0]) + more;
      TakePutRecord(records[0], more);
      TakePutRecords(records[1..], rest);
      assert [records[0]] + records[1..] == records;
    }
  }

  /** What was stored is what is loaded. */
  lemma RegistryRoundTrip(g: Registry)
    requires RegistryFits(g)
    ensures DecodeRegistry(EncodeRegistry(g)) == Some(g)
  {
    hide TakeU32, PutU32, TakeRecords, RecordsBytes, RecordFits;
    var b := RecordsBytes(g.records) + [];
    var a := PutU32(|g.records|) + b;
    assert EncodeRegistry(g) == PutU32(g.nextId) + a;
    TakePutU32(g.nextId, a);
    TakePutU32(|g.records|, b);
    TakePutRecords(g.records, []);
  }

  // ----- the cursor -------------------------------------------------------------

  class Reader {
    const buf: bytes
    var pos: nat

    ghost predicate Valid()
      reads this
    {
      pos <= |buf|
    }

    /** What has not been read yet. */
    ghost function Left(): bytes
      reads this
      requires Valid()
    {
      buf[pos..]
    }

    constructor (data: bytes)
      ensures Valid() && Left() == data
    {
      buf, pos := data, 0;
    }

    method Take(n: nat) returns (r: Result<bytes>)
      requires Valid()
      modifies this
      ensures Valid()
      ensures r.Ok? <==> n <= |old(Left())|
      ensures r.Ok? ==> r.value == old(Left())[..n] && Left() == old(Left())[n..]
      ensures r.Err? ==> Left() == old(Left())
    {
      var end := pos + n;
      if end > |buf| {
        return Err(Corrupt);
      }
      var slice := buf[pos..end];
      assert buf[pos..][..n] == slice && buf[pos..][n..] == buf[end..];
      pos := end;
      r := Ok(slice);
    }

    method U8() returns (r: Result<byte>)
      requires Valid()
      modifies this
      ensures Valid() && (r.Ok? <==> TakeU8(old(Left())).Some?)
      ensures r.Ok? ==> TakeU8(old(Left())) == Some((r.value, Left()))
    {
      var run := Take(1);
      r := if run.Ok? then Ok(run.value[0]) else Err(Corrupt);
    }

    method U32() returns (r: Result<nat>)
      requires Valid()
      modifies this
      ensures Valid() && (r.Ok? <==> TakeU32(old(Left())).Some?)
      ensures r.Ok? ==> TakeU32(old(Left())) == Some((r.value, Left()))
    {
      var run := Take(4);
      r := if run.Ok? then Ok(FromBigEndian(run.value)) else Err(Corrupt);
    }

    /** A run behind its length. */
    method Bytes() returns (r: Result<bytes>)
      requires Valid()
      modifies this
      ensures Valid() && (r.Ok? <==> TakeBytes(old(Left())).Some?)
      ensures r.Ok? ==> TakeBytes(old(Left())) == Some((r.value, Left()))
    {
      hide FromBigEndian;
      ghost var all := Left();
      var n := U32();
      if n.Err? {
        return Err(n.error);
      }
      r := Take(n.value);
      if r.Ok? {
        assert all[4..][..n.value] == all[4..4 + n.value] && all[4..][n.value..] == all[4 + n.value..];
      }
    }

    method Text() returns (r: Result<string>)
      requires Valid()
      modifies this
      ensures Valid() && (r.Ok? <==> TakeText(old(Left())).Some?)
      ensures r.Ok? ==> TakeText(old(Left())) == Some((r.value, Left()))
    {
      hide Utf8.Decode, TakeBytes;
      var run := Bytes();
      if run.Err? {
        return Err(run.error);
      }
      var text := Utf8.Decode(run.value);
      r := if text.Some? then Ok(text.value) else Err(Corrupt);
    }

    method ReadDef() returns (r: Result<Def>)
      requires Valid()
      modifies this
      ensures Valid() && (r.Ok? <==> TakeDef(old(Left())).Some?)
      ensures r.Ok? ==> TakeDef(old(Left())) == Some((r.value, Left()))
    {
      hide TakeText, TakeU8, TakeU32, TakeColumns;
      var name := Text();
      if name.Err? { return Err(name.error); }
      var pattern := Text();
      if pattern.Err? { return Err(pattern.error); }
      var unique := U8();
      if unique.Err? { return Err(unique.error); }
      var count := U32();
      if count.Err? { return Err(count.error); }
      var columns := ReadColumns(count.value);
      if columns.Err? { return Err(columns.error); }
      r := Ok(Def(name.value, pattern.value, columns.value, unique.value != 0));
    }

    method ReadColumns(count: nat) returns (r: Result<seq<Column>>)
      requires Valid()
      modifies this
      ensures Valid() && (r.Ok? <==> TakeColumns(count, old(Left())).Some?)
      ensures r.Ok? ==> TakeColumns(count, old(Left())) == Some((r.value, Left()))
    {
      hide TakeText, TakeU8, PathText.Parse;
      var columns: seq<Column> := [];
      ghost var all := Left();
      JoinedEnds(columns, TakeColumns(count, all));
      for i := 0 to count
        invariant Valid() && |columns| == i
        invariant TakeColumns(count, all) == Joined(columns, TakeColumns(count - i, Left()))
      {
        ghost var here := Left();
        var text := Text();
        if text.Err? { return Err(text.error); }
        var path := PathText.FromStr(text.value);
        if path.Err? { return Err(path.error); }
        var flag := U8();
        if flag.Err? { return Err(flag.error); }
        if flag.value > 1 { return Err(Corrupt); }
        JoinedStep(columns, Column(path.value, flag.value == 1), TakeColumns(count - i - 1, Left()));
        columns := columns + [Column(path.value, flag.value == 1)];
      }
      assert columns + [] == columns;
      r := Ok(columns);
    }

    method ReadRecord() returns (r: Result<Record>)
      requires Valid()
      modifies this
      ensures Valid() && (r.Ok? <==> TakeRecord(old(Left())).Some?)
      ensures r.Ok? ==> TakeRecord(old(Left())) == Some((r.value, Left()))
    {
      hide TakeText, TakeU32, TakeDef;
      var table := Text();
      if table.Err? { return Err(table.error); }
      var id := U32();
      if id.Err? { return Err(id.error); }
      var def := ReadDef();
      if def.Err? { return Err(def.error); }
      r := Ok(Record(table.value, id.value, def.value));
    }

    /** Reads a definition's name alone, stepping over the rest of it. */
    method ReadDefName() returns (r: Result<string>)
      requires Valid()
      modifies this
      ensures Valid() && (TakeDef(old(Left())).Some? ==> r == Ok(TakeDef(old(Left())).value.0.name) && Left() == TakeDef(old(Left())).value.1)
    {
      hide TakeText, TakeU8, TakeU32, TakeBytes, TakeColumns;
      ghost var all := Left();
      var run := Bytes();
      if run.Err? { TextIsBytes(all); return Err(run.error); }
      TextIsBytes(all);
      var name := Utf8.Decode(run.value);
      if name.None? { return Err(Corrupt); }
      ghost var b1 := Left();
      TextIsBytes(b1);
      var pattern := Bytes();
      if pattern.Err? { return Err(pattern.error); }
      var unique := U8();
      if unique.Err? { return Err(unique.error); }
      var count := U32();
      if count.Err? { return Err(count.error); }
      var skipped := SkipColumns(count.value);
      r := if skipped.Ok? then Ok(name.value) else Err(skipped.error);
    }

    method SkipColumns(count: nat) returns (r: Result<()>)
      requires Valid()
      modifies this
      ensures Valid() && (TakeColumns(count, old(Left())).Some? ==> r == Ok(()) && Left() == TakeColumns(count, old(Left())).value.1)
    {
      hide TakeText, TakeU8, TakeBytes, PathText.Parse;
      ghost var all := Left();
      for i := 0 to count
        invariant Valid()
        invariant Ends(TakeColumns(count, all), TakeColumns(count - i, Left()))
      {
        TextIsBytes(Left());
        var path := Bytes();
        if path.Err? { return Err(path.error); }
        var direction := U8();
        if direction.Err? { return Err(direction.error); }
      }
      r := Ok(());
    }
  }

  /** Both readings, where the first succeeds, end at the same place. */
  predicate Ends(a: Option<(seq<Column>, bytes)>, b: Option<(seq<Column>, bytes)>) {
    a.Some? ==> b.Some? && b.value.1 == a.value.1
  }

  lemma TextIsBytes(b: bytes)
    ensures TakeText(b) == match TakeBytes(b)
                           case None => None
                           case Some((run, rest)) => (match Utf8.Decode(run) case Some(s) => Some((s, rest)) case None => None)
  {}

  function Joined<T>(front: seq<T>, r: Option<(seq<T>, bytes)>): Option<(seq<T>, bytes)> {
    match r case Some((more, rest)) => Some((front + more, rest)) case None => None
  }

  lemma JoinedEnds<T>(front: seq<T>, r: Option<(seq<T>, bytes)>)
    requires front == []
    ensures Joined(front, r) == r
  {
    if r.Some? { assert front + r.value.0 == r.value.0; }
  }

  lemma JoinedStep<T>(front: seq<T>, x: T, r: Option<(seq<T>, bytes)>)
    ensures Joined(front, Joined([x], r)) == Joined(front + [x], r)
  {
    if r.Some? { assert front + ([x] + r.value.0) == front + [x] + r.value.0; }
  }

  // ----- the repository ---------------------------------------------------------

  function Omitting<T>(items: seq<T>, at: nat): seq<T>
    requires at < |items|
  {
    items[..at] + items[at + 1..]
  }

  /** The record of that name on that table. */
  function Find(records: seq<Record>, table: string, name: string): (at: Option<nat>)
    ensures at.Some? ==> at.value < |records| && records[at.value].table == table && records[at.value].def.name == name
    ensures at.None? ==> forall i | 0 <= i < |records| :: !(records[i].table == table && records[i].def.name == name)
  {
    if records == [] then None
    else if records[0].table == table && records[0].def.name == name then Some(0)
    else match Find(records[1..], table, name) case Some(i) => Some(i + 1) case None =>
      assert forall i | 1 <= i < |records| :: records[i] == records[1..][i - 1];
      None
  }

  /** Ids distinct and below the allocator, and one record a name on each table. */
  predicate Sane(g: Registry) {
    && (forall i | 0 <= i < |g.records| :: g.records[i].id < g.nextId)
    && (forall i, j | 0 <= i < j < |g.records| :: g.records[i].id != g.records[j].id)
    && (forall i, j | 0 <= i < j < |g.records| ::
          !(g.records[i].table == g.records[j].table && g.records[i].def.name == g.records[j].def.name))
  }

  /** An id is left to give, and a record's place. */
  predicate Room(g: Registry) { g.nextId + 1 < U32_LIMIT && |g.records| + 1 < U32_LIMIT }

  /** The blob, if any, holds the registry, whose ids are among those given out. */
  ghost predicate Holds(stored: Option<bytes>, g: Registry, given: set<nat>) {
    && RegistryFits(g) && Sane(g)
    && (if stored.None? then g == Registry(0, []) else stored.value == EncodeRegistry(g))
    && (forall id | id in given :: id < g.nextId)
    && forall i | 0 <= i < |g.records| :: g.records[i].id in given
  }

  class Repository {
    /** The registry blob, once one has been stored. */
    var stored: Option<bytes>
    /** The registry the blob holds, and every id ever given out. */
    ghost var registry: Registry
    ghost var given: set<nat>

    ghost predicate Valid()
      reads this
    {
      Holds(stored, registry, given)
    }

    constructor ()
      ensures Valid() && given == {} && registry == Registry(0, [])
    {
      stored, registry, given := None, Registry(0, []), {};
    }

    method Load() returns (g: Registry)
      requires Valid()
      ensures g == registry
    {
      hide DecodeRegistry, EncodeRegistry, Sane, RegistryFits;
      if stored.None? {
        return Registry(0, []);
      }
      RegistryRoundTrip(registry);
      g := ReadRegistry(stored.value, registry);
    }

    method Lookup(table: string, name: string) returns (r: Option<Record>)
      requires Valid()
      ensures r == match Find(registry.records, table, name) case Some(i) => Some(registry.records[i]) case None => None
    {
      var g := Load();
      var at := Find(g.records, table, name);
      r := if at.Some? then Some(g.records[at.value]) else None;
    }

    /** Whether a record of that name is there, reading names only. It agrees with `Lookup`. */
    method Has(table: string, name: string) returns (found: bool)
      requires Valid()
      ensures found <==> Find(registry.records, table, name).Some?
    {
      hide DecodeRegistry, EncodeRegistry, Sane, RegistryFits;
      if stored.None? {
        return false;
      }
      RegistryRoundTrip(registry);
      found := ScanNames(stored.value, registry, table, name);
    }

    /** Registers a definition under a fresh id. The same definition again changes
        nothing; another one of that name is refused. */
    method Create(table: string, def: Def) returns (r: Result<bool>)
      requires Valid() && Fits(table) && Recordable(def)
      modifies this
      ensures Valid()
      ensures r.Err? || r == Ok(false) ==> registry == old(registry) && given == old(given) && stored == old(stored)
      ensures r == Ok(false) <==> exists i :: 0 <= i < |old(registry).records| && old(registry).records[i].table == table
                                             && old(registry).records[i].def == def
      ensures r == Ok(true) ==>
                && old(registry).nextId !in old(given) && given == old(given) + {old(registry).nextId}
                && registry == Registry(old(registry).nextId + 1, old(registry).records + [Record(table, old(registry).nextId, def)])
      ensures r == Ok(true) <==>
                && (forall i | 0 <= i < |old(registry).records| ::
                      !(old(registry).records[i].table == table && old(registry).records[i].def.name == def.name))
                && old(registry).nextId + 1 < 0x1_0000_0000 && |old(registry).records| + 1 < 0x1_0000_0000
      ensures r == Err(SchemaMismatch) <==>
                exists i :: 0 <= i < |old(registry).records| && old(registry).records[i].table == table
                            && old(registry).records[i].def.name == def.name && old(registry).records[i].def != def
    {
      hide DecodeRegistry, EncodeRegistry, RecordFits, Recordable, Fits;
      var g := Load();
      var at := Find(g.records, table, def.name);
      if at.Some? {
        OneOfName(g, table, def, at.value);
        return if g.records[at.value].def == def then Ok(false) else Err(SchemaMismatch);
      }
      if !Room(g) {
        return Err(Corrupt);
      }
      NewRecordFits(table, g.nextId, def);
      var grown := Registry(g.nextId + 1, g.records + [Record(table, g.nextId, def)]);
      stored := Some(EncodeRegistry(grown));
      registry, given := grown, given + {g.nextId};
      r := Ok(true);
    }

    /** Removes a record; the allocator stays where it is, so its id is never given again. */
    method Delete(table: string, name: string) returns (r: Option<Record>)
      requires Valid()
      modifies this
      ensures Valid() && given == old(given) && registry.nextId == old(registry).nextId
      ensures r.None? <==> Find(old(registry).records, table, name).None?
      ensures r.None? ==> registry == old(registry)
      ensures r.Some? ==> r.value in old(registry).records && r.value.table == table && r.value.def.name == name
      ensures r.Some? ==> forall x :: x in registry.records <==> x in old(registry).records && x != r.value
      ensures r.Some? ==> registry.records == Omitting(old(registry).records, Find(old(registry).records, table, name).value)
      ensures Find(registry.records, table, name).None?
    {
      hide DecodeRegistry, EncodeRegistry, RecordFits;
      var g := Load();
      var at := Find(g.records, table, name);
      if at.None? {
        return None;
      }
      var rest := Omitting(g.records, at.value);
      Shrunk(g, at.value);
      var left := Registry(g.nextId, rest);
      stored := Some(EncodeRegistry(left));
      registry := left;
      r := Some(g.records[at.value]);
    }
  }

  lemma OneOfName(g: Registry, table: string, def: Def, at: nat)
    requires Sane(g) && at < |g.records| && g.records[at].table == table && g.records[at].def.name == def.name
    ensures g.records[at].def == def <==> exists i :: 0 <= i < |g.records| && g.records[i].table == table && g.records[i].def == def
    ensures g.records[at].def != def <==>
              exists i :: 0 <= i < |g.records| && g.records[i].table == table && g.records[i].def.name == def.name && g.records[i].def != def
  {}

  lemma NewRecordFits(table: string, id: nat, def: Def)
    requires Fits(table) && Recordable(def) && id < U32_LIMIT
    ensures RecordFits(Record(table, id, def))
  {}

  lemma Shrunk(g: Registry, at: nat)
    requires Sane(g) && RegistryFits(g) && at < |g.records|
    ensures var rest := g.records[..at] + g.records[at + 1..];
            && Sane(Registry(g.nextId, rest)) && RegistryFits(Registry(g.nextId, rest))
            && (forall i | 0 <= i < |rest| :: rest[i] == g.records[if i < at then i else i + 1])
            && (forall x :: x in rest <==> x in g.records && x != g.records[at])
            && Find(rest, g.records[at].table, g.records[at].def.name).None?
  {
    hide RecordFits;
    var rest := g.records[..at] + g.records[at + 1..];
    assert forall i | 0 <= i < |rest| :: rest[i] == g.records[if i < at then i else i + 1];
    forall x | x in g.records && x != g.records[at] ensures x in rest {
      var i :| 0 <= i < |g.records| && g.records[i] == x;
      assert rest[if i < at then i else i - 1] == x;
    }
  }

  /** Decodes a whole registry blob. */
  method ReadRegistry(b: bytes, ghost g: Registry) returns (r: Registry)
    requires DecodeRegistry(b) == Some(g)
    ensures r == g
  {
    hide TakeU32, TakeRecord;
    var reader := new Reader(b);
    var nextId := reader.U32();
    var count := reader.U32();
    var records: seq<Record> := [];
    ghost var all := reader.Left();
    JoinedEnds(records, TakeRecords(count.value, all));
    for i := 0 to count.value
      invariant reader.Valid() && |records| == i
      invariant TakeRecords(count.value, all) == Joined(records, TakeRecords(count.value - i, reader.Left()))
    {
      var next := reader.ReadRecord();
      JoinedStep(records, next.value, TakeRecords(count.value - i - 1, reader.Left()));
      records := records + [next.value];
    }
    assert records + [] == records;
    r := Registry(nextId.value, records);
  }

  /** Walks the blob record by record, comparing names, until one matches. */
  method ScanNames(b: bytes, ghost g: Registry, table: string, name: string) returns (found: bool)
    requires DecodeRegistry(b) == Some(g)
    ensures found <==> Find(g.records, table, name).Some?
  {
    hide TakeU32, TakeText, TakeDef;
    var reader := new Reader(b);
    var nextId := reader.U32();
    var count := reader.U32();
    ghost var seen: seq<Record> := [];
    ghost var all := reader.Left();
    JoinedEnds(seen, TakeRecords(count.value, all));
    for i := 0 to count.value
      invariant reader.Valid() && |seen| == i
      invariant TakeRecords(count.value, all) == Joined(seen, TakeRecords(count.value - i, reader.Left()))
      invariant forall j | 0 <= j < i :: !(seen[j].table == table && seen[j].def.name == name)
    {
      ghost var here := reader.Left();
      var sameTable := reader.Text();
      var id := reader.U32();
      var entry := reader.ReadDefName();
      ghost var next := TakeRecord(here).value.0;
      JoinedStep(seen, next, TakeRecords(count.value - i - 1, reader.Left()));
      if sameTable.value == table && entry.value == name {
        assert g.records[i] == next;
        return true;
      }
      seen := seen + [next];
    }
    assert seen + [] == seen;
    return false;
  }
}
