/** The shared caches, and the protocol that keeps them from serving one snapshot's
    resolutions to a reader of another.

    The protocol runs in the smallest steps a thread can be stopped between: taking
    and leaving the version lock, beginning a snapshot, reading the generation, writing,
    committing, bumping. The engine admits one open write transaction at a time, and
    frees its place as soon as that transaction commits, while the committing thread
    still holds the lock; a schema change commits without the lock at all. Any reader,
    any writer and the caches' own evictions may step next. */
module Caches {
  import opened Basics
  import opened Skeys
  import opened Paths
  import opened Blobs
  import opened Backends
  import opened Walks

  type PathEntries = map<Path, (nat, Skey)>

  type BlobEntries = map<(nat, Skey), Blob>

  /** A cached resolution counts only under the generation it was made for. */
  function PathHit(entries: PathEntries, generation: nat, path: Path): Option<Skey> {
    if path in entries && entries[path].0 == generation then Some(entries[path].1) else None
  }

  // ----- a bounded map --------------------------------------------------------------

  function Without<K, V>(entries: map<K, V>, evicted: Option<K>): map<K, V> {
    match evicted case Some(k) => entries - {k} case None => entries
  }

  /** A use of a bounded map: a lookup or a put of a key. */
  datatype Use<K> =
    | Got(key: K)
    | Stored(key: K)

  /** The order, least recently used first, after one more use. */
  function Reordered<K(==)>(order: seq<K>, capacity: nat, use: Use<K>): seq<K>
    requires capacity >= 1
  {
    if use.key in order then Others(order, use.key) + [use.key]
    else match use
         case Got(_) => order
         case Stored(k) => (if |order| == capacity then order[1..] else order) + [k]
  }

  /** The order after a run of uses of an empty map. */
  function OrderAfter<K(==)>(capacity: nat, uses: seq<Use<K>>): seq<K>
    requires capacity >= 1
  {
    if uses == [] then [] else Reordered(OrderAfter(capacity, uses[..|uses| - 1]), capacity, uses[|uses| - 1])
  }

  /** When a key was last used, or -1. */
  function LastUse<K(==)>(uses: seq<Use<K>>, k: K): (i: int)
    ensures -1 <= i < |uses| && (i >= 0 ==> uses[i].key == k) && forall j | i < j < |uses| :: uses[j].key != k
  {
    var n := |uses| - 1;
    if uses == [] then -1 else if uses[n].key == k then n else LastUse(uses[..n], k)
  }

  /** Keys standing in the order of their last use, all of them used. */
  predicate ByRecency<K(==)>(order: seq<K>, uses: seq<Use<K>>) {
    && (forall i | 0 <= i < |order| :: LastUse(uses, order[i]) >= 0)
    && forall i, j | 0 <= i < j < |order| :: LastUse(uses, order[i]) < LastUse(uses, order[j])
  }

  /** Whatever the run, the keys stand in the order of their last use, the earliest first. */
  lemma {:induction false} OrderIsRecency<K>(capacity: nat, uses: seq<Use<K>>)
    requires capacity >= 1
    ensures |OrderAfter(capacity, uses)| <= capacity && ByRecency(OrderAfter(capacity, uses), uses)
    decreases |uses|
  {
    hide ByRecency;
    if uses == [] {
      NoneUsed<K>();
    } else {
      var n := |uses| - 1;
      var order, use := OrderAfter(capacity, uses[..n]), uses[n];
      OrderIsRecency(capacity, uses[..n]);
      assert uses == uses[..n] + [use];
      if use.key in order {
        var i :| 0 <= i < |order| && order[i] == use.key;
        RecencyApart(order, uses[..n]);
        OthersAre(order, i);
        RecencyDrops(order, uses[..n], i);
        assert use.key !in order[..i] + order[i + 1..];
        RecencyGrows(order[..i] + order[i + 1..], uses[..n], use);
      } else if use.Got? {
        RecencyStays(order, uses[..n], use);
      } else if |order| == capacity {
        RecencyDrops(order, uses[..n], 0);
        assert order[..0] + order[1..] == order[1..];
        RecencyGrows(order[1..], uses[..n], use);
      } else {
        RecencyGrows(order, uses[..n], use);
      }
    }
  }

  lemma NoneUsed<K>()
    ensures ByRecency<K>([], [])
  {}

  lemma RecencyApart<K>(order: seq<K>, uses: seq<Use<K>>)
    requires ByRecency(order, uses)
    ensures forall i, j | 0 <= i < j < |order| :: order[i] != order[j]
  {
    hide LastUse;
  }

  lemma RecencyDrops<K>(order: seq<K>, uses: seq<Use<K>>, i: nat)
    requires ByRecency(order, uses) && i < |order|
    ensures ByRecency(order[..i] + order[i + 1..], uses)
  {
    hide LastUse;
  }

  lemma UsedOnce<K>(uses: seq<Use<K>>, use: Use<K>, x: K)
    ensures LastUse(uses + [use], x) == if use.key == x then |uses| else LastUse(uses, x)
  {
    assert (uses + [use])[..|uses|] == uses;
  }

  lemma RecencyStays<K>(order: seq<K>, uses: seq<Use<K>>, use: Use<K>)
    requires ByRecency(order, uses) && use.key !in order
    ensures ByRecency(order, uses + [use])
  {
    hide LastUse;
    forall x | x in order ensures LastUse(uses + [use], x) == LastUse(uses, x) { UsedOnce(uses, use, x); }
  }

  lemma RecencyGrows<K>(order: seq<K>, uses: seq<Use<K>>, use: Use<K>)
    requires ByRecency(order, uses) && use.key !in order
    ensures ByRecency(order + [use.key], uses + [use])
  {
    hide LastUse;
    RecencyStays(order, uses, use);
    UsedOnce(uses, use, use.key);
    forall x | x in order ensures LastUse(uses + [use], x) < |uses| { UsedOnce(uses, use, x); }
  }

  /** The first key in a full map's order is the one whose last use is the earliest. */
  lemma FirstIsEarliest<K>(order: seq<K>, uses: seq<Use<K>>)
    requires ByRecency(order, uses) && order != []
    ensures forall x | x in order && x != order[0] :: LastUse(uses, order[0]) < LastUse(uses, x)
  {
    hide LastUse;
  }

  lemma OrderGrows<K>(capacity: nat, uses: seq<Use<K>>, use: Use<K>)
    requires capacity >= 1
    ensures OrderAfter(capacity, uses + [use]) == Reordered(OrderAfter(capacity, uses), capacity, use)
  {
    hide Reordered;
    assert (uses + [use])[..|uses|] == uses;
  }

  /** Entries in a bounded map, least recently used first in `order`. */
  class Lru<K(==,!new), V> {
    var entries: map<K, V>
    var order: seq<K>
    const capacity: nat
    /** Every use since the map was made. */
    ghost var uses: seq<Use<K>>

    ghost predicate Kept()
      reads this
    {
      && capacity >= 1 && |order| <= capacity
      && (forall k :: k in entries <==> k in order)
      && forall i, j | 0 <= i < j < |order| :: order[i] != order[j]
    }

    ghost predicate Valid()
      reads this
    {
      Kept() && order == OrderAfter(capacity, uses)
    }

    /** A zero capacity is raised to one. */
    constructor (room: nat)
      ensures Valid() && entries == map[] && uses == [] && capacity == (if room == 0 then 1 else room)
    {
      entries, order, capacity, uses := map[], [], if room == 0 then 1 else room, [];
    }

    /** Moves `k` to the recently used end; the others keep their order. */
    method Touch(k: K)
      requires Kept() && k in entries
      modifies this`order
      ensures Kept() && order == Others(old(order), k) + [k]
    {
      var i := 0;
      while order[i] != k
        invariant 0 <= i < |order| && k !in order[..i]
        invariant order == old(order)
        decreases |order| - i
      {
        i := i + 1;
      }
      Promoted(order, i);
      order := order[..i] + order[i + 1..] + [order[i]];
    }

    /** A hit makes its key the most recently used; a miss changes nothing. */
    method Get(k: K) returns (v: Option<V>)
      requires Valid()
      modifies this`order, this`uses
      ensures Valid() && v == if k in entries then Some(entries[k]) else None
      ensures uses == old(uses) + [Got(k)]
      ensures order == if k in entries then Others(old(order), k) + [k] else old(order)
    {
      hide OrderAfter;
      OrderGrows(capacity, uses, Got(k));
      uses := uses + [Got(k)];
      if k !in entries {
        return None;
      }
      Touch(k);
      v := Some(entries[k]);
    }

    /** Records an entry, over an older one under the same key, as the most recently used.
        A full map drops first the one whose last use is the earliest. */
    method Put(k: K, v: V) returns (ghost evicted: Option<K>)
      requires Valid()
      modifies this
      ensures Valid() && entries == Without(old(entries), evicted)[k := v]
      ensures uses == old(uses) + [Stored(k)]
      ensures evicted.Some? <==> k !in old(entries) && |old(order)| == capacity
      ensures evicted.Some? ==> evicted.value in old(entries)
      ensures evicted.Some? ==>
                forall x | x in old(entries) && x != evicted.value :: LastUse(old(uses), evicted.value) < LastUse(old(uses), x)
      ensures order == (if k in old(order) then Others(old(order), k) else if evicted.Some? then old(order)[1..] else old(order)) + [k]
    {
      hide OrderAfter, LastUse, ByRecency;
      evicted := None;
      OrderIsRecency(capacity, uses);
      if order != [] { FirstIsEarliest(order, uses); }
      OrderGrows(capacity, uses, Stored(k));
      uses := uses + [Stored(k)];
      if k in entries {
        Touch(k);
        entries := entries[k := v];
      } else {
        if |order| == capacity {
          evicted := Some(order[0]);
          entries, order := entries - {order[0]}, order[1..];
        }
        entries, order := entries[k := v], order + [k];
      }
    }
  }

  function Others<K(==)>(order: seq<K>, k: K): seq<K> {
    if order == [] then []
    else if order[0] == k then Others(order[1..], k)
    else [order[0]] + Others(order[1..], k)
  }

  lemma {:induction false} OthersAre<K>(order: seq<K>, i: nat)
    requires i < |order| && forall j, k | 0 <= j < k < |order| :: order[j] != order[k]
    ensures Others(order, order[i]) == order[..i] + order[i + 1..]
    decreases |order|
  {
    var rest := order[1..];
    if i == 0 {
      NoneLeft(rest, order[0]);
    } else {
      OthersAre(rest, i - 1);
      assert order[..i] == [order[0]] + rest[..i - 1];
    }
  }

  lemma {:induction false} NoneLeft<K>(order: seq<K>, k: K)
    requires k !in order
    ensures Others(order, k) == order
  {
    if order != [] { NoneLeft(order[1..], k); }
  }

  lemma Promoted<K>(order: seq<K>, i: nat)
    requires i < |order| && forall j, k | 0 <= j < k < |order| :: order[j] != order[k]
    ensures var now := order[..i] + order[i + 1..] + [order[i]];
            && now == Others(order, order[i]) + [order[i]]
            && |now| == |order| && (forall p :: p in now <==> p in order) && forall j, k | 0 <= j < k < |now| :: now[j] != now[k]
  {
    OthersAre(order, i);
    var now := order[..i] + order[i + 1..] + [order[i]];
    forall p | p in order ensures p in now {
      var j :| 0 <= j < |order| && order[j] == p;
      assert now[if j < i then j else if j > i then j - 1 else |order| - 1] == p;
    }
  }

  // ----- the protocol -----------------------------------------------------------

  /** Where a reader stands: holding the version lock, with its snapshot, with its
      generation too, or reading after it has let the lock go. */
  datatype Reader =
    | Locked
    | Begun(snapshot: Backend)
    | Tagged(snapshot: Backend, generation: nat)
    | Reading(snapshot: Backend, generation: nat)

  /** The engine's one place for an open write transaction, with what it has written so
      far. A schema change writes no node. */
  datatype Slot =
    | Free
    | Open(pending: Backend)
    | Ddl(pending: Backend)

  /** The version lock, held to write: by the transaction in the slot until it commits,
      then by its thread alone until the counter is bumped and the lock released. */
  datatype Guard =
    | Unheld
    | Held
    | Landed
    | Bumped

  /** `history` records the store committed under each generation; the system itself
      keeps only the last one. */
  datatype System = System(
    committed: Backend,
    generation: nat,
    slot: Slot,
    guard: Guard,
    readers: map<nat, Reader>,
    entries: PathEntries,
    blobs: BlobEntries,
    history: seq<Backend>)

  datatype Step =
    | BeginWrite
    | Write(pending: Backend)
    | Abort
    | TakeGuard
    | CommitFails
    | Commit
    | Bump
    | Release
    | BeginSchema
    | CommitSchema
    | AbortSchema
    | Lock(reader: nat)
    | Begin(reader: nat)
    | ReadGeneration(reader: nat)
    | Unlock(reader: nat)
    | End(reader: nat)
    | CachePath(reader: nat, path: Path)
    | CacheChild(reader: nat, path: Path, seg: Segment)
    | CacheBlob(reader: nat, key: Skey)
    | EvictPath(path: Path)
    | EvictBlob(tag: nat, key: Skey)

  predicate Holding(r: Reader) { !r.Reading? }

  /** What resolving `path` in a snapshot yields: nothing at all in an empty one. */
  function Resolved(b: Backend, path: Path): Option<Skey> {
    if b.NodeOf(ROOT).None? then None else WalkKey(b, ROOT, path)
  }

  function BlobAt(b: Backend, key: Skey): Option<Blob> {
    match b.NodeOf(key) case Some(NPacked(_, blob)) => Some(blob) case _ => None
  }

  function Init(b: Backend): System {
    System(b, 0, Free, Unheld, map[], map[], map[], [b])
  }

  predicate At(s: System, r: nat) { r in s.readers && s.readers[r].Reading? }

  /** One step of the program, when it can be taken. */
  function Take(s: System, a: Step): Option<System> { TakeWith(s, a, true) }

  /** One step; `locked` says whether the version lock makes anyone wait. */
  function TakeWith(s: System, a: Step, locked: bool): Option<System> {
    match a
    case BeginWrite => if s.slot.Free? then Some(s.(slot := Open(s.committed))) else None
    case Write(pending) => if s.slot.Open? && !s.guard.Held? then Some(s.(slot := Open(pending))) else None
    case Abort => if s.slot.Open? && !s.guard.Held? then Some(s.(slot := Free)) else None
    case TakeGuard =>
      if s.slot.Open? && s.guard.Unheld? && (locked ==> forall r | r in s.readers :: !Holding(s.readers[r]))
      then Some(s.(guard := Held)) else None
    case CommitFails => if s.guard.Held? && s.slot.Open? then Some(s.(slot := Free, guard := Unheld)) else None
    case Commit =>
      if s.guard.Held? && s.slot.Open?
      then Some(s.(committed := s.slot.pending, slot := Free, guard := Landed, history := s.history + [s.slot.pending])) else None
    case Bump => if s.guard.Landed? then Some(s.(generation := s.generation + 1, guard := Bumped)) else None
    case Release => if s.guard.Bumped? then Some(s.(guard := Unheld)) else None
    case BeginSchema => if s.slot.Free? then Some(s.(slot := Ddl(s.committed))) else None
    case CommitSchema => if s.slot.Ddl? then Some(s.(committed := s.slot.pending, slot := Free)) else None
    case AbortSchema => if s.slot.Ddl? then Some(s.(slot := Free)) else None
    case Lock(r) =>
      if r !in s.readers && (locked ==> s.guard.Unheld?) then Some(s.(readers := s.readers[r := Locked])) else None
    case Begin(r) => if r in s.readers && s.readers[r].Locked? then Some(s.(readers := s.readers[r := Begun(s.committed)])) else None
    case ReadGeneration(r) =>
      if r in s.readers && s.readers[r].Begun?
      then Some(s.(readers := s.readers[r := Tagged(s.readers[r].snapshot, s.generation)])) else None
    case Unlock(r) =>
      if r in s.readers && s.readers[r].Tagged?
      then Some(s.(readers := s.readers[r := Reading(s.readers[r].snapshot, s.readers[r].generation)])) else None
    case End(r) => if At(s, r) then Some(s.(readers := s.readers - {r})) else None
    case CachePath(r, path) =>
      if At(s, r) && Resolved(s.readers[r].snapshot, path).Some?
      then Some(s.(entries := s.entries[path := (s.readers[r].generation, Resolved(s.readers[r].snapshot, path).value)])) else None
    case CacheChild(r, path, seg) =>
      if At(s, r) && Resolved(s.readers[r].snapshot, path).Some?
         && ChildKey(s.readers[r].snapshot, Resolved(s.readers[r].snapshot, path).value, seg).Some?
      then Some(s.(entries := s.entries[path + [seg] :=
        (s.readers[r].generation, ChildKey(s.readers[r].snapshot, Resolved(s.readers[r].snapshot, path).value, seg).value)])) else None
    case CacheBlob(r, key) =>
      if At(s, r) && BlobAt(s.readers[r].snapshot, key).Some?
      then Some(s.(blobs := s.blobs[(s.readers[r].generation, key) := BlobAt(s.readers[r].snapshot, key).value])) else None
    case EvictPath(path) => Some(s.(entries := s.entries - {path}))
    case EvictBlob(tag, key) => Some(s.(blobs := s.blobs - {(tag, key)}))
  }

  /** Each generation has one store; the committed one runs ahead of the counter only
      between a commit and its bump, while no reader is in the lock. A schema change
      in progress has the committed nodes. */
  ghost predicate Versioned(s: System) {
    && |s.history| == s.generation + (if s.guard.Landed? then 2 else 1)
    && s.history[|s.history| - 1] == s.committed
    && (s.slot.Ddl? ==> s.slot.pending == s.committed)
    && (s.guard.Held? ==> s.slot.Open?)
  }

  /** A reader's snapshot is the store of its generation. */
  ghost predicate Matched(s: System, r: Reader) {
    match r
    case Locked => s.guard.Unheld?
    case Begun(snapshot) => s.guard.Unheld? && snapshot == s.committed
    case Tagged(snapshot, g) => s.guard.Unheld? && g < |s.history| && snapshot == s.history[g]
    case Reading(snapshot, g) => g < |s.history| && snapshot == s.history[g]
  }

  /** A cached resolution, and a cached blob, is that of its own generation's store. */
  ghost predicate Faithful(s: System) {
    && (forall p | p in s.entries :: s.entries[p].0 < |s.history| && Resolved(s.history[s.entries[p].0], p) == Some(s.entries[p].1))
    && (forall k | k in s.blobs :: k.0 < |s.history| && BlobAt(s.history[k.0], k.1) == Some(s.blobs[k]))
  }

  ghost predicate Inv(s: System) {
    Versioned(s) && Faithful(s) && forall r | r in s.readers :: Matched(s, s.readers[r])
  }

  lemma {:induction false} WalkAppend(b: Backend, key: Skey, p: Path, seg: Segment)
    ensures WalkKey(b, key, p + [seg]) == match WalkKey(b, key, p) case Some(k) => ChildKey(b, k, seg) case None => None
    decreases p
  {
    hide ChildKey;
    if p == [] {
      assert p + [seg] == [seg] && [seg][1..] == [];
    } else {
      assert (p + [seg])[1..] == p[1..] + [seg];
      if ChildKey(b, key, p[0]).Some? {
        WalkAppend(b, ChildKey(b, key, p[0]).value, p[1..], seg);
      }
    }
  }

  /** Growing the history leaves what was recorded in place. */
  lemma HistoryGrows(s: System, s': System)
    requires Inv(s) && |s.history| <= |s'.history| && s.history == s'.history[..|s.history|]
    requires s'.entries == s.entries && s'.blobs == s.blobs
    ensures Faithful(s')
  {
    hide Resolved, BlobAt;
  }

  /** Every step keeps the invariant. */
  lemma StepKeeps(s: System, a: Step)
    requires Inv(s) && Take(s, a).Some?
    ensures Inv(Take(s, a).value)
  {
    hide Resolved, BlobAt, ChildKey, Take, Inv;
    if a.Lock? || a.Begin? || a.ReadGeneration? || a.Unlock? || a.End? {
      ReaderStepKeeps(s, a);
    } else if OfCaches(a) {
      CacheStepKeeps(s, a);
    } else {
      WriterStepKeeps(s, a);
    }
  }

  predicate OfCaches(a: Step) { a.CachePath? || a.CacheChild? || a.CacheBlob? || a.EvictPath? || a.EvictBlob? }

  lemma WriterStepKeeps(s: System, a: Step)
    requires Inv(s) && Take(s, a).Some?
    requires !OfCaches(a) && !(a.Lock? || a.Begin? || a.ReadGeneration? || a.Unlock? || a.End?)
    ensures Inv(Take(s, a).value)
  {
    hide Resolved, BlobAt, ChildKey, Faithful;
    var s' := Take(s, a).value;
    assert s.history == s'.history[..|s.history|];
    HistoryGrows(s, s');
  }

  lemma ReaderStepKeeps(s: System, a: Step)
    requires Inv(s) && Take(s, a).Some?
    requires a.Lock? || a.Begin? || a.ReadGeneration? || a.Unlock? || a.End?
    ensures Inv(Take(s, a).value)
  {
    hide Resolved, BlobAt, ChildKey, Faithful;
    var s' := Take(s, a).value;
    assert s.history == s'.history[..|s.history|];
    HistoryGrows(s, s');
  }

  lemma CacheStepKeeps(s: System, a: Step)
    requires Inv(s) && Take(s, a).Some?
    requires OfCaches(a)
    ensures Inv(Take(s, a).value)
  {
    hide Resolved, BlobAt, ChildKey, Faithful, Versioned, Matched;
    var s' := Take(s, a).value;
    CachesOnly(s, s');
    match a
    case CachePath(r, path) => PathAdded(s, path, s.readers[r].generation, Resolved(s.readers[r].snapshot, path).value);
    case CacheChild(r, path, seg) =>
      var b := s.readers[r].snapshot;
      ChildResolves(b, path, seg);
      PathAdded(s, path + [seg], s.readers[r].generation, Resolved(b, path + [seg]).value);
    case CacheBlob(r, key) => BlobAdded(s, key, s.readers[r].generation, BlobAt(s.readers[r].snapshot, key).value);
    case EvictPath(path) => LessFaithful(s, s');
    case EvictBlob(tag, key) => LessFaithful(s, s');
  }

  /** A change to the caches alone leaves every reader where it was. */
  lemma CachesOnly(s: System, s': System)
    requires Inv(s) && s' == s.(entries := s'.entries, blobs := s'.blobs)
    ensures Versioned(s') && forall r | r in s'.readers :: Matched(s', s'.readers[r])
    ensures forall r | At(s, r) :: s.readers[r].generation < |s.history| && s.readers[r].snapshot == s.history[s.readers[r].generation]
  {
    hide Faithful;
    forall r | r in s'.readers ensures Matched(s', s'.readers[r]) { assert Matched(s, s.readers[r]); }
    forall r | At(s, r) ensures s.readers[r].generation < |s.history| && s.readers[r].snapshot == s.history[s.readers[r].generation] {
      assert Matched(s, s.readers[r]);
    }
  }

  lemma PathAdded(s: System, path: Path, g: nat, key: Skey)
    requires Faithful(s) && g < |s.history| && Resolved(s.history[g], path) == Some(key)
    ensures Faithful(s.(entries := s.entries[path := (g, key)]))
  {
    hide Resolved, BlobAt;
  }

  lemma BlobAdded(s: System, key: Skey, g: nat, blob: Blob)
    requires Faithful(s) && g < |s.history| && BlobAt(s.history[g], key) == Some(blob)
    ensures Faithful(s.(blobs := s.blobs[(g, key) := blob]))
  {
    hide Resolved, BlobAt;
  }

  lemma LessFaithful(s: System, s': System)
    requires Faithful(s) && s'.history == s.history
    requires forall p | p in s'.entries :: p in s.entries && s'.entries[p] == s.entries[p]
    requires forall k | k in s'.blobs :: k in s.blobs && s'.blobs[k] == s.blobs[k]
    ensures Faithful(s')
  {
    hide Resolved, BlobAt;
  }

  lemma ChildResolves(b: Backend, path: Path, seg: Segment)
    requires Resolved(b, path).Some?
    ensures Resolved(b, path + [seg]) == ChildKey(b, Resolved(b, path).value, seg)
  {
    hide ChildKey, Backend.NodeOf;
    WalkAppend(b, ROOT, path, seg);
  }

  /** The state after a run, when every step of it can be taken. */
  function Run(s: System, steps: seq<Step>): Option<System> { RunWith(s, steps, true) }

  function RunWith(s: System, steps: seq<Step>, locked: bool): Option<System>
    decreases |steps|
  {
    if steps == [] then Some(s)
    else match TakeWith(s, steps[0], locked) case Some(s') => RunWith(s', steps[1..], locked) case None => None
  }

  lemma {:induction false} RunKeeps(s: System, steps: seq<Step>)
    requires Inv(s) && Run(s, steps).Some?
    ensures Inv(Run(s, steps).value)
    decreases |steps|
  {
    hide TakeWith, Inv;
    if steps != [] {
      StepKeeps(s, steps[0]);
      RunKeeps(Take(s, steps[0]).value, steps[1..]);
    }
  }

  /** In every interleaving, a hit gives a reader what walking its own snapshot would. */
  lemma HitIsOwnWalk(b: Backend, steps: seq<Step>, r: nat, path: Path, key: Skey)
    requires Run(Init(b), steps).Some? && At(Run(Init(b), steps).value, r)
    ensures var s := Run(Init(b), steps).value;
            var reader := s.readers[r];
            && (PathHit(s.entries, reader.generation, path).Some? ==>
                  PathHit(s.entries, reader.generation, path) == Resolved(reader.snapshot, path))
            && ((reader.generation, key) in s.blobs ==> BlobAt(reader.snapshot, key) == Some(s.blobs[(reader.generation, key)]))
  {
    hide Resolved, BlobAt, TakeWith, RunWith;
    RunKeeps(Init(b), steps);
    var s := Run(Init(b), steps).value;
    assert Matched(s, s.readers[r]);
  }

  // ----- the lock is needed ---------------------------------------------------------

  lemma {:induction false} RunJoins(s: System, a: seq<Step>, b: seq<Step>, locked: bool)
    requires RunWith(s, a, locked).Some?
    ensures RunWith(s, a + b, locked) == RunWith(RunWith(s, a, locked).value, b, locked)
    decreases |a|
  {
    hide TakeWith;
    if a == [] {
      assert a + b == b;
    } else {
      assert (a + b)[1..] == a[1..] + b;
      RunJoins(TakeWith(s, a[0], locked).value, a[1..], b, locked);
    }
  }

  lemma RunOne(s: System, a: Step, locked: bool)
    ensures RunWith(s, [a], locked) == TakeWith(s, a, locked)
  {
    hide TakeWith;
    assert [a][1..] == [];
    if TakeWith(s, a, locked).Some? { assert RunWith(TakeWith(s, a, locked).value, [], locked) == TakeWith(s, a, locked); }
  }

  /** A run grown by one step. */
  lemma Then(s: System, steps: seq<Step>, a: Step, locked: bool)
    requires RunWith(s, steps, locked).Some?
    ensures RunWith(s, steps + [a], locked) == TakeWith(RunWith(s, steps, locked).value, a, locked)
  {
    hide TakeWith, RunWith;
    RunJoins(s, steps, [a], locked);
    RunOne(RunWith(s, steps, locked).value, a, locked);
  }

  /** Two runs, one after the other. */
  lemma Both(s: System, a: seq<Step>, mid: System, b: seq<Step>, last: System, locked: bool)
    requires RunWith(s, a, locked) == Some(mid) && RunWith(mid, b, locked) == Some(last)
    ensures RunWith(s, a + b, locked) == Some(last)
  {
    hide RunWith;
    RunJoins(s, a, b, locked);
  }

  lemma Beginning(s: System, r: nat) returns (steps: seq<Step>)
    requires r !in s.readers
    ensures RunWith(s, steps, false) == Some(s.(readers := s.readers[r := Begun(s.committed)]))
  {
    hide RunWith;
    RunOne(s, Lock(r), false);
    Then(s, [Lock(r)], Begin(r), false);
    steps := [Lock(r)] + [Begin(r)];
    assert s.readers[r := Locked][r := Begun(s.committed)] == s.readers[r := Begun(s.committed)];
  }

  lemma Finishing(s: System, r: nat) returns (steps: seq<Step>)
    requires r in s.readers && s.readers[r].Begun?
    ensures RunWith(s, steps, false) == Some(s.(readers := s.readers[r := Reading(s.readers[r].snapshot, s.generation)]))
  {
    hide RunWith;
    var b, g := s.readers[r].snapshot, s.generation;
    RunOne(s, ReadGeneration(r), false);
    Then(s, [ReadGeneration(r)], Unlock(r), false);
    steps := [ReadGeneration(r)] + [Unlock(r)];
    assert s.readers[r := Tagged(b, g)][r := Reading(b, g)] == s.readers[r := Reading(b, g)];
  }

  lemma Committing(s: System, now: Backend) returns (steps: seq<Step>)
    requires s.slot.Free? && s.guard.Unheld?
    ensures RunWith(s, steps, false) == Some(s.(committed := now, generation := s.generation + 1, history := s.history + [now]))
  {
    hide RunWith;
    var writing, ending := [BeginWrite] + [Write(now)], [TakeGuard] + [Commit];
    RunOne(s, BeginWrite, false);
    Then(s, [BeginWrite], Write(now), false);
    var open := s.(slot := Open(now));
    RunOne(open, TakeGuard, false);
    Then(open, [TakeGuard], Commit, false);
    Both(s, writing, open, ending, RunWith(open, ending, false).value, false);
    Then(s, writing + ending, Bump, false);
    Then(s, writing + ending + [Bump], Release, false);
    steps := writing + ending + [Bump] + [Release];
  }

  /** Were nobody to wait for the lock, the program could serve one snapshot's
      resolutions to a reader of another: a reader begins before a commit, reads the
      generation after its bump, and caches the old store's resolution under the new
      store's generation, where a later reader finds it. */
  lemma LockIsNeeded(was: Backend, now: Backend, path: Path) returns (steps: seq<Step>)
    requires Resolved(was, path).Some? && Resolved(was, path) != Resolved(now, path)
    ensures RunWith(Init(was), steps, false).Some? && At(RunWith(Init(was), steps, false).value, 1)
    ensures var s := RunWith(Init(was), steps, false).value;
            var reader := s.readers[1];
            && reader.snapshot == now && PathHit(s.entries, reader.generation, path).Some?
            && PathHit(s.entries, reader.generation, path) != Resolved(reader.snapshot, path)
  {
    hide Resolved, RunWith;
    var s0 := Init(was);
    var a := Beginning(s0, 0);
    var s1 := RunWith(s0, a, false).value;
    var b := Committing(s1, now);
    var s2 := RunWith(s1, b, false).value;
    Both(s0, a, s1, b, s2, false);
    var c := Finishing(s2, 0);
    var s3 := RunWith(s2, c, false).value;
    Both(s0, a + b, s2, c, s3, false);
    Then(s0, a + b + c, CachePath(0, path), false);
    var s4 := TakeWith(s3, CachePath(0, path), false).value;
    var d := Beginning(s4, 1);
    var s5 := RunWith(s4, d, false).value;
    Both(s0, a + b + c + [CachePath(0, path)], s4, d, s5, false);
    var e := Finishing(s5, 1);
    var s6 := RunWith(s5, e, false).value;
    Both(s0, a + b + c + [CachePath(0, path)] + d, s5, e, s6, false);
    steps := a + b + c + [CachePath(0, path)] + d + e;
  }

  // ----- the caches themselves ------------------------------------------------------

  /** A table's two caches. */
  class PathCache {
    const paths: Lru<Path, (nat, Skey)>
    const blobs: Lru<(nat, Skey), Blob>

    ghost predicate Valid()
      reads this, paths, blobs
    {
      paths.Valid() && blobs.Valid()
    }

    /** The caches hold what the protocol says they hold. */
    ghost predicate Mirrors(s: System)
      reads this, paths, blobs
    {
      Valid() && paths.entries == s.entries && blobs.entries == s.blobs
    }

    constructor (room: nat, blobRoom: nat)
      ensures Valid() && fresh(paths) && fresh(blobs) && paths.entries == map[] && blobs.entries == map[]
    {
      paths := new Lru(room);
      blobs := new Lru(blobRoom);
    }

    method Get(generation: nat, path: Path) returns (key: Option<Skey>)
      requires Valid()
      modifies paths`order, paths`uses
      ensures Valid() && key == PathHit(paths.entries, generation, path)
    {
      var found := paths.Get(path);
      key := if found.Some? && found.value.0 == generation then Some(found.value.1) else None;
    }

    method Put(generation: nat, path: Path, key: Skey) returns (ghost evicted: Option<Path>)
      requires Valid()
      modifies paths
      ensures Valid() && paths.entries == Without(old(paths.entries), evicted)[path := (generation, key)]
    {
      evicted := paths.Put(path, (generation, key));
    }

    method GetBlob(generation: nat, key: Skey) returns (blob: Option<Blob>)
      requires Valid()
      modifies blobs`order, blobs`uses
      ensures Valid() && blob == if (generation, key) in blobs.entries then Some(blobs.entries[(generation, key)]) else None
    {
      blob := blobs.Get((generation, key));
    }

    method PutBlob(generation: nat, key: Skey, blob: Blob) returns (ghost evicted: Option<(nat, Skey)>)
      requires Valid()
      modifies blobs
      ensures Valid() && blobs.entries == Without(old(blobs.entries), evicted)[(generation, key) := blob]
    {
      evicted := blobs.Put((generation, key), blob);
    }
  }

  function PathEvictions(evicted: Option<Path>): seq<Step> {
    match evicted case Some(p) => [EvictPath(p)] case None => []
  }

  function BlobEvictions(evicted: Option<(nat, Skey)>): seq<Step> {
    match evicted case Some(k) => [EvictBlob(k.0, k.1)] case None => []
  }

  /** A put into the path cache is one step of the protocol, after at most one eviction. */
  lemma PutIsStep(s: System, evicted: Option<Path>, a: Step, path: Path, entry: (nat, Skey))
    requires ((a.CachePath? && path == a.path) || (a.CacheChild? && path == a.path + [a.seg])) && At(s, a.reader)
    requires Take(s, a) == Some(s.(entries := s.entries[path := entry]))
    ensures Run(s, PathEvictions(evicted) + [a]) == Some(s.(entries := Without(s.entries, evicted)[path := entry]))
  {
    hide RunWith, TakeWith;
    PutElsewhere(s, a, path, entry, Without(s.entries, evicted));
    match evicted {
      case None =>
        assert [] + [a] == [a];
        RunOne(s, a, true);
      case Some(p) =>
        EvictPathTakes(s, p);
        RunOne(s, EvictPath(p), true);
        Then(s, [EvictPath(p)], a, true);
    }
  }

  lemma EvictPathTakes(s: System, p: Path)
    ensures TakeWith(s, EvictPath(p), true) == Some(s.(entries := s.entries - {p}))
  {}

  /** What a reader caches does not depend on what else is cached. */
  lemma PutElsewhere(s: System, a: Step, path: Path, entry: (nat, Skey), entries: PathEntries)
    requires ((a.CachePath? && path == a.path) || (a.CacheChild? && path == a.path + [a.seg])) && At(s, a.reader)
    requires Take(s, a) == Some(s.(entries := s.entries[path := entry]))
    ensures TakeWith(s.(entries := entries), a, true) == Some(s.(entries := entries[path := entry]))
  {
    hide Resolved, ChildKey;
    assert Take(s, a).value.entries[path] == entry;
  }

  lemma PutBlobIsStep(s: System, evicted: Option<(nat, Skey)>, r: nat, key: Skey)
    requires At(s, r) && BlobAt(s.readers[r].snapshot, key).Some?
    ensures Run(s, BlobEvictions(evicted) + [CacheBlob(r, key)])
         == Some(s.(blobs := Without(s.blobs, evicted)[(s.readers[r].generation, key) := BlobAt(s.readers[r].snapshot, key).value]))
  {
    hide Resolved, ChildKey, BlobAt;
    match evicted {
      case None => assert [] + [CacheBlob(r, key)] == [CacheBlob(r, key)];
      case Some(k) => RunOne(s, EvictBlob(k.0, k.1), true);
    }
    var s' := s.(blobs := Without(s.blobs, evicted));
    assert RunWith(s, BlobEvictions(evicted), true) == Some(s');
    Then(s, BlobEvictions(evicted), CacheBlob(r, key), true);
  }

  /** What a hit means in a state the protocol can reach. */
  lemma HitsFaithful(s: System, r: nat, path: Path, key: Skey)
    requires Inv(s) && At(s, r)
    ensures PathHit(s.entries, s.readers[r].generation, path).Some? ==>
              PathHit(s.entries, s.readers[r].generation, path) == Resolved(s.readers[r].snapshot, path)
    ensures (s.readers[r].generation, key) in s.blobs ==>
              BlobAt(s.readers[r].snapshot, key) == Some(s.blobs[(s.readers[r].generation, key)])
  {
    hide Resolved, BlobAt;
    assert Matched(s, s.readers[r]);
  }

  /** A reader's cached lookup: the walk of its own snapshot, by steps of the protocol. */
  method LookupPath(c: PathCache, snapshot: Backend, generation: nat, path: Path, ghost s: System, ghost r: nat)
    returns (key: Option<Skey>, ghost steps: seq<Step>)
    requires Inv(s) && At(s, r) && s.readers[r] == Reading(snapshot, generation) && c.Mirrors(s)
    modifies c.paths
    ensures key == Resolved(snapshot, path)
    ensures Run(s, steps).Some? && c.Mirrors(Run(s, steps).value)
  {
    hide BlobAt, RunWith, Inv, Faithful, Resolved, TakeWith;
    HitsFaithful(s, r, path, ROOT);
    ResolvedIs(snapshot, path);
    steps := [];
    RunNothing(s);
    key := c.Get(generation, path);
    if key.Some? {
      return;
    }
    if snapshot.NodeOf(ROOT).None? {
      return;
    }
    key := ResolveFrom(snapshot, ROOT, path);
    if key.Some? {
      ghost var evicted := c.Put(generation, path, key.value);
      CachePathTakes(s, r, path);
      PutIsStep(s, evicted, CachePath(r, path), path, (generation, key.value));
      steps := PathEvictions(evicted) + [CachePath(r, path)];
    }
  }

  lemma ResolvedIs(b: Backend, path: Path)
    ensures Resolved(b, path) == if b.NodeOf(ROOT).None? then None else WalkKey(b, ROOT, path)
  {}

  lemma CachePathTakes(s: System, r: nat, path: Path)
    requires At(s, r) && Resolved(s.readers[r].snapshot, path).Some?
    ensures Take(s, CachePath(r, path))
         == Some(s.(entries := s.entries[path := (s.readers[r].generation, Resolved(s.readers[r].snapshot, path).value)]))
  {
    hide Resolved;
  }

  lemma RunNothing(s: System)
    ensures Run(s, []) == Some(s)
  {}

  /** One hop from a node the reader has resolved, cached under the child's own path. */
  method LookupChild(c: PathCache, snapshot: Backend, generation: nat, parent: Skey, seg: Segment, ghost path: Path,
                     child: Path, ghost s: System, ghost r: nat)
    returns (key: Option<Skey>, ghost steps: seq<Step>)
    requires Inv(s) && At(s, r) && s.readers[r] == Reading(snapshot, generation) && c.Mirrors(s)
    requires Resolved(snapshot, path) == Some(parent) && child == path + [seg]
    modifies c.paths
    ensures key == Resolved(snapshot, child)
    ensures Run(s, steps).Some? && c.Mirrors(Run(s, steps).value)
  {
    hide BlobAt, RunWith, Inv, Faithful, Resolved;
    HitsFaithful(s, r, child, ROOT);
    ChildResolves(snapshot, path, seg);
    steps := [];
    RunNothing(s);
    key := c.Get(generation, child);
    if key.Some? {
      return;
    }
    key := ChildKey(snapshot, parent, seg);
    if key.Some? {
      ghost var evicted := c.Put(generation, child, key.value);
      PutIsStep(s, evicted, CacheChild(r, path, seg), child, (generation, key.value));
      steps := PathEvictions(evicted) + [CacheChild(r, path, seg)];
    }
  }

  /** The blob of the packed entity under `key`, if it is one. */
  method PackedBlob(c: PathCache, snapshot: Backend, generation: nat, key: Skey, ghost s: System, ghost r: nat)
    returns (blob: Option<Blob>, ghost steps: seq<Step>)
    requires Inv(s) && At(s, r) && s.readers[r] == Reading(snapshot, generation) && c.Mirrors(s)
    modifies c.blobs
    ensures blob == BlobAt(snapshot, key)
    ensures Run(s, steps).Some? && c.Mirrors(Run(s, steps).value)
  {
    hide Resolved, RunWith, Inv, Faithful;
    HitsFaithful(s, r, [], key);
    steps := [];
    RunNothing(s);
    blob := c.GetBlob(generation, key);
    if blob.Some? {
      return;
    }
    match snapshot.NodeOf(key)
    case Some(NPacked(_, found)) =>
      ghost var evicted := c.PutBlob(generation, key, found);
      PutBlobIsStep(s, evicted, r, key);
      steps := BlobEvictions(evicted) + [CacheBlob(r, key)];
      blob := Some(found);
    case _ =>
  }
}
