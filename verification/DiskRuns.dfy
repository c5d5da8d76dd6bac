/** Whole runs of the disk store: writes, deletes and maintenance at rising times, against a
    plain map of entries from which nothing is ever culled. */
module DiskRuns {
  import opened Base
  import opened Utf8
  import opened Entries
  import opened Identities
  import opened EntryMaps
  import opened DiskTreeNames
  import opened Disk

  datatype Step =
    | PutValue(x: Pair, value: Value, ttl: Option<int>)
    | DeleteKey(x: Pair)
    | Cull
    | DestroyCollection(collection: Text)
    | Destroy

  predicate Nameable(collection: Text) {
    EncodeTreeName(collection).Ok?
  }

  predicate ValidStep(step: Step) {
    match step
    case PutValue(x, value, _) => Nameable(x.0) && value.Sized()
    case DeleteKey(x) => Nameable(x.0)
    case DestroyCollection(c) => Nameable(c)
    case _ => true
  }

  // ------------------------------------------------------------------ the two sides

  /** What the store's operation leaves behind; maintenance that fails changes nothing. */
  function OnDisk(db: Database, now: DateTime, step: Step): Database
    requires ValidStep(step)
  {
    match step
    case PutValue(x, value, ttl) => (match NewEntry(now, value, ttl) case Ok(e) => Put(db, x.0, x.1, e).value case Err(_) => db)
    case DeleteKey(x) => db[EncodeTreeName(x.0).value := TreeOf(db, x.0).value - {x.1}]
    case Cull => if WellFormed(db) then Culled(db, now) else db
    case DestroyCollection(c) =>
      var name := EncodeTreeName(c).value;
      if name in db && GoodTree(db[name]) then db - {name} else db
    case Destroy => if WellFormed(db) then Foreign(db) else db
  }

  predicate AllReadableIn(m: EntryMap, c: Text) {
    forall x | x in m && x.0 == c :: m[x].value.Readable()
  }

  /** Destroying fails on an unreadable entry among what would be destroyed. */
  function OnMap(m: EntryMap, now: DateTime, step: Step): EntryMap {
    match step
    case PutValue(x, value, ttl) => if TtlAccepted(now, ttl) then m[x := Written(now, value, ttl)] else m
    case DeleteKey(x) => m - {x}
    case Cull => m
    case DestroyCollection(c) => if AllReadableIn(m, c) then map x | x in m && x.0 != c :: m[x] else m
    case Destroy => if AllReadable(m) then map[] else m
  }

  type Timed = (DateTime, Step)

  predicate ValidSteps(steps: seq<Timed>)
    decreases |steps|
  {
    steps == [] || (ValidStep(steps[0].1) && ValidSteps(steps[1..]))
  }

  function DiskRun(db: Database, now: DateTime, steps: seq<Timed>): (Database, DateTime)
    requires ValidSteps(steps)
    decreases |steps|
  {
    if steps == [] then (db, now) else
      DiskRun(OnDisk(db, steps[0].0, steps[0].1), steps[0].0, steps[1..])
  }

  function MapRun(m: EntryMap, steps: seq<Timed>): EntryMap
    decreases |steps|
  {
    if steps == [] then m else MapRun(OnMap(m, steps[0].0, steps[0].1), steps[1..])
  }

  // --------------------------------------------------------------------- simulation

  predicate SameRead(db: Database, m: EntryMap, x: Pair, later: DateTime) {
    Nameable(x.0) ==> Get(db, x.0, x.1, later) == Read(m, x, later, InvalidValue)
  }

  predicate GoodNames(db: Database, name: bytes)
    requires name in db
  {
    DecodeTreeName(name).Ok? && forall key | key in db[name] :: Valid(key)
  }

  /** Owned trees and their keys are well named, and both sides read the same now and at any
      later time, errors included. */
  ghost predicate Simulates(db: Database, m: EntryMap, now: DateTime) {
    && (forall name | name in db && IsOwned(name) :: GoodNames(db, name))
    && (forall x | x in m :: Nameable(x.0))
    && (forall x: Pair, later: DateTime | now <= later :: SameRead(db, m, x, later))
  }

  lemma OwnName(c: Text)
    requires Nameable(c)
    ensures IsOwned(EncodeTreeName(c).value) && DecodeTreeName(EncodeTreeName(c).value) == Ok(Some(c))
  {
    TreeNameBijection(EncodeTreeName(c).value, c);
  }

  /** A collection's rows can all be read exactly when the map's entries can. */
  lemma GoodTreeIff(db: Database, m: EntryMap, now: DateTime, c: Text)
    requires Simulates(db, m, now) && Nameable(c)
    ensures GoodTree(TreeOf(db, c).value) <==> AllReadableIn(m, c)
  {
    var tree := TreeOf(db, c).value;
    OwnName(c);
    forall key: bytes | key in tree ensures Valid(key) && (GoodRow(key, tree[key]) <==> Get(db, c, key, now).Ok?) {
      assert GoodNames(db, EncodeTreeName(c).value);
    }
    if GoodTree(tree) {
      forall x | x in m && x.0 == c ensures m[x].value.Readable() {
        assert SameRead(db, m, x, now);
        assert x.1 in tree ==> GoodRow(x.1, tree[x.1]);
      }
    }
    if AllReadableIn(m, c) {
      forall key | key in tree ensures GoodRow(key, tree[key]) {
        assert Valid(key);
        assert SameRead(db, m, (c, key), now);
      }
    }
  }

  /** Maintenance would succeed exactly when every entry of the map can be read. */
  lemma WellFormedIff(db: Database, m: EntryMap, now: DateTime)
    requires Simulates(db, m, now)
    ensures WellFormed(db) <==> AllReadable(m)
  {
    if WellFormed(db) {
      forall x | x in m ensures m[x].value.Readable() {
        OwnName(x.0);
        GoodTreeIff(db, m, now, x.0);
        assert EncodeTreeName(x.0).value in db ==> GoodOwned(db, EncodeTreeName(x.0).value);
      }
    }
    if AllReadable(m) {
      forall name | name in db && IsOwned(name) ensures GoodOwned(db, name) {
        assert GoodNames(db, name);
        var c := DecodeTreeName(name).value.value;
        TreeNameBijection(name, c);
        GoodTreeIff(db, m, now, c);
      }
    }
  }

  lemma DeleteKeyReads(db: Database, x: Pair, y: Pair, later: DateTime)
    requires Nameable(x.0) && Nameable(y.0)
    ensures Get(db[EncodeTreeName(x.0).value := TreeOf(db, x.0).value - {x.1}], y.0, y.1, later)
            == if x == y then Ok(None) else Get(db, y.0, y.1, later)
  {
    if EncodeTreeName(x.0) == EncodeTreeName(y.0) {
      TreeNamesDiffer(x.0, y.0);
    }
  }

  lemma StepSimulates(db: Database, m: EntryMap, now: DateTime, time: DateTime, step: Step)
    requires Simulates(db, m, now) && now <= time && ValidStep(step)
    ensures Simulates(OnDisk(db, time, step), OnMap(m, time, step), time)
  {
    StepKeepsNames(db, m, time, step);
    Decisions(db, m, now, step);
    forall x: Pair, later: DateTime | time <= later ensures SameRead(OnDisk(db, time, step), OnMap(m, time, step), x, later) {
      assert SameRead(db, m, x, later);
      if Nameable(x.0) {
        StepReads(db, m, time, step, x, later);
      }
    }
  }

  /** The two sides agree whether a destruction goes through. */
  ghost predicate Agreed(db: Database, m: EntryMap, step: Step)
    requires ValidStep(step)
  {
    match step
    case DestroyCollection(c) => GoodTree(TreeOf(db, c).value) <==> AllReadableIn(m, c)
    case Destroy => WellFormed(db) <==> AllReadable(m)
    case _ => true
  }

  lemma Decisions(db: Database, m: EntryMap, now: DateTime, step: Step)
    requires Simulates(db, m, now) && ValidStep(step)
    ensures Agreed(db, m, step)
  {
    match step
    case DestroyCollection(c) => GoodTreeIff(db, m, now, c);
    case Destroy => WellFormedIff(db, m, now);
    case _ =>
  }

  lemma StepKeepsNames(db: Database, m: EntryMap, time: DateTime, step: Step)
    requires ValidStep(step)
    requires forall name | name in db && IsOwned(name) :: GoodNames(db, name)
    requires forall x | x in m :: Nameable(x.0)
    ensures forall name | name in OnDisk(db, time, step) && IsOwned(name) :: GoodNames(OnDisk(db, time, step), name)
    ensures forall x | x in OnMap(m, time, step) :: Nameable(x.0)
  {
    var after := OnDisk(db, time, step);
    match step
    case PutValue(x, _, _) => OwnName(x.0);
    case DeleteKey(x) => OwnName(x.0);
    case _ =>
    forall name | name in after && IsOwned(name) ensures GoodNames(after, name) {
      assert name in db ==> GoodNames(db, name);
    }
  }

  /** Maintenance does its work, not just no harm: when every entry can be read a cull leaves no
      expired row in an owned tree and a destruction leaves no owned tree; otherwise neither
      changes anything. */
  lemma MaintenanceWorks(db: Database, now: DateTime, name: bytes, key: bytes)
    requires name in db
    ensures var after := OnDisk(db, now, Cull);
            if WellFormed(db) then
              && name in after
              && (key in after[name] <==> key in db[name] && !(Ascii("okv1-") <= name && Expired(db[name][key], now)))
            else after == db
    ensures var after := OnDisk(db, now, Destroy);
            if WellFormed(db) then name in after <==> !(Ascii("okv1-") <= name) else after == db
  {
    Prefix();
    CullRemovesExactlyTheExpired(db, now, name, key);
  }

  lemma PutReads(db: Database, m: EntryMap, time: DateTime, step: Step, x: Pair, later: DateTime)
    requires step.PutValue? && ValidStep(step) && Nameable(x.0)
    requires Get(db, x.0, x.1, later) == Read(m, x, later, InvalidValue)
    ensures Get(OnDisk(db, time, step), x.0, x.1, later) == Read(OnMap(m, time, step), x, later, InvalidValue)
  {
    var PutValue(y, value, ttl) := step;
    if TtlAccepted(time, ttl) {
      assert NewEntry(time, value, ttl) == Ok(Written(time, value, ttl));
      PutThenGet(db, y.0, y.1, Written(time, value, ttl), x.0, x.1, later);
    }
  }

  lemma StepReads(db: Database, m: EntryMap, time: DateTime, step: Step, x: Pair, later: DateTime)
    requires ValidStep(step) && time <= later && Nameable(x.0) && Agreed(db, m, step)
    requires Get(db, x.0, x.1, later) == Read(m, x, later, InvalidValue)
    ensures Get(OnDisk(db, time, step), x.0, x.1, later) == Read(OnMap(m, time, step), x, later, InvalidValue)
  {
    match step
    case PutValue(_, _, _) => PutReads(db, m, time, step, x, later);
    case DeleteKey(y) => DeleteKeyReads(db, y, x, later);
    case Cull => CullIsInvisible(db, time, later, x.0, x.1);
    case DestroyCollection(c) => DropIsolatesCollections(db, c, x.0, x.1, later);
    case Destroy =>
      if WellFormed(db) {
        DestroyedReadsEmpty(db, x.0, x.1, later, []);
      }
  }

  lemma {:induction false} RunSimulates(db: Database, m: EntryMap, now: DateTime, steps: seq<Timed>)
    requires Simulates(db, m, now) && Rising(now, steps) && ValidSteps(steps)
    ensures var (end, time) := DiskRun(db, now, steps); Simulates(end, MapRun(m, steps), time)
    decreases |steps|
  {
    if steps != [] {
      StepSimulates(db, m, now, steps[0].0, steps[0].1);
      RunSimulates(OnDisk(db, steps[0].0, steps[0].1), OnMap(m, steps[0].0, steps[0].1), steps[0].0, steps[1..]);
    }
  }

  /** The disk store is a map of entries: after any run of writes, deletes, culls and
      destructions, beside whatever trees belong to others, every read now or later gives what
      a map that is never culled gives, and maintenance succeeds exactly when no entry is left
      that cannot be read. */
  lemma DiskRefinesMap(foreign: Database, now: DateTime, steps: seq<Timed>, x: Pair, later: DateTime)
    requires (forall name | name in foreign :: !IsOwned(name)) && Rising(now, steps) && ValidSteps(steps) && Nameable(x.0)
    ensures var (db, time) := DiskRun(foreign, now, steps);
            var m := MapRun(map[], steps);
            && (WellFormed(db) <==> AllReadable(m))
            && (time <= later ==> Get(db, x.0, x.1, later) == Read(m, x, later, InvalidValue))
  {
    forall y: Pair, t: DateTime | now <= t ensures SameRead(foreign, map[], y, t) {
      if Nameable(y.0) {
        OwnName(y.0);
      }
    }
    RunSimulates(foreign, map[], now, steps);
    var (db, time) := DiskRun(foreign, now, steps);
    WellFormedIff(db, MapRun(map[], steps), time);
    assert time <= later ==> SameRead(db, MapRun(map[], steps), x, later);
  }
}
