/** The disk store: one tree of raw bytes per collection, beside trees that belong to others.
    Maintenance first checks everything it owns and only then changes anything. */
module Disk {
  import opened Base
  import opened Utf8
  import opened Entries
  import opened DiskTreeNames

  type Tree = map<bytes, bytes>
  type Database = map<bytes, Tree>

  // ------------------------------------------------------------------ vocabulary

  predicate IsOwned(name: bytes) {
    TREE_PREFIX <= name
  }

  predicate GoodRow(key: bytes, row: bytes) {
    Valid(key) && Decode(row).Ok?
  }

  predicate GoodTree(tree: Tree) {
    forall key | key in tree :: GoodRow(key, tree[key])
  }

  predicate GoodOwned(db: Database, name: bytes)
    requires name in db
  {
    DecodeTreeName(name).Ok? && GoodTree(db[name])
  }

  /** Every tree the store takes for its own has a well-formed name and well-formed rows. */
  predicate WellFormed(db: Database) {
    forall name | name in db && IsOwned(name) :: GoodOwned(db, name)
  }

  predicate Expired(row: bytes, now: DateTime) {
    Decode(row).Ok? && Decode(row).value.IsExpired(now)
  }

  // ----------------------------------------------------------------- maintenance

  function FreshRows(tree: Tree, now: DateTime): Tree {
    map key | key in tree && !Expired(tree[key], now) :: tree[key]
  }

  function Culled(db: Database, now: DateTime): Database {
    map name | name in db :: if IsOwned(name) then FreshRows(db[name], now) else db[name]
  }

  function Foreign(db: Database): Database {
    map name | name in db && !IsOwned(name) :: db[name]
  }

  // --------------------------------------------------------------- reading, writing

  function TreeOf(db: Database, collection: Text): Result<Tree> {
    var name :- EncodeTreeName(collection);
    Ok(if name in db then db[name] else map[])
  }

  function Get(db: Database, collection: Text, key: Text, now: DateTime): Result<Option<Value>> {
    var tree :- TreeOf(db, collection);
    if key !in tree then Ok(None) else
      var e :- Decode(tree[key]);
      Ok(if e.IsExpired(now) then None else Some(e.value))
  }

  /** The entry need not be one that can be read back. */
  function Put(db: Database, collection: Text, key: Text, e: ManagedEntry): Result<Database>
    requires e.value.Sized()
  {
    var name :- EncodeTreeName(collection);
    var tree :- TreeOf(db, collection);
    Ok(db[name := tree[key := Encode(e)]])
  }

  // -------------------------------------------------------------------- theorems

  /** What is written is read back until it expires, or, if its payload is not one its kind
      allows, refused; and no other read changes. */
  lemma PutThenGet(db: Database, collection: Text, key: Text, e: ManagedEntry, c: Text, k: Text, now: DateTime)
    requires e.value.Sized() && Put(db, collection, key, e).Ok?
    ensures Get(Put(db, collection, key, e).value, c, k, now)
            == if (c, k) != (collection, key) then Get(db, c, k, now)
               else if !e.value.Readable() then Err(InvalidValue)
               else Ok(if e.IsExpired(now) then None else Some(e.value))
  {
    DecodeEncoded(e);
    if EncodeTreeName(c) == EncodeTreeName(collection) {
      TreeNamesDiffer(c, collection);
    }
  }

  /** How long a put is read back, by its own TTL. */
  lemma PutLivesUntil(db: Database, c: Text, k: Text, v: Value, ttl: Option<int>, now: DateTime, later: DateTime)
    requires v.Sized() && v.Readable() && EncodeTreeName(c).Ok? && now <= later
    ensures var e := NewEntry(now, v, ttl);
            && (e.Ok? <==> ttl.Some? ==> 0 < ttl.value && now + ttl.value <= 8_210_266_876_799_999)
            && (e.Ok? ==> Put(db, c, k, e.value).Ok?
                          && Get(Put(db, c, k, e.value).value, c, k, later)
                             == Ok(if ttl.Some? && now + ttl.value <= later then None else Some(v)))
  {
    if NewEntry(now, v, ttl).Ok? {
      PutThenGet(db, c, k, NewEntry(now, v, ttl).value, c, k, later);
    }
  }

  /** A well-formed database stays well-formed under a write exactly when the written entry can
      be read back. */
  lemma PutKeepsWellFormedIff(db: Database, collection: Text, key: Text, e: ManagedEntry)
    requires e.value.Sized() && WellFormed(db) && Put(db, collection, key, e).Ok?
    ensures WellFormed(Put(db, collection, key, e).value) <==> e.value.Readable()
  {
    var name := EncodeTreeName(collection).value;
    var after := Put(db, collection, key, e).value;
    TreeNameBijection(name, collection);
    DecodeEncoded(e);
    assert after[name][key] == Encode(e);
    if e.value.Readable() {
      forall n | n in after && IsOwned(n) ensures GoodOwned(after, n) {
        assert n in db ==> GoodOwned(db, n);
      }
    } else {
      assert !GoodRow(key, after[name][key]);
      assert !GoodOwned(after, name);
    }
  }

  /** Culling is invisible: now and at any later time every read gives what it would have
      given, errors included. */
  lemma CullIsInvisible(db: Database, now: DateTime, later: DateTime, collection: Text, key: Text)
    requires now <= later
    ensures Get(Culled(db, now), collection, key, later) == Get(db, collection, key, later)
  {
  }

  /** Culling leaves no expired row in an owned tree, and no tree or other row is lost. */
  lemma CullRemovesExactlyTheExpired(db: Database, now: DateTime, name: bytes, key: bytes)
    ensures name in Culled(db, now) <==> name in db
    ensures name in db ==>
              (key in Culled(db, now)[name] <==> key in db[name] && !(IsOwned(name) && Expired(db[name][key], now)))
    ensures name in db && key in Culled(db, now)[name] ==> Culled(db, now)[name][key] == db[name][key]
    ensures WellFormed(db) ==> WellFormed(Culled(db, now))
  {
    if WellFormed(db) {
      forall n | n in Culled(db, now) && IsOwned(n) ensures GoodOwned(Culled(db, now), n) {
        assert GoodOwned(db, n);
        forall k | k in Culled(db, now)[n] ensures GoodRow(k, Culled(db, now)[n][k]) {
          assert GoodRow(k, db[n][k]);
        }
      }
    }
  }

  /** After the store is destroyed it reads as empty, and what belongs to others is as it was. */
  lemma DestroyedReadsEmpty(db: Database, collection: Text, key: Text, now: DateTime, name: bytes)
    requires EncodeTreeName(collection).Ok?
    ensures Get(Foreign(db), collection, key, now) == Ok(None)
    ensures !IsOwned(name) ==> (name in Foreign(db) <==> name in db) && (name in db ==> Foreign(db)[name] == db[name])
  {
  }

  /** Dropping one collection's tree empties that collection and no other. */
  lemma DropIsolatesCollections(db: Database, dropped: Text, collection: Text, key: Text, now: DateTime)
    requires EncodeTreeName(dropped).Ok? && EncodeTreeName(collection).Ok?
    ensures Get(db - {EncodeTreeName(dropped).value}, collection, key, now)
            == if collection == dropped then Ok(None) else Get(db, collection, key, now)
  {
    if EncodeTreeName(dropped) == EncodeTreeName(collection) {
      TreeNamesDiffer(dropped, collection);
    }
  }
}
