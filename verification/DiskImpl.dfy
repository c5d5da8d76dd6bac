/** Disk maintenance as loops over trees changed in place. */
module DiskImpl {
  import opened Base
  import opened Utf8
  import opened Entries
  import opened Enumeration
  import opened DiskTreeNames
  import opened Disk

  class DiskStore {
    var trees: Database

    constructor (trees: Database)
      ensures this.trees == trees
    {
      this.trees := trees;
    }

    /** The names of the store's own trees; an ill-formed one is an error. */
    method OwnedTreeNames() returns (r: Result<seq<bytes>>)
      ensures r.Ok? <==> forall name | name in trees && IsOwned(name) :: DecodeTreeName(name).Ok?
      ensures r.Ok? ==> forall name :: name in r.value <==> name in trees && IsOwned(name)
    {
      var owned: seq<bytes> := [];
      var rest := trees.Keys;
      while rest != {}
        invariant rest <= trees.Keys
        invariant forall name :: name in owned <==> name in trees.Keys - rest && IsOwned(name)
        invariant forall name | name in owned :: DecodeTreeName(name).Ok?
        decreases rest
      {
        var name :| name in rest;
        var decoded := DecodeName(name);
        if decoded.Err? {
          return Err(decoded.error);
        }
        if decoded.value.Some? {
          owned := owned + [name];
        }
        rest := rest - {name};
      }
      r := Ok(owned);
    }

    /** The keys of a tree's expired rows, or an error if any row is ill-formed. */
    static method ValidateTreeEntries(tree: Tree, now: DateTime) returns (r: Result<seq<bytes>>)
      ensures r.Ok? <==> GoodTree(tree)
      ensures r.Ok? ==> forall key :: key in r.value <==> key in tree && Expired(tree[key], now)
    {
      var expired: seq<bytes> := [];
      var rest := tree.Keys;
      while rest != {}
        invariant rest <= tree.Keys
        invariant forall key | key in tree.Keys - rest :: GoodRow(key, tree[key])
        invariant forall key :: key in expired <==> key in tree.Keys - rest && Expired(tree[key], now)
        decreases rest
      {
        var key :| key in rest;
        if !Valid(key) {
          assert !GoodRow(key, tree[key]);
          return Err(InvalidKey);
        }
        var entry := Decode(tree[key]);
        if entry.Err? {
          assert !GoodRow(key, tree[key]);
          return Err(entry.error);
        }
        if entry.value.IsExpired(now) {
          expired := expired + [key];
        }
        rest := rest - {key};
      }
      r := Ok(expired);
    }

    /** Checks every owned tree; on success pairs each with its expired keys. */
    method ValidateAll(now: DateTime) returns (r: Result<seq<(bytes, seq<bytes>)>>)
      ensures r.Ok? <==> WellFormed(trees)
      ensures r.Ok? ==> IsPlan(trees, now, r.value)
    {
      var owned := OwnedTreeNames();
      if owned.Err? {
        assert exists name :: name in trees && IsOwned(name) && !GoodOwned(trees, name);
        return Err(owned.error);
      }
      var plan: seq<(bytes, seq<bytes>)> := [];
      for i := 0 to |owned.value|
        invariant |plan| == i
        invariant forall j | 0 <= j < i :: plan[j].0 == owned.value[j] && GoodOwned(trees, plan[j].0)
        invariant forall j | 0 <= j < i :: PlansExpired(trees, now, plan[j])
      {
        var name := owned.value[i];
        assert name in owned.value;
        var expired := ValidateTreeEntries(trees[name], now);
        if expired.Err? {
          assert !GoodOwned(trees, name);
          return Err(expired.error);
        }
        plan := plan + [(name, expired.value)];
      }
      forall name | name in trees && IsOwned(name) ensures GoodOwned(trees, name) && exists j | 0 <= j < |plan| :: plan[j].0 == name {
        assert name in owned.value;
        var j :| 0 <= j < |owned.value| && owned.value[j] == name;
        assert plan[j].0 == name;
      }
      forall j | 0 <= j < |plan| ensures plan[j].0 in trees && IsOwned(plan[j].0) {
        assert owned.value[j] in owned.value;
      }
      r := Ok(plan);
    }

    /** All or nothing: if anything owned is ill-formed nothing changes, otherwise exactly the
        expired rows of owned trees go. */
    method Cull(now: DateTime) returns (r: Result<()>)
      modifies this
      ensures r.Ok? <==> WellFormed(old(trees))
      ensures trees == if r.Ok? then Culled(old(trees), now) else old(trees)
    {
      var plan := ValidateAll(now);
      if plan.Err? {
        return Err(plan.error);
      }
      ghost var before := trees;
      for i := 0 to |plan.value|
        invariant trees.Keys == before.Keys
        invariant forall name | name in before ::
                    trees[name] == if PlannedBefore(plan.value, i, name) then FreshRows(before[name], now) else before[name]
      {
        var (name, keys) := plan.value[i];
        RemoveRows(name, keys, before[name], now);
        assert PlansExpired(before, now, plan.value[i]);
        forall n | n in before
          ensures trees[n] == if PlannedBefore(plan.value, i + 1, n) then FreshRows(before[n], now) else before[n]
        {
          assert PlannedBefore(plan.value, i + 1, n) <==> PlannedBefore(plan.value, i, n) || n == name;
        }
      }
      forall name | name in before ensures PlannedBefore(plan.value, |plan.value|, name) <==> IsOwned(name) {
        if IsOwned(name) {
          var j :| 0 <= j < |plan.value| && plan.value[j].0 == name;
        }
      }
      r := Ok(());
    }

    /** Removes expired rows from one tree, which may have lost them already. */
    method RemoveRows(name: bytes, keys: seq<bytes>, ghost tree: Tree, now: DateTime)
      requires name in trees && (trees[name] == tree || trees[name] == FreshRows(tree, now))
      requires forall key :: key in keys <==> key in tree && Expired(tree[key], now)
      modifies this
      ensures trees == old(trees)[name := FreshRows(tree, now)]
    {
      for i := 0 to |keys|
        invariant name in trees && trees == old(trees)[name := trees[name]]
        invariant trees[name] == old(trees)[name] - Elements(keys[..i])
      {
        ElementsSnoc(keys, i);
        trees := trees[name := trees[name] - {keys[i]}];
      }
      assert keys[..|keys|] == keys;
      assert old(trees)[name] - Elements(keys) == FreshRows(tree, now);
    }

    method Destroy(now: DateTime) returns (r: Result<bool>)
      modifies this
      ensures r.Ok? <==> WellFormed(old(trees))
      ensures trees == if r.Ok? then Foreign(old(trees)) else old(trees)
      ensures r.Ok? ==> r.value
    {
      var plan := ValidateAll(now);
      if plan.Err? {
        return Err(plan.error);
      }
      ghost var before := trees;
      for i := 0 to |plan.value|
        invariant trees.Keys <= before.Keys
        invariant forall name | name in before :: name in trees <==> !PlannedBefore(plan.value, i, name)
        invariant forall name | name in trees :: trees[name] == before[name]
      {
        trees := trees - {plan.value[i].0};
        forall n | n in before ensures n in trees <==> !PlannedBefore(plan.value, i + 1, n) {
          assert PlannedBefore(plan.value, i + 1, n) <==> PlannedBefore(plan.value, i, n) || n == plan.value[i].0;
        }
      }
      forall name | name in before ensures PlannedBefore(plan.value, |plan.value|, name) <==> IsOwned(name) {
        if IsOwned(name) {
          var j :| 0 <= j < |plan.value| && plan.value[j].0 == name;
        }
      }
      r := Ok(true);
    }

    method DestroyCollection(collection: Text, now: DateTime) returns (r: Result<bool>)
      modifies this
      ensures match EncodeTreeName(collection)
              case Err(e) => r == Err(e) && trees == old(trees)
              case Ok(name) =>
                if name !in old(trees) then r == Ok(false) && trees == old(trees)
                else if GoodTree(old(trees)[name]) then r == Ok(true) && trees == old(trees) - {name}
                else r.Err? && trees == old(trees)
    {
      var name := EncodeName(collection);
      if name.Err? {
        return Err(name.error);
      }
      if name.value !in trees {
        return Ok(false);
      }
      var checked := ValidateTreeEntries(trees[name.value], now);
      if checked.Err? {
        return Err(checked.error);
      }
      trees := trees - {name.value};
      r := Ok(true);
    }
  }

  /** The second component lists the expired keys of the tree named by the first. */
  ghost predicate PlansExpired(db: Database, now: DateTime, step: (bytes, seq<bytes>)) {
    && step.0 in db
    && forall key :: key in step.1 <==> key in db[step.0] && Expired(db[step.0][key], now)
  }

  predicate PlannedBefore(plan: seq<(bytes, seq<bytes>)>, n: nat, name: bytes)
    requires n <= |plan|
  {
    exists j | 0 <= j < n :: plan[j].0 == name
  }

  /** Each owned tree with its expired keys. */
  ghost predicate IsPlan(db: Database, now: DateTime, plan: seq<(bytes, seq<bytes>)>) {
    && (forall j | 0 <= j < |plan| :: PlansExpired(db, now, plan[j]) && IsOwned(plan[j].0))
    && (forall name | name in db && IsOwned(name) :: PlannedBefore(plan, |plan|, name))
  }
}
