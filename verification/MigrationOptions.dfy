/** Which collections a migration copies, and under which name. */
module MigrationOptions {
  import opened Base
  import opened Utf8
  import opened Identities

  /** No collections listed means all of them; a prefix mapping renames, and skips whatever
      does not carry the source prefix. */
  datatype Options = Options(collections: seq<Text>, prefix: Option<(Text, Text)>, batchSize: nat)

  predicate Selected(o: Options, collection: Text) {
    o.collections == [] || collection in o.collections
  }

  function TargetCollection(o: Options, collection: Text): Option<Text> {
    match o.prefix
    case None => Some(collection)
    case Some((from, to)) =>
      if from <= collection then
        var suffix := collection[|from|..];
        assert collection == from + suffix;
        ConcatValid(from, suffix);
        ConcatValid(to, suffix);
        Some(to + suffix)
      else None
  }

  function BatchSize(o: Options): (n: nat)
    ensures n >= 1 && n >= o.batchSize && (n == o.batchSize || n == 1)
  {
    if o.batchSize == 0 then 1 else o.batchSize
  }

  predicate Chosen(o: Options, collection: Text) {
    Selected(o, collection) && TargetCollection(o, collection).Some?
  }

  function Image(o: Options, x: Pair): Pair
    requires Chosen(o, x.0)
  {
    (TargetCollection(o, x.0).value, x.1)
  }

  /** Renaming never merges two keys. */
  lemma ImageInjective(o: Options, x: Pair, y: Pair)
    requires Chosen(o, x.0) && Chosen(o, y.0)
    ensures Image(o, x) == Image(o, y) <==> x == y
  {
    if Image(o, x) == Image(o, y) && o.prefix.Some? {
      var (from, to) := o.prefix.value;
      assert x.0 == from + x.0[|from|..] && y.0 == from + y.0[|from|..];
      assert (to + x.0[|from|..])[|to|..] == x.0[|from|..];
      assert (to + y.0[|from|..])[|to|..] == y.0[|from|..];
    }
  }

  lemma ImagesDistinct(o: Options)
    ensures forall x: Pair, y: Pair | Chosen(o, x.0) && Chosen(o, y.0) && Image(o, x) == Image(o, y) :: x == y
  {
    forall x: Pair, y: Pair | Chosen(o, x.0) && Chosen(o, y.0) && Image(o, x) == Image(o, y) ensures x == y {
      ImageInjective(o, x, y);
    }
  }

  // ---------------------------------------------------------------- names, spelt out

  /** A collection that carries the source prefix is chosen if it was asked for, and its new
      name is the target prefix followed by the same rest. */
  lemma PrefixIsReplaced(o: Options, from: Text, to: Text, rest: Text, k: Text)
    requires o.prefix == Some((from, to))
    ensures Valid(from + rest) && Valid(to + rest)
    ensures Chosen(o, from + rest) <==> o.collections == [] || from + rest in o.collections
    ensures Chosen(o, from + rest) ==> Image(o, (from + rest, k)) == (to + rest, k)
  {
    ConcatValid(from, rest);
    ConcatValid(to, rest);
    assert (from + rest)[|from|..] == rest;
  }

  /** Without a prefix names stay as they are. */
  lemma NamesAreKept(o: Options, c: Text, k: Text)
    requires o.prefix.None?
    ensures Chosen(o, c) <==> o.collections == [] || c in o.collections
    ensures Chosen(o, c) ==> Image(o, (c, k)) == (c, k)
  {
  }

  /** The only target collections a migration writes to carry the target prefix and come from a
      chosen collection with the source prefix. */
  lemma ImagesCarryThePrefix(o: Options, from: Text, to: Text, x: Pair) returns (rest: Text)
    requires o.prefix == Some((from, to)) && Chosen(o, x.0)
    ensures x.0 == from + rest && Image(o, x) == (to + rest, x.1)
  {
    assert x.0 == from + x.0[|from|..];
    ConcatValid(from, x.0[|from|..]);
    rest := x.0[|from|..];
  }

  /** No chosen collection is renamed to what a collection that was not asked for would be. */
  lemma NotAnImage(o: Options, from: Text, to: Text, rest: Text, k: Text)
    requires o.prefix == Some((from, to))
    ensures Valid(from + rest) && Valid(to + rest)
    ensures !Chosen(o, from + rest) ==> forall y: Pair | Chosen(o, y.0) :: Image(o, y) != (to + rest, k)
  {
    PrefixIsReplaced(o, from, to, rest, k);
    forall y: Pair | Chosen(o, y.0) ensures Image(o, y) == (to + rest, k) ==> y.0 == from + rest {
      var other := ImagesCarryThePrefix(o, from, to, y);
      SuffixesDiffer(to, rest, other);
    }
  }

  lemma SuffixesDiffer(to: Text, a: Text, b: Text)
    ensures to + a == to + b <==> a == b
  {
    assert (to + a)[|to|..] == a && (to + b)[|to|..] == b;
  }
}
