/** Listing the keys of a map: stores return them in an arbitrary order, and some only up to
    a page limit. */
module Enumeration {
  import opened Base

  ghost predicate Distinct<T>(s: seq<T>) {
    forall i, j | 0 <= i < j < |s| :: s[i] != s[j]
  }

  /** `s` lists exactly the elements of `keys`, once each. */
  ghost predicate Lists<T(!new)>(s: seq<T>, keys: set<T>) {
    Distinct(s) && forall x :: x in s <==> x in keys
  }

  function Elements<T>(s: seq<T>): set<T> {
    set x | x in s
  }

  lemma ElementsCons<T>(s: seq<T>)
    requires s != []
    ensures Elements(s) == {s[0]} + Elements(s[1..])
  {
    assert s == [s[0]] + s[1..];
  }

  lemma ElementsSnoc<T>(s: seq<T>, i: nat)
    requires i < |s|
    ensures Elements(s[..i + 1]) == Elements(s[..i]) + {s[i]}
    ensures forall x :: x in s[..i + 1] <==> x in s[..i] || x == s[i]
  {
    assert s[..i + 1] == s[..i] + [s[i]];
  }

  function Page<T>(s: seq<T>, limit: nat): seq<T> {
    if |s| <= limit then s else s[..limit]
  }

  lemma FirstIsMember<T>(s: seq<T>)
    ensures s == [] || s[0] in s
  {
  }

  lemma FirstOrLater<T>(s: seq<T>, x: T)
    requires s != []
    ensures x in s <==> x == s[0] || x in s[1..]
  {
    assert s == [s[0]] + s[1..];
  }

  lemma DistinctParts<T>(a: seq<T>, b: seq<T>)
    requires Distinct(a + b)
    ensures Distinct(a) && Distinct(b) && forall x | x in a :: x !in b
  {
    assert forall i | 0 <= i < |a| :: (a + b)[i] == a[i];
    forall i, j | 0 <= i < j < |b| ensures b[i] != b[j] {
      assert (a + b)[|a| + i] != (a + b)[|a| + j];
    }
    forall i, j | 0 <= i < |a| && 0 <= j < |b| ensures a[i] != b[j] {
      assert (a + b)[i] != (a + b)[|a| + j];
    }
  }

  lemma DistinctCons<T>(s: seq<T>)
    requires Distinct(s) && s != []
    ensures Distinct(s[1..]) && s[0] !in s[1..]
  {
    assert s == [s[0]] + s[1..];
    DistinctParts([s[0]], s[1..]);
  }

  lemma TailConcat<T>(a: seq<T>, b: seq<T>)
    requires a != []
    ensures (a + b)[1..] == a[1..] + b && (a + b)[0] == a[0]
  {
  }

  lemma PageDistinct<T>(s: seq<T>, n: nat)
    requires Distinct(s)
    ensures Distinct(Page(s, n)) && forall x | x in Page(s, n) :: x in s
  {
  }

  lemma {:induction false} ListsSize<T(!new)>(s: seq<T>, keys: set<T>)
    requires Lists(s, keys)
    ensures |s| == |keys|
  {
    if s == [] {
      assert keys == {};
    } else {
      var rest := keys - {s[0]};
      forall x ensures x in s[1..] <==> x in rest {
        if x in s[1..] {
          var i :| 0 <= i < |s[1..]| && s[1..][i] == x;
          assert s[i + 1] == x;
        }
        if x in rest {
          assert x in s;
        }
      }
      ListsSize(s[1..], rest);
      assert keys == rest + {s[0]};
    }
  }

  lemma {:induction false} SomeListing<T(!new)>(keys: set<T>) returns (s: seq<T>)
    ensures Lists(s, keys)
  {
    if keys == {} {
      s := [];
    } else {
      var x :| x in keys;
      var t := SomeListing(keys - {x});
      s := t + [x];
      ListsAppend(t, keys - {x}, x);
      assert keys - {x} + {x} == keys;
    }
  }

  lemma ListsAppend<T(!new)>(s: seq<T>, keys: set<T>, x: T)
    requires Lists(s, keys) && x !in keys
    ensures Lists(s + [x], keys + {x})
  {
    forall i, j | 0 <= i < j < |s| + 1 ensures (s + [x])[i] != (s + [x])[j] {
      assert s != [] ==> (s + [x])[i] in s;
    }
  }

  /** An order that shows an element last, so that no shorter page shows it. */
  lemma LastInListing<T(!new)>(all: set<T>, last: T) returns (s: seq<T>)
    requires last in all
    ensures Lists(s, all) && |s| == |all| && forall n: nat | n < |all| :: last !in Page(s, n)
  {
    var front := SomeListing(all - {last});
    ListsAppend(front, all - {last}, last);
    assert all - {last} + {last} == all;
    s := front + [last];
    ListsSize(s, all);
  }

  /** A capped listing shows a wanted key whatever the order exactly when all keys fit. */
  lemma PageCompleteIff<T(!new)>(keys: set<T>, wanted: T, limit: nat)
    requires wanted in keys
    ensures (forall s | Lists(s, keys) :: wanted in Page(s, limit)) <==> |keys| <= limit
  {
    if |keys| <= limit {
      forall s | Lists(s, keys) ensures wanted in Page(s, limit) {
        ListsSize(s, keys);
      }
    } else {
      var s := LastInListing(keys, wanted);
      assert Lists(s, keys) && wanted !in Page(s, limit);
    }
  }

  lemma CountDistinct<T(!new)>(r: seq<T>, all: set<T>, limit: nat)
    requires Distinct(r) && |r| <= limit && forall x | x in r :: x in all
    requires |r| < limit ==> forall x | x in all :: x in r
    ensures |r| == if limit < |all| then limit else |all|
  {
    var shown := set x | x in r;
    ListsSize(r, shown);
    SubsetSize(shown, all);
    if |r| < limit {
      assert shown == all;
    }
  }

  lemma CountOneMore<T>(a: set<T>, b: set<T>, k: T)
    ensures |a * ({k} + b)| == |(a - {k}) * b| + if k in a then 1 else 0
  {
    var others := (a - {k}) * b;
    assert a * ({k} + b) == if k in a then others + {k} else others;
  }

  lemma KeysWithout<K, V>(table: map<K, V>, k: K)
    ensures (table - {k}).Keys == table.Keys - {k}
  {
  }

  lemma RemoveBoth<K, V>(table: map<K, V>, b: set<K>, k: K)
    ensures (table - {k}) - b == table - ({k} + b)
  {
    var left, right := (table - {k}) - b, table - ({k} + b);
    assert left.Keys == right.Keys;
  }

  lemma DeleteOneMore<K, V>(table: map<K, V>, b: set<K>, k: K)
    ensures (table - {k}) - b == table - ({k} + b)
    ensures |table.Keys * ({k} + b)| == |(table - {k}).Keys * b| + if k in table.Keys then 1 else 0
  {
    RemoveBoth(table, b, k);
    KeysWithout(table, k);
    CountOneMore(table.Keys, b, k);
  }

  lemma NothingDeleted<K, V>(table: map<K, V>, b: set<K>)
    requires b == {}
    ensures table - b == table && |table.Keys * b| == 0
  {
    assert table.Keys * b == {};
  }

  lemma SubsetSize<T>(a: set<T>, b: set<T>)
    requires a <= b
    ensures |a| <= |b|
  {
    if a != {} {
      var x :| x in a;
      SubsetSize(a - {x}, b - {x});
    }
  }

  // ------------------------------------------------------------ merged listings

  /** Several listings one after the other, each element once; the limit is looked at after an
      element was taken. */
  function Merge<T(==)>(listing: seq<T>, limit: Option<nat>, found: seq<T>): seq<T> {
    if listing == [] then found
    else if listing[0] in found then Merge(listing[1..], limit, found)
    else if Full(limit, |found| + 1) then found + [listing[0]]
    else Merge(listing[1..], limit, found + [listing[0]])
  }

  predicate Full(limit: Option<nat>, n: nat) {
    limit.Some? && n >= limit.value
  }

  ghost predicate Merges<T>(r: seq<T>, listing: seq<T>, found: seq<T>, limit: Option<nat>) {
    && Distinct(r)
    && (forall x | x in r :: x in found || x in listing)
    && (forall x | x in found :: x in r)
    && (Full(limit, |r|) || forall x | x in listing :: x in r)
    && (limit.Some? && listing != [] ==> |r| <= limit.value || |r| <= |found| + 1)
  }

  lemma {:induction false} MergeMerges<T(!new)>(listing: seq<T>, limit: Option<nat>, found: seq<T>)
    requires Distinct(found) && (found == [] || !Full(limit, |found|))
    ensures Merges(Merge(listing, limit, found), listing, found, limit)
    decreases |listing|
  {
    if listing != [] {
      assert listing == [listing[0]] + listing[1..];
      if listing[0] in found {
        MergeMerges(listing[1..], limit, found);
      } else if !Full(limit, |found| + 1) {
        MergeMerges(listing[1..], limit, found + [listing[0]]);
      }
    }
  }

  /** A merged listing without limit shows every element once; with limit n it shows
      min(n, all) of them, except that a limit of zero shows one. */
  lemma MergedListingIsExact<T(!new)>(listing: seq<T>, limit: Option<nat>, all: set<T>)
    requires forall x :: x in listing <==> x in all
    ensures var r := Merge(listing, limit, []);
            && Distinct(r) && (forall x | x in r :: x in all)
            && (limit.None? ==> Lists(r, all))
            && |r| == match limit
                      case None => |all|
                      case Some(n) => var shown := if n == 0 then 1 else n; if shown < |all| then shown else |all|
  {
    MergeMerges(listing, limit, []);
    var r := Merge(listing, limit, []);
    if limit.Some? {
      if listing == [] {
        assert all == {};
      } else {
        CountDistinct(r, all, if limit.value == 0 then 1 else limit.value);
      }
    } else {
      ListsSize(r, all);
    }
  }
}
