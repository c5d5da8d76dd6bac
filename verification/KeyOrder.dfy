/** Byte-wise order on dictionary keys (the order of Rust's `str::cmp`) and sorting of
    key-value lists by key. */
module KeyOrder {
  import opened Base
  import opened Utf8

  predicate Less(a: bytes, b: bytes)
    decreases |a|
  {
    b != [] && (a == [] || a[0] < b[0] || (a[0] == b[0] && Less(a[1..], b[1..])))
  }

  lemma {:induction false} LessAsymmetric(a: bytes, b: bytes)
    requires Less(a, b)
    ensures !Less(b, a) && a != b
    decreases |a|
  {
    if a != [] && a[0] == b[0] {
      LessAsymmetric(a[1..], b[1..]);
    }
  }

  lemma {:induction false} LessTotal(a: bytes, b: bytes)
    ensures Less(a, b) || a == b || Less(b, a)
    decreases |a|
  {
    if a != [] && b != [] && a[0] == b[0] {
      LessTotal(a[1..], b[1..]);
      assert a == [a[0]] + a[1..] && b == [b[0]] + b[1..];
    }
  }

  lemma {:induction false} LessTransitive(a: bytes, b: bytes, c: bytes)
    requires Less(a, b) && Less(b, c)
    ensures Less(a, c)
    decreases |a|
  {
    if a != [] && a[0] == b[0] == c[0] {
      LessTransitive(a[1..], b[1..], c[1..]);
    }
  }

  /** The strings agree up to position `i`, where `a` ends or has the smaller byte. */
  predicate LowerAt(a: bytes, b: bytes, i: nat) {
    i <= |a| && i < |b| && a[..i] == b[..i] && (i == |a| || a[i] < b[i])
  }

  /** Lexicographic order: what decides is the first position at which the strings differ, or
      the end of the shorter one. */
  ghost predicate Lower(a: bytes, b: bytes) {
    exists i: nat :: LowerAt(a, b, i)
  }

  /** The order is the lexicographic one on bytes. */
  lemma {:induction false} LessIff(a: bytes, b: bytes)
    ensures Less(a, b) <==> Lower(a, b)
    decreases |a|
  {
    forall i: nat | LowerAt(a, b, i) && i > 0 ensures a[0] == b[0] && LowerAt(a[1..], b[1..], i - 1) {
      assert a[0] == a[..i][0] && b[0] == b[..i][0];
      assert a[1..][..i - 1] == a[..i][1..] && b[1..][..i - 1] == b[..i][1..];
    }
    if b != [] && (a == [] || a[0] < b[0]) {
      assert LowerAt(a, b, 0);
    } else if b != [] && a[0] == b[0] {
      LessIff(a[1..], b[1..]);
      if Less(a[1..], b[1..]) {
        var i: nat :| LowerAt(a[1..], b[1..], i);
        assert a[..i + 1] == [a[0]] + a[1..][..i] && b[..i + 1] == [b[0]] + b[1..][..i];
        assert LowerAt(a, b, i + 1);
      }
    }
  }

  type Fields<V> = seq<(Text, V)>

  predicate HasKey<V>(es: Fields<V>, k: Text) {
    es != [] && (es[0].0 == k || HasKey(es[1..], k))
  }

  predicate DistinctKeys<V>(es: Fields<V>) {
    es == [] || (!HasKey(es[1..], es[0].0) && DistinctKeys(es[1..]))
  }

  ghost predicate NoneBelow<V>(k: Text, es: Fields<V>) {
    forall e | e in es :: !Less(e.0, k)
  }

  ghost predicate AllAbove<V>(k: Text, es: Fields<V>) {
    forall e | e in es :: Less(k, e.0)
  }

  /** No key is below an earlier one; equal neighbours are allowed. */
  ghost predicate Sorted<V>(es: Fields<V>) {
    es == [] || (NoneBelow(es[0].0, es[1..]) && Sorted(es[1..]))
  }

  /** Keys strictly ascending. */
  ghost predicate Ascending<V>(es: Fields<V>) {
    es == [] || (AllAbove(es[0].0, es[1..]) && Ascending(es[1..]))
  }

  /** Every key is lower than every later one. */
  ghost predicate KeysRise<V>(es: Fields<V>) {
    forall i, j | 0 <= i < j < |es| :: Lower(es[i].0, es[j].0)
  }

  function Insert<V>(e: (Text, V), es: Fields<V>): (r: Fields<V>)
    ensures |r| == |es| + 1
  {
    if es == [] || !Less(es[0].0, e.0) then [e] + es
    else [es[0]] + Insert(e, es[1..])
  }

  function Sort<V>(es: Fields<V>): (r: Fields<V>)
    ensures |r| == |es|
  {
    if es == [] then [] else Insert(es[0], Sort(es[1..]))
  }

  lemma {:induction false} InsertElements<V>(e: (Text, V), es: Fields<V>)
    ensures forall x :: x in Insert(e, es) <==> x == e || x in es
  {
    if es != [] && Less(es[0].0, e.0) {
      InsertElements(e, es[1..]);
      assert es == [es[0]] + es[1..];
    }
  }

  /** Sorting neither adds nor loses entries. */
  lemma {:induction false} SortElements<V>(es: Fields<V>)
    ensures forall x :: x in Sort(es) <==> x in es
  {
    if es != [] {
      SortElements(es[1..]);
      InsertElements(es[0], Sort(es[1..]));
      assert es == [es[0]] + es[1..];
    }
  }

  lemma NoneBelowLower<V>(k: Text, m: Text, es: Fields<V>)
    requires NoneBelow(m, es) && !Less(m, k)
    ensures NoneBelow(k, es)
  {
    forall x | x in es ensures !Less(x.0, k) {
      LessTotal(m, x.0);
      if Less(x.0, k) && Less(m, x.0) {
        LessTransitive(m, x.0, k);
      }
    }
  }

  lemma {:induction false} InsertSorted<V>(e: (Text, V), es: Fields<V>)
    requires Sorted(es)
    ensures Sorted(Insert(e, es))
  {
    if es == [] {
    } else if Less(es[0].0, e.0) {
      InsertSorted(e, es[1..]);
      InsertElements(e, es[1..]);
      LessAsymmetric(es[0].0, e.0);
      var tail := Insert(e, es[1..]);
      assert NoneBelow(es[0].0, tail);
      assert Insert(e, es) == [es[0]] + tail;
      assert ([es[0]] + tail)[1..] == tail;
    } else {
      NoneBelowLower(e.0, es[0].0, es[1..]);
      assert es == [es[0]] + es[1..];
      assert ([e] + es)[1..] == es;
    }
  }

  lemma {:induction false} SortSorts<V>(es: Fields<V>)
    ensures Sorted(Sort(es))
  {
    if es != [] {
      SortSorts(es[1..]);
      InsertSorted(es[0], Sort(es[1..]));
    }
  }

  lemma {:induction false} HasKeyMember<V>(es: Fields<V>, k: Text)
    ensures HasKey(es, k) <==> exists i | 0 <= i < |es| :: es[i].0 == k
  {
    if es != [] {
      HasKeyMember(es[1..], k);
      assert forall i | 0 < i < |es| :: es[i] == es[1..][i - 1];
    }
  }

  lemma {:induction false} InsertHasKey<V>(e: (Text, V), es: Fields<V>, k: Text)
    ensures HasKey(Insert(e, es), k) <==> e.0 == k || HasKey(es, k)
  {
    if es == [] || !Less(es[0].0, e.0) {
      assert ([e] + es)[1..] == es;
    } else {
      InsertHasKey(e, es[1..], k);
      assert Insert(e, es)[1..] == Insert(e, es[1..]);
    }
  }

  lemma {:induction false} SortHasKey<V>(es: Fields<V>, k: Text)
    ensures HasKey(Sort(es), k) <==> HasKey(es, k)
  {
    if es != [] {
      SortHasKey(es[1..], k);
      InsertHasKey(es[0], Sort(es[1..]), k);
    }
  }

  lemma {:induction false} InsertDistinct<V>(e: (Text, V), es: Fields<V>)
    ensures DistinctKeys(Insert(e, es)) <==> !HasKey(es, e.0) && DistinctKeys(es)
  {
    if es == [] || !Less(es[0].0, e.0) {
      assert ([e] + es)[1..] == es;
    } else {
      InsertDistinct(e, es[1..]);
      InsertHasKey(e, es[1..], es[0].0);
      LessAsymmetric(es[0].0, e.0);
      assert Insert(e, es)[1..] == Insert(e, es[1..]);
    }
  }

  /** Sorting neither introduces nor removes repeated keys. */
  lemma {:induction false} SortDistinct<V>(es: Fields<V>)
    ensures DistinctKeys(Sort(es)) <==> DistinctKeys(es)
  {
    if es != [] {
      SortDistinct(es[1..]);
      SortHasKey(es[1..], es[0].0);
      InsertDistinct(es[0], Sort(es[1..]));
    }
  }

  lemma {:induction false} SortedDistinctAscends<V>(es: Fields<V>)
    requires Sorted(es) && DistinctKeys(es)
    ensures Ascending(es)
  {
    if es != [] {
      SortedDistinctAscends(es[1..]);
      forall x | x in es[1..] ensures Less(es[0].0, x.0) {
        HasKeyMember(es[1..], x.0);
        LessTotal(es[0].0, x.0);
      }
    }
  }

  /** Without repeated keys the sorted list is strictly ascending. */
  lemma SortAscends<V>(es: Fields<V>)
    requires DistinctKeys(es)
    ensures Ascending(Sort(es)) && DistinctKeys(Sort(es))
  {
    SortSorts(es);
    SortDistinct(es);
    SortedDistinctAscends(Sort(es));
  }

  /** A list that is already in order is left alone. */
  lemma {:induction false} SortFixesAscending<V>(es: Fields<V>)
    requires Ascending(es)
    ensures Sort(es) == es && DistinctKeys(es)
  {
    if es != [] {
      SortFixesAscending(es[1..]);
      forall x | x in es[1..] ensures x.0 != es[0].0 && !Less(x.0, es[0].0) {
        LessAsymmetric(es[0].0, x.0);
      }
      HasKeyMember(es[1..], es[0].0);
      assert es == [es[0]] + es[1..];
    }
  }

  /** An ascending list is determined by its set of entries. */
  lemma {:induction false} AscendingUnique<V>(a: Fields<V>, b: Fields<V>)
    requires Ascending(a) && Ascending(b)
    requires forall x :: x in a <==> x in b
    ensures a == b
  {
    if a != [] {
      assert a[0] in b;
      assert b[0] in a;
      assert a == [a[0]] + a[1..] && b == [b[0]] + b[1..];
      if a[0] != b[0] {
        assert a[0] in b[1..] && b[0] in a[1..];
        LessAsymmetric(a[0].0, b[0].0);
      }
      AscendingTail(a);
      AscendingTail(b);
      AscendingUnique(a[1..], b[1..]);
    }
  }

  lemma AscendingTail<V>(a: Fields<V>)
    requires Ascending(a) && a != []
    ensures forall x :: x in a[1..] <==> x in a && x != a[0]
  {
    assert a == [a[0]] + a[1..];
    if a[0] in a[1..] {
      LessAsymmetric(a[0].0, a[0].0);
    }
  }

  /** An ascending list holds at most one entry under a key. */
  lemma {:induction false} AscendingFunctional<V>(es: Fields<V>, x: (Text, V), y: (Text, V))
    requires Ascending(es) && x in es && y in es && x.0 == y.0
    ensures x == y
  {
    AscendingTail(es);
    if x != es[0] && y != es[0] {
      AscendingFunctional(es[1..], x, y);
    } else if x != y {
      LessAsymmetric(x.0, y.0);
    }
  }

  /** Strictly ascending means that every key is lower than every later one. */
  lemma {:induction false} AscendingIff<V>(es: Fields<V>)
    ensures Ascending(es) <==> KeysRise(es)
  {
    if es != [] {
      AscendingIff(es[1..]);
      assert forall i | 0 < i < |es| :: es[i] == es[1..][i - 1];
      forall j | 0 < j < |es| ensures Less(es[0].0, es[j].0) <==> Lower(es[0].0, es[j].0) {
        LessIff(es[0].0, es[j].0);
      }
      forall e | e in es[1..] && KeysRise(es) ensures Less(es[0].0, e.0) {
        var j :| 0 <= j < |es[1..]| && es[1..][j] == e;
        assert es[j + 1] == e;
      }
      if KeysRise(es) {
        forall i, j | 0 <= i < j < |es[1..]| ensures Lower(es[1..][i].0, es[1..][j].0) {
          assert es[1..][i] == es[i + 1] && es[1..][j] == es[j + 1];
        }
      }
    }
  }

  lemma EntryUnderKey<V>(es: Fields<V>, k: Text) returns (e: (Text, V))
    requires HasKey(es, k)
    ensures e in es && e.0 == k
  {
    HasKeyMember(es, k);
    var i :| 0 <= i < |es| && es[i].0 == k;
    e := es[i];
  }

  lemma KeyOfEntry<V>(es: Fields<V>, e: (Text, V))
    requires e in es
    ensures HasKey(es, e.0)
  {
    HasKeyMember(es, e.0);
  }
}
