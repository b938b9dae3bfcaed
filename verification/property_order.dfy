/**
 * The order in which `Serialize(object, ...)` visits properties: LINQ's
 * `OrderBy(x => x.GetAttribute<DFeBaseAttribute>()?.Ordem ?? 0)`, a stable sort by
 * `OrdemKey`. Modelled as an insertion sort that puts each property before the
 * already-sorted properties with an equal key, which keeps declaration order on ties.
 */
module PropertyOrder {
  import opened Descriptors

  predicate Sorted(s: seq<Property>) {
    forall i, j :: 0 <= i < j < |s| ==> OrdemKey(s[i]) <= OrdemKey(s[j])
  }

  /** The properties of `s` whose key is `k`, in the order of `s`. */
  function WithKey(s: seq<Property>, k: int): seq<Property> {
    if s == [] then [] else (if OrdemKey(s[0]) == k then [s[0]] else []) + WithKey(s[1..], k)
  }

  lemma WithKeyCons(x: Property, s: seq<Property>, k: int)
    ensures WithKey([x] + s, k) == (if OrdemKey(x) == k then [x] else []) + WithKey(s, k)
  {
    assert ([x] + s)[1..] == s;
  }

  /** Place `p` in front of the first property of `s` whose key is not smaller. */
  function Insert(p: Property, s: seq<Property>): (r: seq<Property>)
    ensures |r| == |s| + 1
  {
    if s == [] || OrdemKey(p) <= OrdemKey(s[0]) then [p] + s
    else [s[0]] + Insert(p, s[1..])
  }

  /** Inserting adds exactly `p`. */
  lemma {:induction false} InsertPermutes(p: Property, s: seq<Property>)
    ensures multiset(Insert(p, s)) == multiset(s) + multiset{p}
  {
    if s != [] && OrdemKey(p) > OrdemKey(s[0]) {
      InsertPermutes(p, s[1..]);
      assert s == [s[0]] + s[1..];
    }
  }

  /** The inserted sequence starts with `p` or with the old first property. */
  lemma InsertHead(p: Property, s: seq<Property>)
    ensures Insert(p, s)[0] == p || (s != [] && Insert(p, s)[0] == s[0])
  {
  }

  /** Inserting into a sorted sequence keeps it sorted. */
  lemma {:induction false} InsertSorted(p: Property, s: seq<Property>)
    requires Sorted(s)
    ensures Sorted(Insert(p, s))
  {
    if s != [] && OrdemKey(p) > OrdemKey(s[0]) {
      var rest := Insert(p, s[1..]);
      InsertSorted(p, s[1..]);
      InsertHead(p, s[1..]);
      assert OrdemKey(s[0]) <= OrdemKey(rest[0]);
      assert Insert(p, s) == [s[0]] + rest;
    }
  }

  /** Inserting adds `p` to the properties with its key, ahead of those already there. */
  lemma {:induction false} InsertWithKey(p: Property, s: seq<Property>, k: int)
    ensures WithKey(Insert(p, s), k) == (if OrdemKey(p) == k then [p] else []) + WithKey(s, k)
  {
    if s == [] || OrdemKey(p) <= OrdemKey(s[0]) {
      WithKeyCons(p, s, k);
    } else {
      InsertWithKey(p, s[1..], k);
      WithKeyCons(s[0], Insert(p, s[1..]), k);
      WithKeyCons(s[0], s[1..], k);
      assert s == [s[0]] + s[1..];
    }
  }

  /** The stable sort: each property, from the last, is inserted into the sorted rest. */
  function OrderByOrdem(s: seq<Property>): (r: seq<Property>)
    ensures |r| == |s|
  {
    if s == [] then [] else Insert(s[0], OrderByOrdem(s[1..]))
  }

  /**
   * `OrderBy` is a stable sort: the result is ordered by key, is a permutation of the
   * input, and for every key lists the properties with that key in their input order.
   */
  lemma {:induction false} OrderByOrdemSorts(s: seq<Property>)
    ensures Sorted(OrderByOrdem(s))
    ensures multiset(OrderByOrdem(s)) == multiset(s)
    ensures forall k :: WithKey(OrderByOrdem(s), k) == WithKey(s, k)
  {
    if s != [] {
      var rest := OrderByOrdem(s[1..]);
      OrderByOrdemSorts(s[1..]);
      InsertSorted(s[0], rest);
      InsertPermutes(s[0], rest);
      assert s == [s[0]] + s[1..];
      forall k ensures WithKey(OrderByOrdem(s), k) == WithKey(s, k) {
        InsertWithKey(s[0], rest, k);
        WithKeyCons(s[0], s[1..], k);
      }
    }
  }

  /** Properties that all share one key (for example, none sets `Ordem`) are in key order. */
  lemma SameKeySorted(s: seq<Property>, k: int)
    requires forall i :: 0 <= i < |s| ==> OrdemKey(s[i]) == k
    ensures Sorted(s)
  {
  }

  /** An input already in key order (for example, one without any `Ordem`) is left as it is. */
  lemma {:induction false} SortedInputUnchanged(s: seq<Property>)
    requires Sorted(s)
    ensures OrderByOrdem(s) == s
  {
    if s != [] {
      SortedInputUnchanged(s[1..]);
      assert s == [s[0]] + s[1..];
    }
  }
}
