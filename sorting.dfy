/** `order_by(...)` on a query: a stable sort by an integer key. Rows with equal keys keep the
    order they had (key order of the table), which is the order the model gives to ties. */
module Sorting {

  predicate SortedBy<T>(s: seq<T>, key: T -> int)
  {
    forall i, j :: 0 <= i < j < |s| ==> key(s[i]) <= key(s[j])
  }

  /** Every element of `s` has a key of at least `k`. */
  predicate AllAtLeast<T>(s: seq<T>, key: T -> int, k: int)
  {
    forall i :: 0 <= i < |s| ==> k <= key(s[i])
  }

  lemma AtLeastByMultiset<T>(s: seq<T>, t: seq<T>, key: T -> int, k: int)
    requires AllAtLeast(t, key, k) && multiset(s) <= multiset(t)
    ensures AllAtLeast(s, key, k)
  {
    forall i | 0 <= i < |s| ensures k <= key(s[i]) {
      assert s[i] in multiset(s);
      assert s[i] in multiset(t);
      var j :| 0 <= j < |t| && t[j] == s[i];
    }
  }

  /** Puts `x` in front of the first element whose key is not smaller, so among equal keys it
      goes first. */
  function Insert<T>(x: T, s: seq<T>, key: T -> int): (r: seq<T>)
    requires SortedBy(s, key)
    ensures SortedBy(r, key)
    ensures multiset(r) == multiset(s) + multiset{x}
  {
    if s == [] then [x]
    else if key(x) <= key(s[0]) then [x] + s
    else
      var rest := Insert(x, s[1..], key);
      assert s == [s[0]] + s[1..];
      AtLeastByMultiset(rest, [x] + s[1..], key, key(s[0]));
      [s[0]] + rest
  }

  function SortBy<T>(s: seq<T>, key: T -> int): (r: seq<T>)
    ensures SortedBy(r, key)
    ensures multiset(r) == multiset(s)
    ensures forall i :: 0 <= i < |r| ==> r[i] in s
    ensures forall x :: x in s ==> x in r
  {
    if s == [] then []
    else
      assert s == [s[0]] + s[1..];
      var r := Insert(s[0], SortBy(s[1..], key), key);
      SameElements(r, s);
      r
  }

  lemma SameElements<T>(r: seq<T>, s: seq<T>)
    requires multiset(r) == multiset(s)
    ensures forall i :: 0 <= i < |r| ==> r[i] in s
    ensures forall x :: x in s ==> x in r
  {
    forall i | 0 <= i < |r| ensures r[i] in s {
      assert r[i] in multiset(r);
    }
    forall x | x in s ensures x in r {
      assert x in multiset(s);
    }
  }
}
