/** The sort behind `Query.order(field)`: `items.sort((a, b) => a[field] <
    b[field] ? -1 : 1)`. The comparator answers 1 for equal keys in both
    directions, so the engine may leave equal keys in any order; the model
    sorts by insertion, comparing each key with `<` as the comparator does. */
module Sorting {
  import opened Values

  /** The keys of `s`, read from a snapshot taken before sorting. */
  function KeysOf<T, M>(s: seq<T>, key: map<T, Value<M>>): (k: seq<Value<M>>)
    requires forall x :: x in s ==> x in key
    ensures |k| == |s| && forall i :: 0 <= i < |s| ==> k[i] == key[s[i]]
  {
    seq(|s|, i requires 0 <= i < |s| => key[s[i]])
  }

  /** No key is less than (`<`) a key before it. */
  ghost predicate Sorted<M>(k: seq<Value<M>>) {
    forall i, j :: 0 <= i < j < |k| ==> !Less(k[j], k[i])
  }

  /** All keys are strings, or all are null, booleans or numbers: the key sets
      on which `<` is a strict weak order. */
  ghost predicate Uniform<M>(k: seq<Value<M>>) {
    (forall i :: 0 <= i < |k| ==> k[i].Str?) || (forall i :: 0 <= i < |k| ==> IsNumericKey(k[i]))
  }

  /** No key of a later element is less than the key of an earlier one. */
  ghost predicate SortedBy<T, M>(a: seq<T>, key: map<T, Value<M>>)
    requires forall x :: x in a ==> x in key
  {
    forall p, q :: 0 <= p < q < |a| ==> !Less(key[a[q]], key[a[p]])
  }

  /** Every key is in class `c`, one of the two classes `<` orders. */
  ghost predicate InClass<T, M>(a: seq<T>, key: map<T, Value<M>>, c: int)
    requires forall x :: x in a ==> x in key
  {
    c < 2 && forall x :: x in a ==> KeyClass(key[x]) == c
  }

  /** Puts `x` in front of the first element whose key is not less than its
      own. */
  function Insert<T, M>(x: T, s: seq<T>, key: map<T, Value<M>>): (r: seq<T>)
    requires x in key && forall y :: y in s ==> y in key
    ensures multiset(r) == multiset(s) + multiset{x}
    ensures forall y :: y in r ==> y in key
  {
    if s == [] || !Less(key[s[0]], key[x]) then [x] + s
    else
      var t := Insert(x, s[1..], key);
      var r := [s[0]] + t;
      assert s == [s[0]] + s[1..];
      assert multiset(r) == multiset{s[0]} + multiset(t);
      assert forall y :: y in r ==> y == s[0] || y in t;
      r
  }

  /** `items.sort((a, b) => a[field] < b[field] ? -1 : 1)` by the snapshot
      `key`: a permutation of `s` (see `SortBySorted` for its order). */
  function SortBy<T, M>(s: seq<T>, key: map<T, Value<M>>): (r: seq<T>)
    requires forall y :: y in s ==> y in key
    ensures multiset(r) == multiset(s)
    ensures forall y :: y in r ==> y in key
  {
    if s == [] then []
    else
      var r := Insert(s[0], SortBy(s[1..], key), key);
      assert s == [s[0]] + s[1..];
      assert forall y :: y in r ==> y in multiset(s);
      r
  }

  lemma {:induction false} InsertSorted<T, M>(x: T, s: seq<T>, key: map<T, Value<M>>, c: int)
    requires x in key && forall y :: y in s ==> y in key
    requires KeyClass(key[x]) == c && InClass(s, key, c) && SortedBy(s, key)
    ensures SortedBy(Insert(x, s, key), key)
  {
    if s == [] || !Less(key[s[0]], key[x]) {
      forall j | 0 <= j < |s|
        ensures !Less(key[s[j]], key[x])
      {
        if j > 0 {
          LessNegativelyTransitive(key[s[j]], key[s[0]], key[x]);
        }
      }
    } else {
      var t := s[1..];
      assert forall y :: y in t ==> y in s;
      InsertSorted(x, t, key, c);
      var r := Insert(x, t, key);
      LessAsymmetric(key[s[0]], key[x]);
      forall y | y in r
        ensures !Less(key[y], key[s[0]])
      {
        assert y in multiset(t) + multiset{x};
        if y != x {
          var j :| 0 <= j < |t| && t[j] == y;
          assert s[j + 1] == y;
        }
      }
      assert Insert(x, s, key) == [s[0]] + r;
    }
  }

  lemma {:induction false} SortBySorted<T, M>(s: seq<T>, key: map<T, Value<M>>, c: int)
    requires forall y :: y in s ==> y in key
    requires InClass(s, key, c)
    ensures SortedBy(SortBy(s, key), key)
  {
    if s != [] {
      var t := s[1..];
      assert forall y :: y in t ==> y in s;
      SortBySorted(t, key, c);
      var r := SortBy(t, key);
      forall y | y in r
        ensures KeyClass(key[y]) == c
      {
        assert y in multiset(t);
      }
      InsertSorted(s[0], r, key, c);
    }
  }

  /** When the keys are uniform, the sorted keys are in order. */
  lemma SortByOrders<T, M>(s: seq<T>, key: map<T, Value<M>>)
    requires forall y :: y in s ==> y in key
    ensures Uniform(KeysOf(s, key)) ==> Sorted(KeysOf(SortBy(s, key), key))
  {
    if Uniform(KeysOf(s, key)) {
      var c := if forall x :: x in s ==> key[x].Str? then 0 else 1;
      forall x | x in s
        ensures KeyClass(key[x]) == c
      {
        var i :| 0 <= i < |s| && s[i] == x;
        assert KeysOf(s, key)[i] == key[x];
      }
      SortBySorted(s, key, c);
      var r := SortBy(s, key);
      assert SortedBy(r, key);
      assert Sorted(KeysOf(r, key));
    }
  }
}
