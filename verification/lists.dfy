/** The sequence operations the query view and the collection are built from:
    `filter` (as a selection by a sequence of marks), `findIndex`, the
    replace-or-append step of `save`, and relative indexing as in `Array.at`.
    They are generic: the store passes its rows and, alongside, the ids or the
    predicate results it read from them. */
module Lists {
  import opened Outcomes

  function Min(a: int, b: int): int {
    if a < b then a else b
  }

  /** The number of marks that are set. */
  function CountTrue(marks: seq<bool>): (n: nat)
    ensures n <= |marks|
  {
    if marks == [] then 0 else (if marks[0] then 1 else 0) + CountTrue(marks[1..])
  }

  /** `s.filter(...)`, given whether each element passes. */
  function Select<T>(s: seq<T>, keep: seq<bool>): (r: seq<T>)
    requires |keep| == |s|
    ensures |r| == CountTrue(keep)
  {
    if s == [] then [] else (if keep[0] then [s[0]] else []) + Select(s[1..], keep[1..])
  }

  predicate Increasing(idx: seq<int>) {
    forall i, j :: 0 <= i < j < |idx| ==> idx[i] < idx[j]
  }

  /** Walking increasing positions, the next one has not been visited, and
      visiting it adds exactly it. */
  lemma IncreasingStep(idx: seq<int>, i: nat)
    requires Increasing(idx) && i < |idx|
    ensures idx[i] !in idx[..i]
    ensures forall t :: t in idx[..i + 1] <==> t in idx[..i] || t == idx[i]
  {
    assert idx[..i + 1] == idx[..i] + [idx[i]];
  }

  /** The positions of the set marks, each plus `off`, in increasing order. */
  function KeptFrom(keep: seq<bool>, off: int): (idx: seq<int>)
    ensures |idx| == CountTrue(keep)
    ensures forall j :: 0 <= j < |idx| ==> off <= idx[j] < off + |keep| && keep[idx[j] - off]
  {
    if keep == [] then []
    else
      var rest := KeptFrom(keep[1..], off + 1);
      var idx := (if keep[0] then [off] else []) + rest;
      assert forall j :: 0 <= j < |rest| ==> keep[1..][rest[j] - off - 1] == keep[rest[j] - off];
      idx
  }

  /** The positions of the set marks, in increasing order. */
  function Kept(keep: seq<bool>): (idx: seq<int>)
    ensures |idx| == CountTrue(keep)
    ensures forall j :: 0 <= j < |idx| ==> 0 <= idx[j] < |keep| && keep[idx[j]]
  {
    KeptFrom(keep, 0)
  }

  lemma {:induction false} KeptFromIncreasing(keep: seq<bool>, off: int)
    ensures Increasing(KeptFrom(keep, off))
  {
    if keep != [] {
      KeptFromIncreasing(keep[1..], off + 1);
      var rest := KeptFrom(keep[1..], off + 1);
      assert KeptFrom(keep, off) == (if keep[0] then [off] else []) + rest;
    }
  }

  lemma KeptIncreasing(keep: seq<bool>)
    ensures Increasing(Kept(keep))
  {
    KeptFromIncreasing(keep, 0);
  }

  /** A set mark's position is among the kept positions. */
  lemma {:induction false} KeptFromHas(keep: seq<bool>, off: int, i: int)
    requires 0 <= i < |keep| && keep[i]
    ensures off + i in KeptFrom(keep, off)
  {
    var rest := KeptFrom(keep[1..], off + 1);
    assert KeptFrom(keep, off) == (if keep[0] then [off] else []) + rest;
    if i > 0 {
      KeptFromHas(keep[1..], off + 1, i - 1);
    }
  }

  lemma KeptCovers(keep: seq<bool>)
    ensures forall i :: 0 <= i < |keep| && keep[i] ==> i in Kept(keep)
  {
    forall i | 0 <= i < |keep| && keep[i]
      ensures i in Kept(keep)
    {
      KeptFromHas(keep, 0, i);
    }
  }

  lemma {:induction false} SelectAtFrom<T>(s: seq<T>, keep: seq<bool>, off: int)
    requires |keep| == |s|
    ensures forall j :: 0 <= j < |KeptFrom(keep, off)| ==> Select(s, keep)[j] == s[KeptFrom(keep, off)[j] - off]
  {
    if s != [] {
      SelectAtFrom(s[1..], keep[1..], off + 1);
      var r, tail := Select(s, keep), Select(s[1..], keep[1..]);
      var idx, rest := KeptFrom(keep, off), KeptFrom(keep[1..], off + 1);
      var d := if keep[0] then 1 else 0;
      assert r == (if keep[0] then [s[0]] else []) + tail;
      assert idx == (if keep[0] then [off] else []) + rest;
      forall j | 0 <= j < |idx|
        ensures r[j] == s[idx[j] - off]
      {
        if j >= d {
          assert r[j] == tail[j - d] && idx[j] == rest[j - d];
          assert s[1..][rest[j - d] - off - 1] == s[rest[j - d] - off];
        }
      }
    }
  }

  lemma SelectAt<T>(s: seq<T>, keep: seq<bool>)
    requires |keep| == |s|
    ensures forall j :: 0 <= j < |Kept(keep)| ==> Select(s, keep)[j] == s[Kept(keep)[j]]
  {
    SelectAtFrom(s, keep, 0);
  }

  /** `Select` keeps exactly the marked elements, in their original order: its
      result is `s` read at the increasing positions of the set marks. */
  lemma SelectIsOrderedSubsequence<T>(s: seq<T>, keep: seq<bool>)
    requires |keep| == |s|
    ensures |Kept(keep)| == |Select(s, keep)| && Increasing(Kept(keep))
    ensures forall j :: 0 <= j < |Kept(keep)| ==> keep[Kept(keep)[j]] && Select(s, keep)[j] == s[Kept(keep)[j]]
    ensures forall i :: 0 <= i < |s| && keep[i] ==> i in Kept(keep)
  {
    KeptIncreasing(keep);
    KeptCovers(keep);
    SelectAt(s, keep);
  }

  /** A filter brings in no element its input did not hold. */
  lemma {:induction false} SelectFrom<T>(s: seq<T>, keep: seq<bool>)
    requires |keep| == |s|
    ensures forall x :: x in Select(s, keep) ==> x in s
  {
    if s != [] {
      SelectFrom(s[1..], keep[1..]);
    }
  }

  /** Every element is kept when every mark is set. */
  lemma {:induction false} SelectAll<T>(s: seq<T>, keep: seq<bool>)
    requires |keep| == |s|
    requires forall i :: 0 <= i < |keep| ==> keep[i]
    ensures Select(s, keep) == s
  {
    if s != [] {
      SelectAll(s[1..], keep[1..]);
    }
  }

  /** `f` applied to the marked elements; the others as they were. */
  function ApplyMarked<T>(ps: seq<T>, marks: seq<bool>, f: T -> T): (r: seq<T>)
    requires |marks| == |ps|
    ensures |r| == |ps| && forall i :: 0 <= i < |ps| ==> r[i] == if marks[i] then f(ps[i]) else ps[i]
  {
    seq(|ps|, i requires 0 <= i < |ps| => if marks[i] then f(ps[i]) else ps[i])
  }

  /** Positions `0, 1, ..., n - 1`. */
  function Upto(n: nat): (idx: seq<int>)
    ensures |idx| == n && Increasing(idx) && forall j :: 0 <= j < n ==> idx[j] == j
  {
    seq(n, j requires 0 <= j < n => j)
  }

  /** `f` applied, one after the other, at the first `n` of the positions
      `idx`, each time to the element as it then is. */
  function EditAt<T>(ps: seq<T>, idx: seq<int>, n: nat, f: T -> T): (r: seq<T>)
    requires n <= |idx| && forall j :: 0 <= j < |idx| ==> 0 <= idx[j] < |ps|
    ensures |r| == |ps|
  {
    if n == 0 then ps
    else
      var r := EditAt(ps, idx, n - 1, f);
      r[idx[n - 1] := f(r[idx[n - 1]])]
  }

  /** At increasing positions every element is edited at most once: the
      visited positions hold `f` of their original value, the others are
      untouched. */
  lemma {:induction false} EditAtSpec<T>(ps: seq<T>, idx: seq<int>, n: nat, f: T -> T)
    requires n <= |idx| && forall j :: 0 <= j < |idx| ==> 0 <= idx[j] < |ps|
    requires Increasing(idx)
    ensures forall t :: 0 <= t < |ps| ==> EditAt(ps, idx, n, f)[t] == if t in idx[..n] then f(ps[t]) else ps[t]
  {
    if n > 0 {
      EditAtSpec(ps, idx, n - 1, f);
      IncreasingStep(idx, n - 1);
    }
  }

  /** Editing, one after the other, the positions of the set marks edits
      every marked element once and leaves the others. */
  lemma EditAtKept<T>(ps: seq<T>, marks: seq<bool>, f: T -> T)
    requires |marks| == |ps|
    ensures EditAt(ps, Kept(marks), |Kept(marks)|, f) == ApplyMarked(ps, marks, f)
  {
    var idx := Kept(marks);
    KeptIncreasing(marks);
    KeptCovers(marks);
    EditAtSpec(ps, idx, |idx|, f);
    assert idx[..|idx|] == idx;
  }

  /** `f` applied to every element. */
  function EditAll<T>(ps: seq<T>, f: T -> T): (r: seq<T>)
    ensures |r| == |ps|
  {
    seq(|ps|, i requires 0 <= i < |ps| => f(ps[i]))
  }

  /** At increasing positions, the next position to visit still holds its
      original value. */
  lemma EditAtUnvisited<T>(ps: seq<T>, idx: seq<int>, n: nat, f: T -> T)
    requires Increasing(idx) && n < |idx| && forall j :: 0 <= j < |idx| ==> 0 <= idx[j] < |ps|
    ensures EditAt(ps, idx, n, f)[idx[n]] == ps[idx[n]]
  {
    EditAtSpec(ps, idx, n, f);
    IncreasingStep(idx, n);
  }

  /** Editing, one after the other, every position edits every element once. */
  lemma EditAtAll<T>(ps: seq<T>, f: T -> T)
    ensures EditAt(ps, Upto(|ps|), |ps|, f) == EditAll(ps, f)
  {
    var idx := Upto(|ps|);
    EditAtSpec(ps, idx, |ps|, f);
    assert idx[..|ps|] == idx;
    forall t | 0 <= t < |ps|
      ensures t in idx
    {
      assert idx[t] == t;
    }
  }

  /** The position of the first element equal to `k`, or -1 (`findIndex`). */
  function FirstIndex<K(==)>(ids: seq<K>, k: K): (r: int)
    ensures -1 <= r < |ids|
    ensures r == -1 <==> k !in ids
    ensures r >= 0 ==> ids[r] == k && k !in ids[..r]
  {
    if ids == [] then -1
    else if ids[0] == k then 0
    else
      var r := FirstIndex(ids[1..], k);
      assert r >= 0 ==> ids[..r + 1] == [ids[0]] + ids[1..][..r];
      if r == -1 then -1 else r + 1
  }

  /** Marks the elements whose id is `k` (the filter of `get`). */
  function Matching<K(==)>(ids: seq<K>, k: K): (r: seq<bool>)
    ensures |r| == |ids|
    ensures forall i :: 0 <= i < |ids| ==> r[i] == (ids[i] == k)
  {
    seq(|ids|, i requires 0 <= i < |ids| => ids[i] == k)
  }

  /** `where(id matches).first()` is the element at `FirstIndex`: the
      selection is empty exactly when the id is absent, and otherwise starts
      with the first element that has it. */
  lemma {:induction false} FirstMatch<T, K>(s: seq<T>, ids: seq<K>, k: K)
    requires |ids| == |s|
    ensures Select(s, Matching(ids, k)) == [] <==> k !in ids
    ensures k in ids ==> Select(s, Matching(ids, k))[0] == s[FirstIndex(ids, k)]
  {
    if s != [] {
      assert Matching(ids, k)[1..] == Matching(ids[1..], k);
      FirstMatch(s[1..], ids[1..], k);
      assert ids == [ids[0]] + ids[1..];
    }
  }

  /** The replace-or-append step of `save`: `x`, whose id is `k`, replaces the
      first element whose id is `k`, or is appended when there is none. */
  function Upsert<T, K(==)>(s: seq<T>, ids: seq<K>, x: T, k: K): (r: seq<T>)
    requires |ids| == |s|
  {
    var i := FirstIndex(ids, k);
    if i < 0 then s + [x] else s[i := x]
  }

  /** What `save` does to the sequence: the length grows by one exactly when
      the id was absent, and only the replaced (or appended) position changes. */
  lemma UpsertShape<T, K>(s: seq<T>, ids: seq<K>, x: T, k: K)
    requires |ids| == |s|
    ensures var r := Upsert(s, ids, x, k);
      && |r| == (if k in ids then |s| else |s| + 1)
      && x in r
      && (k in ids ==> r[FirstIndex(ids, k)] == x)
      && (k !in ids ==> r[|s|] == x)
      && forall i :: 0 <= i < |s| && i != FirstIndex(ids, k) ==> r[i] == s[i]
  {
  }

  /** A save brings in no element but the saved one and never shortens. */
  lemma UpsertFrom<T, K>(s: seq<T>, ids: seq<K>, x: T, k: K)
    requires |ids| == |s|
    ensures |Upsert(s, ids, x, k)| >= |s|
    ensures forall y :: y in Upsert(s, ids, x, k) ==> y in s || y == x
  {
    var i := FirstIndex(ids, k);
    if i >= 0 {
      forall y | y in s[i := x]
        ensures y in s || y == x
      {
        var j :| 0 <= j < |s| && s[i := x][j] == y;
        if j != i {
          assert s[j] == y;
        }
      }
    }
  }

  /** The ids after a save: the saved id is present and nothing else changed
      (a replaced element had that id already). */
  lemma UpsertIds<K>(ids: seq<K>, k: K)
    ensures Upsert(ids, ids, k, k) == if k in ids then ids else ids + [k]
  {
    var i := FirstIndex(ids, k);
    if i >= 0 {
      assert ids[i := k] == ids;
    }
  }

  predicate Distinct<K(==)>(ids: seq<K>) {
    forall i, j :: 0 <= i < j < |ids| ==> ids[i] != ids[j]
  }

  /** Saving keeps ids distinct. */
  lemma UpsertKeepsDistinct<K>(ids: seq<K>, k: K)
    requires Distinct(ids)
    ensures Distinct(Upsert(ids, ids, k, k))
  {
    UpsertIds(ids, k);
  }

  /** Saving the same element twice is saving it once. */
  lemma UpsertIdempotent<T, K>(s: seq<T>, ids: seq<K>, x: T, k: K)
    requires |ids| == |s|
    ensures Upsert(Upsert(s, ids, x, k), Upsert(ids, ids, k, k), x, k) == Upsert(s, ids, x, k)
  {
    UpsertIds(ids, k);
    var i := FirstIndex(ids, k);
    if i < 0 {
      assert FirstIndex(ids + [k], k) == |ids| by {
        assert (ids + [k])[..|ids|] == ids;
      }
    }
  }

  /** Saving an element at its own position changes nothing when ids are
      distinct: the first element with its id is the element itself. */
  lemma UpsertInPlace<T, K>(s: seq<T>, ids: seq<K>, i: nat)
    requires |ids| == |s| && Distinct(ids) && i < |s|
    ensures Upsert(s, ids, s[i], ids[i]) == s
  {
    var j := FirstIndex(ids, ids[i]);
    assert j == i;
  }

  /** Saving the first element with a given id at its own position changes
      nothing, whether or not ids are distinct. */
  lemma UpsertInPlaceFirst<T, K>(s: seq<T>, ids: seq<K>, i: int)
    requires |ids| == |s| && 0 <= i < |s| && i == FirstIndex(ids, ids[i])
    ensures Upsert(s, ids, s[i], ids[i]) == s
  {
  }

  /** A save whose id is present keeps the length and replaces one position
      with an element of the same id, so the ids stay as they were. */
  lemma UpsertPresent<T, K>(s: seq<T>, ids: seq<K>, x: T, k: K)
    requires |ids| == |s| && k in ids
    ensures |Upsert(s, ids, x, k)| == |s|
    ensures ids[FirstIndex(ids, k)] == k
    ensures forall i :: 0 <= i < |s| ==> Upsert(s, ids, x, k)[i] == if i == FirstIndex(ids, k) then x else s[i]
  {
  }

  /** `save` with ids compared by `==`: a key that equals itself is saved by
      `Upsert`; a key that equals nothing, itself included (NaN), is never
      found by `findIndex`, so the element is appended. */
  function Saved<T, K(==)>(s: seq<T>, ids: seq<K>, x: T, k: K, selfEqual: bool): (r: seq<T>)
    requires |ids| == |s|
  {
    if selfEqual then Upsert(s, ids, x, k) else s + [x]
  }

  /** The ids after a save: unchanged when the key was found, otherwise the
      key appended. */
  lemma SavedIds<K>(ids: seq<K>, k: K, selfEqual: bool)
    ensures Saved(ids, ids, k, k, selfEqual) == if selfEqual && k in ids then ids else ids + [k]
  {
    UpsertIds(ids, k);
  }

  /** After a save of an id that equals itself, `findIndex` of that id is the
      position the element went to. */
  lemma SavedFinds<K>(ids: seq<K>, k: K)
    ensures FirstIndex(Saved(ids, ids, k, k, true), k) == if k in ids then FirstIndex(ids, k) else |ids|
  {
    UpsertIds(ids, k);
    if k !in ids {
      assert (ids + [k])[..|ids|] == ids;
    }
  }

  /** Whether or not the id equals itself, a save brings in no element but
      the saved one and never shortens. */
  lemma SavedFrom<T, K>(s: seq<T>, ids: seq<K>, x: T, k: K, selfEqual: bool)
    requires |ids| == |s|
    ensures |Saved(s, ids, x, k, selfEqual)| >= |s|
    ensures forall y :: y in Saved(s, ids, x, k, selfEqual) ==> y in s || y == x
  {
    UpsertFrom(s, ids, x, k);
  }

  /** Saving an element whose key is at position `at` changes no position
      after `at`: a key that equals itself is found at `at` or before, so the
      length is kept; any other key is appended. */
  lemma SavedWithin<T, K>(s: seq<T>, ids: seq<K>, x: T, k: K, selfEqual: bool, at: nat)
    requires |ids| == |s| && at < |s| && ids[at] == k
    ensures |Saved(s, ids, x, k, selfEqual)| == if selfEqual then |s| else |s| + 1
    ensures forall t :: at < t < |s| ==> Saved(s, ids, x, k, selfEqual)[t] == s[t]
  {
    if selfEqual {
      assert FirstIndex(ids, k) <= at;
    }
  }

  /** Marks the elements whose id differs from `k` (the filter of `delete`). */
  function Without<K(==)>(ids: seq<K>, k: K): (r: seq<bool>)
    ensures |r| == |ids|
    ensures forall i :: 0 <= i < |ids| ==> r[i] == (ids[i] != k)
  {
    seq(|ids|, i requires 0 <= i < |ids| => ids[i] != k)
  }

  /** Marks the elements whose id is outside `gone`. */
  function NotIn<K(==)>(ids: seq<K>, gone: seq<K>): (r: seq<bool>)
    ensures |r| == |ids|
    ensures forall i :: 0 <= i < |ids| ==> r[i] == (ids[i] !in gone)
  {
    seq(|ids|, i requires 0 <= i < |ids| => ids[i] !in gone)
  }

  /** While no id has been deleted, every id picked for deletion is still
      among the ids. */
  lemma NothingDeletedYet<K>(ids: seq<K>, marks: seq<bool>, gone: seq<K>, i: nat)
    requires |marks| == |ids| && i < |gone| && gone == Select(ids, marks)
    ensures gone[i] in Select(ids, NotIn(ids, []))
  {
    SelectAll(ids, NotIn(ids, []));
    SelectFrom(ids, marks);
    assert gone[i] in gone;
  }

  /** After a delete no element has the id, and when ids were distinct and the
      id was present exactly one element went. */
  lemma {:induction false} DeleteRemoves<K>(ids: seq<K>, k: K)
    ensures k !in Select(ids, Without(ids, k))
    ensures Distinct(ids) && k in ids ==> |Select(ids, Without(ids, k))| == |ids| - 1
  {
    if ids != [] {
      assert Without(ids, k)[1..] == Without(ids[1..], k);
      DeleteRemoves(ids[1..], k);
      if Distinct(ids) && k in ids {
        assert Distinct(ids[1..]);
        if ids[0] == k {
          SelectAll(ids[1..], Without(ids[1..], k));
        }
      }
    }
  }

  /** Deleting id `k` after deleting every id in `gone` is deleting every id in
      `gone + [k]`: the loop of `deleteWhere` collapses to a single filter. */
  lemma {:induction false} DeleteAfterDeletes<T, K>(s: seq<T>, ids: seq<K>, gone: seq<K>, k: K)
    requires |ids| == |s|
    ensures var keep := NotIn(ids, gone);
      Select(Select(s, keep), Without(Select(ids, keep), k)) == Select(s, NotIn(ids, gone + [k]))
  {
    if s != [] {
      var keep := NotIn(ids, gone);
      assert keep[1..] == NotIn(ids[1..], gone);
      assert NotIn(ids, gone + [k])[1..] == NotIn(ids[1..], gone + [k]);
      DeleteAfterDeletes(s[1..], ids[1..], gone, k);
      var head := if keep[0] then [s[0]] else [];
      var headIds := if keep[0] then [ids[0]] else [];
      assert Select(s, keep) == head + Select(s[1..], keep[1..]);
      assert Select(ids, keep) == headIds + Select(ids[1..], keep[1..]);
      var inner, innerIds := Select(s, keep), Select(ids, keep);
      if keep[0] {
        assert inner[1..] == Select(s[1..], keep[1..]);
        assert innerIds[1..] == Select(ids[1..], keep[1..]);
        assert Without(innerIds, k)[1..] == Without(innerIds[1..], k);
      } else {
        assert inner == Select(s[1..], keep[1..]);
        assert innerIds == Select(ids[1..], keep[1..]);
      }
    }
  }

  /** A delete whose id is absent keeps everything. */
  lemma DeleteAbsent<T, K>(s: seq<T>, ids: seq<K>, k: K)
    requires |ids| == |s| && k !in ids
    ensures Select(s, Without(ids, k)) == s
  {
    SelectAll(s, Without(ids, k));
  }

  /** The position `Array.prototype.at(i)` reads: `i` itself when it is a valid
      index, `len + i` for a negative `i` down to `-len`, and none otherwise. */
  function Position(len: nat, i: int): (r: Option<nat>)
    ensures r.Some? <==> -(len as int) <= i < len
    ensures r.Some? ==> r.value < len
    ensures r.Some? && i >= 0 ==> r.value == i
    ensures r.Some? && i < 0 ==> r.value == len + i
  {
    if 0 <= i < len then Some(i) else if -(len as int) <= i < 0 then Some(len + i) else None
  }
}
