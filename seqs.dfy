/** Sequence operations that stand for the SQL the handlers issue: a WHERE
    filter, a `fetchone()` search, an ORDER BY ... DESC sort, and the choice of
    a fresh row id. */
module Seqs {

  datatype Option<T> = None | Some(value: T)

  /** Every pair of positions in `s` carries different keys (a primary key). */
  ghost predicate DistinctKeys<T, K>(s: seq<T>, key: T -> K) {
    forall i, j :: 0 <= i < j < |s| ==> key(s[i]) != key(s[j])
  }

  /** Keys never grow from left to right (ORDER BY key DESC, ties unordered). */
  ghost predicate NonIncreasing<T>(s: seq<T>, key: T -> int) {
    forall i, j :: 0 <= i < j < |s| ==> key(s[i]) >= key(s[j])
  }

  /** Keys strictly fall from left to right. */
  ghost predicate Decreasing<T>(s: seq<T>, key: T -> int) {
    forall i, j :: 0 <= i < j < |s| ==> key(s[i]) > key(s[j])
  }

  /** The elements of `s` that satisfy `keep`, in their original order. */
  function Filter<T(!new)>(s: seq<T>, keep: T -> bool): (r: seq<T>)
    ensures |r| <= |s|
    ensures forall x :: x in r <==> x in s && keep(x)
    ensures (forall i :: 0 <= i < |s| ==> keep(s[i])) ==> r == s
  {
    if s == [] then []
    else
      assert s == [s[0]] + s[1..];
      if keep(s[0]) then [s[0]] + Filter(s[1..], keep) else Filter(s[1..], keep)
  }

  /** The position of the first element of `s` that satisfies `p`, if any. */
  function FindFirst<T>(s: seq<T>, p: T -> bool): (k: Option<nat>)
    ensures k.Some? ==> k.value < |s| && p(s[k.value])
    ensures k.Some? ==> forall j :: 0 <= j < k.value ==> !p(s[j])
    ensures k.None? <==> forall j :: 0 <= j < |s| ==> !p(s[j])
  {
    if s == [] then None
    else if p(s[0]) then Some(0)
    else match FindFirst(s[1..], p)
      case None => None
      case Some(k) => Some(k + 1)
  }

  /** An id larger than every id in `ids`; only its freshness is relied upon. */
  function NewId(ids: seq<int>): (n: int)
    ensures forall i :: 0 <= i < |ids| ==> ids[i] < n
  {
    if ids == [] then 1
    else
      var rest := NewId(ids[1..]);
      assert forall i :: 1 <= i < |ids| ==> ids[i] == ids[1..][i - 1];
      if ids[0] + 1 > rest then ids[0] + 1 else rest
  }

  /** Inserts `x` into a key-descending sequence after all larger keys. */
  function Insert<T(!new)>(x: T, s: seq<T>, key: T -> int): (r: seq<T>)
    requires NonIncreasing(s, key)
    ensures multiset(r) == multiset(s) + multiset{x}
    ensures NonIncreasing(r, key)
  {
    if s == [] || key(s[0]) <= key(x) then
      NonIncreasingCons(x, s, key);
      [x] + s
    else
      assert s == [s[0]] + s[1..];
      var t := Insert(x, s[1..], key);
      InsertBelowHead(x, s, t, key);
      [s[0]] + t
  }

  lemma NonIncreasingCons<T>(h: T, s: seq<T>, key: T -> int)
    requires NonIncreasing(s, key)
    requires s != [] ==> key(s[0]) <= key(h)
    ensures NonIncreasing([h] + s, key)
  {
    forall i, j | 0 <= i < j < |[h] + s| ensures key(([h] + s)[i]) >= key(([h] + s)[j]) {
      if i > 0 {
        assert ([h] + s)[i] == s[i - 1];
      }
      assert ([h] + s)[j] == s[j - 1];
    }
  }

  lemma InsertBelowHead<T>(x: T, s: seq<T>, t: seq<T>, key: T -> int)
    requires NonIncreasing(s, key) && s != [] && key(x) < key(s[0])
    requires multiset(t) == multiset(s[1..]) + multiset{x}
    requires NonIncreasing(t, key)
    ensures NonIncreasing([s[0]] + t, key)
  {
    if t != [] {
      assert t[0] in multiset(t);
      if t[0] != x {
        assert t[0] in s[1..];
        var j :| 0 <= j < |s[1..]| && s[1..][j] == t[0];
        assert s[j + 1] == t[0];
      }
    }
    NonIncreasingCons(s[0], t, key);
  }

  /** A key-descending permutation of `s` (insertion sort). */
  function SortDesc<T(!new)>(s: seq<T>, key: T -> int): (r: seq<T>)
    ensures multiset(r) == multiset(s)
    ensures NonIncreasing(r, key)
  {
    if s == [] then []
    else
      assert s == [s[0]] + s[1..];
      Insert(s[0], SortDesc(s[1..], key), key)
  }

  lemma DistinctKeysTail<T, K>(s: seq<T>, key: T -> K)
    requires |s| > 0 && DistinctKeys(s, key)
    ensures DistinctKeys(s[1..], key)
    ensures forall y :: y in s[1..] ==> key(y) != key(s[0])
  {
    forall i, j | 0 <= i < j < |s[1..]| ensures key(s[1..][i]) != key(s[1..][j]) {
      assert s[1..][i] == s[i + 1] && s[1..][j] == s[j + 1];
    }
    forall y | y in s[1..] ensures key(y) != key(s[0]) {
      var j :| 0 <= j < |s[1..]| && s[1..][j] == y;
      assert s[j + 1] == y;
    }
  }

  lemma DistinctKeysConcat<T, K>(a: seq<T>, b: seq<T>, key: T -> K)
    requires DistinctKeys(a, key) && DistinctKeys(b, key)
    requires forall x, y :: x in a && y in b ==> key(x) != key(y)
    ensures DistinctKeys(a + b, key)
  {
    forall i, j | 0 <= i < j < |a + b| ensures key((a + b)[i]) != key((a + b)[j]) {
      if j < |a| {
        assert (a + b)[i] == a[i] && (a + b)[j] == a[j];
      } else if i >= |a| {
        assert (a + b)[i] == b[i - |a|] && (a + b)[j] == b[j - |a|];
      } else {
        assert (a + b)[i] == a[i] && (a + b)[j] == b[j - |a|];
      }
    }
  }

  /** Appending a row whose key is new keeps the keys distinct. */
  lemma DistinctKeysAppend<T, K>(s: seq<T>, x: T, key: T -> K)
    requires DistinctKeys(s, key)
    requires forall i :: 0 <= i < |s| ==> key(s[i]) != key(x)
    ensures DistinctKeys(s + [x], key)
  {
    forall i, j | 0 <= i < j < |s + [x]| ensures key((s + [x])[i]) != key((s + [x])[j]) {
      assert (s + [x])[i] == s[i];
    }
  }

  lemma {:induction false} FilterKeepsDistinct<T(!new), K>(s: seq<T>, keep: T -> bool, key: T -> K)
    ensures DistinctKeys(s, key) ==> DistinctKeys(Filter(s, keep), key)
  {
    if s != [] && DistinctKeys(s, key) {
      DistinctKeysTail(s, key);
      FilterKeepsDistinct(s[1..], keep, key);
      if keep(s[0]) {
        DistinctKeysConcat([s[0]], Filter(s[1..], keep), key);
      }
    }
  }

  /** Inserting a row with a new `id` keeps the ids distinct, whatever the sort key. */
  lemma {:induction false} InsertKeepsDistinct<T(!new), K>(x: T, s: seq<T>, key: T -> int, id: T -> K)
    requires NonIncreasing(s, key) && DistinctKeys(s, id)
    requires forall y :: y in s ==> id(y) != id(x)
    ensures DistinctKeys(Insert(x, s, key), id)
  {
    if s == [] || key(s[0]) <= key(x) {
      DistinctKeysConcat([x], s, id);
    } else {
      DistinctKeysTail(s, id);
      assert s == [s[0]] + s[1..];
      assert NonIncreasing(s[1..], key);
      InsertKeepsDistinct(x, s[1..], key, id);
      var t := Insert(x, s[1..], key);
      forall y | y in t ensures id(y) != id(s[0]) {
        assert y in multiset(t);
      }
      DistinctKeysConcat([s[0]], t, id);
    }
  }

  /** Sorting by any key does not duplicate ids. */
  lemma {:induction false} SortKeepsDistinct<T(!new), K>(s: seq<T>, key: T -> int, id: T -> K)
    ensures DistinctKeys(s, id) ==> DistinctKeys(SortDesc(s, key), id)
  {
    if s != [] && DistinctKeys(s, id) {
      DistinctKeysTail(s, id);
      SortKeepsDistinct(s[1..], key, id);
      var t := SortDesc(s[1..], key);
      forall y | y in t ensures id(y) != id(s[0]) {
        assert y in multiset(t);
      }
      InsertKeepsDistinct(s[0], t, key, id);
    }
  }

  /** Sorted by a key no two elements share, the order is strict. */
  lemma StrictWhenDistinct<T>(s: seq<T>, key: T -> int)
    requires NonIncreasing(s, key)
    ensures DistinctKeys(s, key) ==> Decreasing(s, key)
  {
  }

  /** A sequence with no members is empty. */
  lemma NoMemberEmpty<T>(s: seq<T>)
    ensures (forall x :: x !in s) ==> s == []
  {
    if s != [] {
      assert s[0] in s;
    }
  }
}
