/**
 * Order-preserving selections over sequences of rows: a boolean-mask filter,
 * `drop_duplicates` keeping the first row of each key, and the projection of an
 * optional column onto its non-missing values.
 */
module Sequences {
  import opened Wrappers

  /** `s` occurs in `t` in order, possibly with gaps. */
  predicate IsSubsequence<T(==)>(s: seq<T>, t: seq<T>)
    decreases |t|
  {
    if s == [] then true
    else if t == [] then false
    else if s[0] == t[0] then IsSubsequence(s[1..], t[1..])
    else IsSubsequence(s, t[1..])
  }

  lemma {:induction false} SubsequenceMembers<T>(s: seq<T>, t: seq<T>)
    requires IsSubsequence(s, t)
    ensures forall x :: x in s ==> x in t
    decreases |t|
  {
    if s != [] && t != [] {
      if s[0] == t[0] {
        SubsequenceMembers(s[1..], t[1..]);
        assert s == [s[0]] + s[1..];
      } else {
        SubsequenceMembers(s, t[1..]);
      }
    }
  }

  /** The rows of `s` that satisfy `p`, in their order: a boolean-mask selection. */
  function Filter<T(==,!new)>(s: seq<T>, p: T -> bool): (r: seq<T>)
    ensures |r| <= |s|
    ensures forall x :: x in r <==> x in s && p(x)
    ensures forall x :: multiset(r)[x] == if p(x) then multiset(s)[x] else 0
    ensures IsSubsequence(r, s)
    decreases |s|
  {
    if s == [] then []
    else
      assert s == [s[0]] + s[1..];
      if p(s[0]) then [s[0]] + Filter(s[1..], p) else Filter(s[1..], p)
  }

  /** A selection keeps every row when every row passes. */
  lemma {:induction false} FilterAll<T(!new)>(s: seq<T>, p: T -> bool)
    requires forall x :: x in s ==> p(x)
    ensures Filter(s, p) == s
    decreases |s|
  {
    if s != [] {
      assert s == [s[0]] + s[1..];
      FilterAll(s[1..], p);
    }
  }

  /** Selecting again with the same mask changes nothing. */
  lemma FilterIdempotent<T(!new)>(s: seq<T>, p: T -> bool)
    ensures Filter(Filter(s, p), p) == Filter(s, p)
  {
    FilterAll(Filter(s, p), p);
  }

  /** Two masks that agree on every row of `s` select the same rows. */
  lemma {:induction false} FilterCongruent<T(!new)>(s: seq<T>, p: T -> bool, q: T -> bool)
    requires forall x :: x in s ==> p(x) == q(x)
    ensures Filter(s, p) == Filter(s, q)
    decreases |s|
  {
    if s != [] {
      assert s[0] in s;
      assert forall x :: x in s[1..] ==> x in s;
      FilterCongruent(s[1..], p, q);
    }
  }

  /** Selecting with `p` and then with `q` is selecting with a mask `pq` that holds where both do. */
  lemma {:induction false} FilterFilter<T(!new)>(s: seq<T>, p: T -> bool, q: T -> bool, pq: T -> bool)
    requires forall x :: x in s ==> pq(x) == (p(x) && q(x))
    ensures Filter(Filter(s, p), q) == Filter(s, pq)
    decreases |s|
  {
    if s != [] {
      assert s[0] in s;
      assert forall x :: x in s[1..] ==> x in s;
      FilterFilter(s[1..], p, q, pq);
      if p(s[0]) {
        var r := Filter(s[1..], p);
        assert ([s[0]] + r)[0] == s[0] && ([s[0]] + r)[1..] == r;
      }
    }
  }

  function KeysOf<T, K>(s: seq<T>, key: T -> K): set<K> {
    set i | 0 <= i < |s| :: key(s[i])
  }

  predicate DistinctBy<T, K(==)>(s: seq<T>, key: T -> K) {
    forall i, j :: 0 <= i < j < |s| ==> key(s[i]) != key(s[j])
  }

  lemma {:induction false} DistinctByOnce<T, K>(s: seq<T>, key: T -> K, x: T)
    requires DistinctBy(s, key)
    ensures multiset(s)[x] <= 1
    decreases |s|
  {
    if s != [] {
      assert s == [s[0]] + s[1..];
      DistinctByOnce(s[1..], key, x);
      if s[0] == x {
        assert x !in s[1..] by {
          forall j | 0 <= j < |s[1..]| ensures s[1..][j] != x {
            assert s[1..][j] == s[j + 1];
          }
        }
      }
    }
  }

  /** Reordering rows keeps their keys distinct. */
  lemma PermutationDistinctBy<T, K>(a: seq<T>, b: seq<T>, key: T -> K)
    requires multiset(a) == multiset(b) && DistinctBy(a, key)
    ensures DistinctBy(b, key)
  {
    forall i, j | 0 <= i < j < |b| ensures key(b[i]) != key(b[j]) {
      var x, y := b[i], b[j];
      assert x in multiset(a) && y in multiset(a);
      if x == y {
        assert b == b[..j] + b[j..];
        assert x in b[..j] && y in b[j..];
        assert multiset(b)[x] == multiset(b[..j])[x] + multiset(b[j..])[x];
        DistinctByOnce(a, key, x);
      } else {
        var p :| 0 <= p < |a| && a[p] == x;
        var q :| 0 <= q < |a| && a[q] == y;
        assert p != q;
      }
    }
  }

  /** The position of the first row of `s` whose key is `k`. */
  function FirstIndex<T, K(==)>(s: seq<T>, key: T -> K, k: K): (i: nat)
    requires k in KeysOf(s, key)
    ensures i < |s| && key(s[i]) == k
    ensures forall j :: 0 <= j < i ==> key(s[j]) != k
    decreases |s|
  {
    if key(s[0]) == k then 0
    else
      KeysOfCons(s, key);
      var i := FirstIndex(s[1..], key, k);
      assert forall j :: 0 < j <= i + 1 ==> s[j] == s[1..][j - 1];
      i + 1
  }

  /** The first row of `s` whose key is `k`. */
  function FirstWith<T, K(==)>(s: seq<T>, key: T -> K, k: K): (x: T)
    requires k in KeysOf(s, key)
    ensures x in s && key(x) == k
  {
    s[FirstIndex(s, key, k)]
  }

  lemma KeysOfCons<T, K>(s: seq<T>, key: T -> K)
    requires s != []
    ensures KeysOf(s, key) == {key(s[0])} + KeysOf(s[1..], key)
  {
    forall j | 0 <= j < |s| ensures key(s[j]) in {key(s[0])} + KeysOf(s[1..], key) {
      if j > 0 { assert s[j] == s[1..][j - 1]; }
    }
    forall j | 0 <= j < |s| - 1 ensures key(s[1..][j]) in KeysOf(s, key) {
      assert s[1..][j] == s[j + 1];
    }
  }

  /** `drop_duplicates` with the default `keep='first'`, skipping keys already in `seen`. */
  function KeepFirstAfter<T(==), K(==)>(s: seq<T>, key: T -> K, seen: set<K>): (r: seq<T>)
    ensures IsSubsequence(r, s)
    ensures DistinctBy(r, key)
    ensures KeysOf(r, key) == KeysOf(s, key) - seen
    ensures forall i :: 0 <= i < |r| ==> key(r[i]) !in seen
    ensures forall i :: 0 <= i < |r| ==> key(r[i]) in KeysOf(s, key) && r[i] == FirstWith(s, key, key(r[i]))
    decreases |s|
  {
    if s == [] then []
    else
      KeysOfCons(s, key);
      var k := key(s[0]);
      if k in seen then
        var r := KeepFirstAfter(s[1..], key, seen);
        assert r != [] ==> r[0] != s[0];
        r
      else
        var t := KeepFirstAfter(s[1..], key, seen + {k});
        var r := [s[0]] + t;
        assert r[1..] == t;
        KeysOfCons(r, key);
        assert forall i :: 0 < i < |r| ==> r[i] == t[i - 1];
        r
  }

  /** The kept rows come in the order of the first occurrences of their keys. */
  lemma {:induction false} KeepFirstAfterOrder<T, K>(s: seq<T>, key: T -> K, seen: set<K>, r: seq<T>)
    requires r == KeepFirstAfter(s, key, seen)
    ensures forall i :: 0 <= i < |r| ==> key(r[i]) in KeysOf(s, key)
    ensures forall i, j :: 0 <= i < j < |r| ==> FirstIndex(s, key, key(r[i])) < FirstIndex(s, key, key(r[j]))
    decreases |s|
  {
    if s != [] {
      var k := key(s[0]);
      if k in seen {
        KeepFirstAfterOrder(s[1..], key, seen, r);
        ShiftedFirstIndices(s, key, r);
      } else {
        var t := KeepFirstAfter(s[1..], key, seen + {k});
        KeepFirstAfterOrder(s[1..], key, seen + {k}, t);
        ShiftedFirstIndices(s, key, t);
        assert r == [s[0]] + t;
        assert forall i :: 0 < i < |r| ==> r[i] == t[i - 1];
      }
    }
  }

  /** Rows kept from the tail whose keys differ from the head's keep their order, one position later. */
  lemma ShiftedFirstIndices<T, K>(s: seq<T>, key: T -> K, t: seq<T>)
    requires s != []
    requires forall i :: 0 <= i < |t| ==> key(t[i]) in KeysOf(s[1..], key) && key(t[i]) != key(s[0])
    ensures forall i :: 0 <= i < |t| ==> key(t[i]) in KeysOf(s, key)
    ensures forall i :: 0 <= i < |t| ==> FirstIndex(s, key, key(t[i])) == FirstIndex(s[1..], key, key(t[i])) + 1
  {
    KeysOfCons(s, key);
  }

  /** One row per key, the first one of each, in their original order. */
  function KeepFirst<T(==), K(==)>(s: seq<T>, key: T -> K): (r: seq<T>)
    ensures IsSubsequence(r, s)
    ensures DistinctBy(r, key)
    ensures KeysOf(r, key) == KeysOf(s, key)
    ensures forall i :: 0 <= i < |r| ==> key(r[i]) in KeysOf(s, key) && r[i] == FirstWith(s, key, key(r[i]))
    ensures forall i, j :: 0 <= i < j < |r| ==> FirstIndex(s, key, key(r[i])) < FirstIndex(s, key, key(r[j]))
  {
    KeepFirstAfterOrder(s, key, {}, KeepFirstAfter(s, key, {}));
    KeepFirstAfter(s, key, {})
  }

  /** The non-missing values of an optional column, in row order (what `dropna` leaves). */
  function Present<T, K(!new)>(s: seq<T>, f: T -> Option<K>): (r: seq<K>)
    ensures |r| <= |s|
    ensures forall k :: k in r <==> exists i :: 0 <= i < |s| && f(s[i]) == Some(k)
    decreases |s|
  {
    if s == [] then []
    else
      var rest := Present(s[1..], f);
      assert forall i :: 0 < i < |s| ==> s[i] == s[1..][i - 1];
      match f(s[0])
      case Some(k) => [k] + rest
      case None => rest
  }

  /** The positions of the rows of `s` whose value in the column is `k`. */
  ghost function Positions<T, K>(s: seq<T>, f: T -> Option<K>, k: K): set<int> {
    set i | 0 <= i < |s| && f(s[i]) == Some(k)
  }

  /** Each value occurs among the non-missing values once per row that holds it. */
  lemma PresentCount<T, K(!new)>(s: seq<T>, f: T -> Option<K>, k: K)
    ensures multiset(Present(s, f))[k] == |Positions(s, f, k)|
  {
    PresentCountFrom(s, f, k, 0);
    assert PositionsFrom(s, f, k, 0) == Positions(s, f, k);
  }

  /** The same positions, numbered from `off`. */
  ghost function PositionsFrom<T, K>(s: seq<T>, f: T -> Option<K>, k: K, off: int): set<int> {
    set i | 0 <= i < |s| && f(s[i]) == Some(k) :: i + off
  }

  lemma {:induction false} PresentCountFrom<T, K(!new)>(s: seq<T>, f: T -> Option<K>, k: K, off: int)
    ensures multiset(Present(s, f))[k] == |PositionsFrom(s, f, k, off)|
    decreases |s|
  {
    if s == [] {
      assert PositionsFrom(s, f, k, off) == {};
    } else {
      PresentCountFrom(s[1..], f, k, off + 1);
      var tail := PositionsFrom(s[1..], f, k, off + 1);
      var here: set<int> := if f(s[0]) == Some(k) then {off} else {};
      assert PositionsFrom(s, f, k, off) == here + tail by {
        forall p | p in PositionsFrom(s, f, k, off) ensures p in here + tail {
          var i :| 0 <= i < |s| && f(s[i]) == Some(k) && p == i + off;
          if i > 0 { assert s[i] == s[1..][i - 1]; }
        }
        forall p | p in tail ensures p in PositionsFrom(s, f, k, off) {
          var i :| 0 <= i < |s[1..]| && f(s[1..][i]) == Some(k) && p == i + off + 1;
          assert s[i + 1] == s[1..][i];
        }
      }
      assert here * tail == {};
      assert multiset(Present(s, f))[k] == |here| + multiset(Present(s[1..], f))[k];
    }
  }

  lemma SubsetSize<T>(a: set<T>, b: set<T>)
    requires a <= b
    ensures |a| <= |b|
  {
    assert b == a + (b - a);
    assert a * (b - a) == {};
  }
}
