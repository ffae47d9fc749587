/**
 * Count tables: what `groupby(...).count()`, `value_counts()`,
 * `sort_values(ascending=False)` and `idxmax()` produce, as a sequence of
 * (key, count) entries.
 */
module Counting {
  import opened Wrappers
  import opened Sequences
  import opened Sorting

  datatype Entry<K> = Entry(key: K, count: nat)

  function EntryKey<K>(e: Entry<K>): K {
    e.key
  }

  /** The sum of the count column. */
  function Total<K>(t: seq<Entry<K>>): nat
    decreases |t|
  {
    if t == [] then 0 else t[0].count + Total(t[1..])
  }

  /** Some entry of `t` has key `k`. */
  predicate HasKey<K(==)>(t: seq<Entry<K>>, k: K) {
    exists i :: 0 <= i < |t| && t[i].key == k
  }

  predicate NonIncreasing<K>(t: seq<Entry<K>>) {
    forall i, j :: 0 <= i < j < |t| ==> t[i].count >= t[j].count
  }

  predicate IsDistinct<K(==)>(s: seq<K>) {
    forall i, j :: 0 <= i < j < |s| ==> s[i] != s[j]
  }

  function Id<K>(k: K): K {
    k
  }

  /** The distinct values of `ks`, each once, in order of first occurrence. */
  function Distinct<K(==,!new)>(ks: seq<K>): (r: seq<K>)
    ensures IsDistinct(r)
    ensures forall k :: k in r <==> k in ks
  {
    var r := KeepFirst(ks, Id);
    assert forall i :: 0 <= i < |r| ==> r[i] in ks by {
      forall i | 0 <= i < |r| ensures r[i] in ks {
        assert Id(r[i]) in KeysOf(ks, Id);
      }
    }
    assert forall k :: k in ks ==> k in r by {
      forall k | k in ks ensures k in r {
        var i :| 0 <= i < |ks| && ks[i] == k;
        assert Id(ks[i]) in KeysOf(r, Id);
      }
    }
    r
  }

  /** One entry per group key: the key and how often it occurs among `items`. */
  function Tally<K(==)>(groups: seq<K>, items: seq<K>): seq<Entry<K>> {
    seq(|groups|, i requires 0 <= i < |groups| => Entry(groups[i], multiset(items)[groups[i]]))
  }

  lemma {:induction false} TallyAppend<K>(groups: seq<K>, items: seq<K>, y: K)
    requires IsDistinct(groups)
    ensures Total(Tally(groups, items + [y])) == Total(Tally(groups, items)) + if y in groups then 1 else 0
    decreases |groups|
  {
    if groups != [] {
      var g := groups[0];
      assert Tally(groups, items + [y])[1..] == Tally(groups[1..], items + [y]);
      assert Tally(groups, items)[1..] == Tally(groups[1..], items);
      assert multiset(items + [y]) == multiset(items) + multiset{y};
      TallyAppend(groups[1..], items, y);
      assert y in groups <==> y == g || y in groups[1..];
      if y == g {
        assert y !in groups[1..] by {
          forall j | 0 <= j < |groups[1..]| ensures groups[1..][j] != y {
            assert groups[1..][j] == groups[j + 1];
          }
        }
      }
    }
  }

  /** The counts of a tally over distinct groups that cover every item add up to the number of items. */
  lemma {:induction false} TallyTotal<K>(groups: seq<K>, items: seq<K>)
    requires IsDistinct(groups)
    requires forall x :: x in items ==> x in groups
    ensures Total(Tally(groups, items)) == |items|
    decreases |items|
  {
    if items == [] {
      TallyOfNothing(groups);
    } else {
      var init := items[..|items| - 1];
      assert items == init + [items[|items| - 1]];
      TallyTotal(groups, init);
      TallyAppend(groups, init, items[|items| - 1]);
    }
  }

  lemma {:induction false} TallyOfNothing<K>(groups: seq<K>)
    ensures Total(Tally(groups, [])) == 0
    decreases |groups|
  {
    if groups != [] {
      assert Tally(groups, [])[1..] == Tally(groups[1..], []);
      TallyOfNothing(groups[1..]);
    }
  }

  predicate AtLeast<K>(a: Entry<K>, b: Entry<K>) {
    a.count >= b.count
  }

  lemma {:induction false} InsertTotal<K>(e: Entry<K>, s: seq<Entry<K>>)
    ensures Total(Insert(e, s, AtLeast)) == e.count + Total(s)
    decreases |s|
  {
    if s != [] && !AtLeast(e, s[0]) {
      InsertTotal(e, s[1..]);
      assert ([s[0]] + Insert(e, s[1..], AtLeast))[1..] == Insert(e, s[1..], AtLeast);
    }
  }

  lemma {:induction false} SortTotal<K>(s: seq<Entry<K>>)
    ensures Total(SortBy(s, AtLeast)) == Total(s)
    decreases |s|
  {
    if s != [] {
      SortTotal(s[1..]);
      InsertTotal(s[0], SortBy(s[1..], AtLeast));
    }
  }

  /** `sort_values(ascending=False)` on the count column; the order among equal counts is unspecified. */
  function SortByCount<K(==,!new)>(t: seq<Entry<K>>): (r: seq<Entry<K>>)
    ensures multiset(r) == multiset(t)
    ensures forall e :: e in r <==> e in t
    ensures NonIncreasing(r)
    ensures Total(r) == Total(t)
    ensures DistinctBy(t, EntryKey) ==> DistinctBy(r, EntryKey)
  {
    var r := SortBy(t, AtLeast);
    SortBySorted(t, AtLeast);
    SortTotal(t);
    assert forall e :: e in r <==> e in multiset(r);
    assert DistinctBy(t, EntryKey) ==> DistinctBy(r, EntryKey) by {
      if DistinctBy(t, EntryKey) {
        PermutationDistinctBy(t, r, EntryKey);
      }
    }
    r
  }

  /** The position of the first maximal count. */
  function ArgMax<K>(t: seq<Entry<K>>): (i: nat)
    requires |t| > 0
    ensures i < |t|
    ensures forall j :: 0 <= j < |t| ==> t[j].count <= t[i].count
    ensures forall j :: 0 <= j < i ==> t[j].count < t[i].count
    decreases |t|
  {
    if |t| == 1 then 0
    else
      var k := ArgMax(t[1..]) + 1;
      assert forall j :: 0 < j < |t| ==> t[j] == t[1..][j - 1];
      if t[0].count >= t[k].count then 0 else k
  }

  /** `idxmax()`: the key of the first maximal entry. pandas raises on an empty table; that is `None` here. */
  function IdxMax<K>(t: seq<Entry<K>>): (r: Option<K>)
    ensures r.None? <==> t == []
    ensures r.Some? ==> exists i :: 0 <= i < |t| && t[i].key == r.value
                          && (forall j :: 0 <= j < |t| ==> t[j].count <= t[i].count)
                          && (forall j :: 0 <= j < i ==> t[j].count < t[i].count)
  {
    if t == [] then None else Some(t[ArgMax(t)].key)
  }

  /** On a table sorted by descending count the first maximum is the first entry. */
  lemma IdxMaxOfSorted<K>(t: seq<Entry<K>>)
    requires NonIncreasing(t) && t != []
    ensures IdxMax(t) == Some(t[0].key)
  {
  }

  /** The facts a tally over distinct group keys that cover every item carries before it is sorted. */
  lemma TallyFacts<K(!new)>(groups: seq<K>, items: seq<K>, t: seq<Entry<K>>)
    requires IsDistinct(groups) && forall x :: x in items ==> x in groups
    requires t == Tally(groups, items)
    ensures DistinctBy(t, EntryKey)
    ensures forall k :: k in groups <==> HasKey(t, k)
    ensures forall i :: 0 <= i < |t| ==> t[i].count == multiset(items)[t[i].key]
    ensures Total(t) == |items|
  {
    TallyTotal(groups, items);
    assert forall k :: k in groups ==> HasKey(t, k) by {
      forall k | k in groups ensures HasKey(t, k) {
        var i :| 0 <= i < |groups| && groups[i] == k;
        assert t[i].key == k;
      }
    }
  }

  /** Two tables with the same entries have the same keys and the same counts per key. */
  lemma SameEntries<K(!new)>(t: seq<Entry<K>>, r: seq<Entry<K>>, m: multiset<K>)
    requires forall e :: e in r <==> e in t
    requires forall i :: 0 <= i < |t| ==> t[i].count == m[t[i].key]
    ensures forall k :: HasKey(t, k) <==> HasKey(r, k)
    ensures forall i :: 0 <= i < |r| ==> r[i].count == m[r[i].key]
  {
    forall k | HasKey(t, k) ensures HasKey(r, k) {
      var i :| 0 <= i < |t| && t[i].key == k;
      assert t[i] in r;
    }
    forall k | HasKey(r, k) ensures HasKey(t, k) {
      var i :| 0 <= i < |r| && r[i].key == k;
      assert r[i] in t;
    }
    forall i | 0 <= i < |r| ensures r[i].count == m[r[i].key] {
      assert r[i] in t;
    }
  }

  /** `series.value_counts().sort_values(ascending=False)` over the non-missing values `ks`. */
  function ValueCounts<K(==,!new)>(ks: seq<K>): (r: seq<Entry<K>>)
    ensures DistinctBy(r, EntryKey)
    ensures forall k :: k in ks <==> HasKey(r, k)
    ensures forall i :: 0 <= i < |r| ==> r[i].count == multiset(ks)[r[i].key]
    ensures NonIncreasing(r)
    ensures Total(r) == |ks|
    ensures r == [] <==> ks == []
  {
    var t := Tally(Distinct(ks), ks);
    TallyFacts(Distinct(ks), ks, t);
    var r := SortByCount(SortByCount(t));
    SameEntries(t, r, multiset(ks));
    assert |ks| > 0 ==> HasKey(r, ks[0]);
    r
  }

  /** The `idxmax()` of a value-count table is its first entry and the most frequent value. */
  lemma ModeOfValueCounts<K(!new)>(ks: seq<K>)
    requires ks != []
    ensures ValueCounts(ks) != [] && IdxMax(ValueCounts(ks)) == Some(ValueCounts(ks)[0].key)
    ensures ValueCounts(ks)[0].key in ks
    ensures forall k :: multiset(ks)[k] <= multiset(ks)[ValueCounts(ks)[0].key]
  {
    var r := ValueCounts(ks);
    IdxMaxOfSorted(r);
    assert HasKey(r, r[0].key);
    forall k ensures multiset(ks)[k] <= multiset(ks)[r[0].key] {
      if k in ks {
        var i :| 0 <= i < |r| && r[i].key == k;
      }
    }
  }
}
