/**
 * `commoner/types`: the `Dict` helpers, over a dictionary given as its
 * items in insertion order, and the `Text` helpers over strings.
 */
module Types {
  import opened PyStr

  // ---------------------------------------------------------------------------
  // A Python dict as its items
  // ---------------------------------------------------------------------------

  function Keys<K, V>(items: seq<(K, V)>): (r: seq<K>)
    ensures |r| == |items|
    ensures forall i :: 0 <= i < |items| ==> r[i] == items[i].0
  {
    seq(|items|, i requires 0 <= i < |items| => items[i].0)
  }

  function Values<K, V>(items: seq<(K, V)>): (r: seq<V>)
    ensures |r| == |items|
    ensures forall i :: 0 <= i < |items| ==> r[i] == items[i].1
  {
    seq(|items|, i requires 0 <= i < |items| => items[i].1)
  }

  /** No key occurs twice: the items of every dict. */
  predicate DistinctKeys<K(==), V>(items: seq<(K, V)>) {
    forall i, j :: 0 <= i < j < |items| ==> items[i].0 != items[j].0
  }

  /** The position of key `k`: the first pair holding it. */
  function KeyIndex<K(==), V>(items: seq<(K, V)>, k: K): (r: Option<nat>)
    ensures r.Some? ==> r.value < |items| && items[r.value].0 == k
    ensures r.Some? ==> forall j :: 0 <= j < r.value ==> items[j].0 != k
    ensures r.None? <==> forall j :: 0 <= j < |items| ==> items[j].0 != k
  {
    if items == [] then None
    else if items[0].0 == k then Some(0)
    else match KeyIndex(items[1..], k)
      case Some(i) => Some(i + 1)
      case None => None
  }

  /** `d.get(k)`. */
  function Get<K(==), V>(items: seq<(K, V)>, k: K): Option<V> {
    match KeyIndex(items, k)
    case Some(i) => Some(items[i].1)
    case None => None
  }

  /** `d[k] = v`: a present key keeps its place and takes the new value, a new key goes last. */
  function Put<K(==), V>(items: seq<(K, V)>, k: K, v: V): seq<(K, V)> {
    match KeyIndex(items, k)
    case Some(i) => items[i := (k, v)]
    case None => items + [(k, v)]
  }

  /** `Put` changes the value of its key and nothing else; it adds the key at the end when new. */
  lemma PutSpec<K, V>(items: seq<(K, V)>, k: K, v: V)
    ensures DistinctKeys(items) ==> DistinctKeys(Put(items, k, v))
    ensures Keys(Put(items, k, v)) == Keys(items) + (if k in Keys(items) then [] else [k])
    ensures forall k' :: Get(Put(items, k, v), k') == if k' == k then Some(v) else Get(items, k')
  {
    var r := Put(items, k, v);
    match KeyIndex(items, k)
    case Some(i) =>
      assert Keys(r) == Keys(items);
      forall k' ensures Get(r, k') == if k' == k then Some(v) else Get(items, k') {
        SameKeysSameIndex(r, items, k');
      }
    case None =>
      assert k !in Keys(items);
      assert Keys(r) == Keys(items) + [k];
      assert forall j :: 0 <= j < |items| ==> r[j] == items[j];
      assert r[|items|] == (k, v);
      forall k' ensures Get(r, k') == if k' == k then Some(v) else Get(items, k') {
        if k' != k {
          AppendIndex(items, (k, v), k');
        }
      }
  }

  /** Where the keys agree, so do the positions. */
  lemma {:induction false} SameKeysSameIndex<K, V>(a: seq<(K, V)>, b: seq<(K, V)>, k: K)
    requires Keys(a) == Keys(b)
    ensures KeyIndex(a, k) == KeyIndex(b, k)
  {
    assert |a| == |b|;
    if a != [] {
      assert a[0].0 == Keys(a)[0] == b[0].0;
      assert Keys(a[1..]) == Keys(a)[1..] == Keys(b)[1..] == Keys(b[1..]);
      SameKeysSameIndex(a[1..], b[1..], k);
    }
  }

  /** A pair with another key added at the end leaves the position of `k` alone. */
  lemma AppendIndex<K, V>(items: seq<(K, V)>, p: (K, V), k: K)
    requires p.0 != k
    ensures KeyIndex(items + [p], k) == KeyIndex(items, k)
  {
    var s := items + [p];
    assert forall j :: 0 <= j < |items| ==> s[j] == items[j];
  }

  /** `{k: v for k, v in items}` and `dict(items)`: the pairs put one after another. */
  function FromItems<K(==), V>(items: seq<(K, V)>): (r: seq<(K, V)>)
    ensures DistinctKeys(r)
  {
    if items == [] then []
    else
      var last := items[|items| - 1];
      PutSpec(FromItems(items[..|items| - 1]), last.0, last.1);
      Put(FromItems(items[..|items| - 1]), last.0, last.1)
  }

  /** The value of the last pair holding `k`: what a later pair overwrites wins. */
  function LastValue<K(==), V>(items: seq<(K, V)>, k: K): (r: Option<V>)
    ensures r.None? <==> k !in Keys(items)
  {
    if items == [] then None
    else if items[|items| - 1].0 == k then Some(items[|items| - 1].1)
    else
      assert Keys(items) == Keys(items[..|items| - 1]) + [items[|items| - 1].0];
      LastValue(items[..|items| - 1], k)
  }

  /** `LastValue` names the last pair with the key. */
  lemma {:induction false} LastValueAt<K, V>(items: seq<(K, V)>, i: nat)
    requires i < |items|
    requires forall j :: i < j < |items| ==> items[j].0 != items[i].0
    ensures LastValue(items, items[i].0) == Some(items[i].1)
  {
    if i < |items| - 1 {
      var front := items[..|items| - 1];
      assert front[i] == items[i];
      LastValueAt(front, i);
    }
  }

  /** The first occurrence of each element, in order. */
  function Dedup<T(==)>(s: seq<T>): (r: seq<T>)
    ensures forall i :: 0 <= i < |s| ==> s[i] in r
    ensures forall i :: 0 <= i < |r| ==> r[i] in s
    ensures forall i, j :: 0 <= i < j < |r| ==> r[i] != r[j]
  {
    if s == [] then []
    else
      var front, last := s[..|s| - 1], s[|s| - 1];
      assert s == front + [last];
      Dedup(front) + (if last in front then [] else [last])
  }

  /** A dict built from pairs holds, for each key, the last value given, and keeps the keys in first-seen order. */
  lemma {:induction false} FromItemsSpec<K, V>(items: seq<(K, V)>)
    ensures Keys(FromItems(items)) == Dedup(Keys(items))
    ensures forall k :: Get(FromItems(items), k) == LastValue(items, k)
  {
    if items != [] {
      var front, last := items[..|items| - 1], items[|items| - 1];
      FromItemsSpec(front);
      PutSpec(FromItems(front), last.0, last.1);
      assert Keys(items)[..|items| - 1] == Keys(front);
      assert last.0 in Keys(FromItems(front)) <==> last.0 in Keys(front);
    }
  }

  /** Built from the items of a dict, a dict is that dict again. */
  lemma {:induction false} FromItemsOfDict<K, V>(items: seq<(K, V)>)
    requires DistinctKeys(items)
    ensures FromItems(items) == items
  {
    if items != [] {
      var front, last := items[..|items| - 1], items[|items| - 1];
      assert DistinctKeys(front);
      FromItemsOfDict(front);
      assert KeyIndex(front, last.0).None?;
      assert front + [last] == items;
    }
  }

  // ---------------------------------------------------------------------------
  // Dict.swap_kv and Dict.reverse
  // ---------------------------------------------------------------------------

  /** Each pair turned round. */
  function Swapped<K, V>(items: seq<(K, V)>): (r: seq<(V, K)>)
    ensures |r| == |items|
    ensures forall i :: 0 <= i < |items| ==> r[i] == (items[i].1, items[i].0)
  {
    seq(|items|, i requires 0 <= i < |items| => (items[i].1, items[i].0))
  }

  /** Turning the pairs round twice gives them back; the keys become the values and the values the keys. */
  lemma SwappedTwice<K, V>(items: seq<(K, V)>)
    ensures Swapped(Swapped(items)) == items
    ensures Keys(Swapped(items)) == Values(items)
    ensures Values(Swapped(items)) == Keys(items)
  {
  }

  /** `Dict.swap_kv(d)`: `{v: k for k, v in d.items()}`. */
  function SwapKv<K, V(==)>(items: seq<(K, V)>): seq<(V, K)> {
    FromItems(Swapped(items))
  }

  /**
   * Every value becomes a key, in the order values are first seen, and maps
   * to the last key that held it.
   */
  lemma SwapKvSpec<K, V>(items: seq<(K, V)>)
    ensures Keys(SwapKv(items)) == Dedup(Values(items))
    ensures forall v :: Get(SwapKv(items), v).Some? <==> v in Values(items)
    ensures forall i :: 0 <= i < |items| && (forall j :: i < j < |items| ==> items[j].1 != items[i].1) ==>
      Get(SwapKv(items), items[i].1) == Some(items[i].0)
  {
    var s := Swapped(items);
    FromItemsSpec(s);
    assert Keys(s) == Values(items);
    forall i | 0 <= i < |items| && (forall j :: i < j < |items| ==> items[j].1 != items[i].1)
      ensures Get(SwapKv(items), items[i].1) == Some(items[i].0)
    {
      LastValueAt(s, i);
    }
  }

  /** Swapping a dict whose values are distinct twice gives it back. */
  lemma SwapKvTwice<K, V>(items: seq<(K, V)>)
    requires DistinctKeys(items) && DistinctKeys(Swapped(items))
    ensures SwapKv(SwapKv(items)) == items
  {
    FromItemsOfDict(Swapped(items));
    var back := Swapped(Swapped(items));
    assert back == items;
    FromItemsOfDict(items);
  }

  /** `Dict.reverse(d)`: `dict(reversed(list(d.items())))`. */
  function DictReverse<K(==), V>(items: seq<(K, V)>): seq<(K, V)> {
    FromItems(Reverse(items))
  }

  lemma ReverseKeepsDistinctKeys<K, V>(items: seq<(K, V)>)
    requires DistinctKeys(items)
    ensures DistinctKeys(Reverse(items))
  {
    var r := Reverse(items);
    forall i, j | 0 <= i < j < |r| ensures r[i].0 != r[j].0 {
      assert r[i] == items[|items| - 1 - i] && r[j] == items[|items| - 1 - j];
    }
  }

  /** The same pairs in the opposite order; reversing twice gives the dict back. */
  lemma DictReverseSpec<K, V>(items: seq<(K, V)>)
    requires DistinctKeys(items)
    ensures DictReverse(items) == Reverse(items)
    ensures DictReverse(DictReverse(items)) == items
  {
    ReverseKeepsDistinctKeys(items);
    FromItemsOfDict(Reverse(items));
    ReverseReverse(items);
    FromItemsOfDict(items);
  }
  // ---------------------------------------------------------------------------
  // sorted(items, key=..., reverse=...)
  // ---------------------------------------------------------------------------

  /** `le` orders every pair of elements and is transitive. */
  ghost predicate TotalPreorder<T(!new)>(le: (T, T) -> bool) {
    (forall a, b :: le(a, b) || le(b, a))
    && (forall a, b, c :: le(a, b) && le(b, c) ==> le(a, c))
  }

  ghost predicate Sorted<T>(s: seq<T>, le: (T, T) -> bool) {
    forall i, j :: 0 <= i < j < |s| ==> le(s[i], s[j])
  }

  /** `x` goes behind every element not above it, so it lands after the elements it ties with. */
  function Insert<T>(s: seq<T>, x: T, le: (T, T) -> bool): (r: seq<T>)
    ensures |r| == |s| + 1
  {
    if s == [] || le(s[|s| - 1], x) then s + [x]
    else Insert(s[..|s| - 1], x, le) + [s[|s| - 1]]
  }

  /** `sorted(xs)` under the order `le`: a stable sort, here insertion of each element in turn. */
  function SortBy<T>(xs: seq<T>, le: (T, T) -> bool): (r: seq<T>)
    ensures |r| == |xs|
  {
    if xs == [] then [] else Insert(SortBy(xs[..|xs| - 1], le), xs[|xs| - 1], le)
  }

  lemma {:induction false} InsertMultiset<T>(s: seq<T>, x: T, le: (T, T) -> bool)
    ensures multiset(Insert(s, x, le)) == multiset(s) + multiset{x}
  {
    if !(s == [] || le(s[|s| - 1], x)) {
      InsertMultiset(s[..|s| - 1], x, le);
      assert s == s[..|s| - 1] + [s[|s| - 1]];
    }
  }

  /** Sorting rearranges the elements and loses or adds none. */
  lemma {:induction false} SortByMultiset<T>(xs: seq<T>, le: (T, T) -> bool)
    ensures multiset(SortBy(xs, le)) == multiset(xs)
  {
    if xs != [] {
      SortByMultiset(xs[..|xs| - 1], le);
      InsertMultiset(SortBy(xs[..|xs| - 1], le), xs[|xs| - 1], le);
      assert xs == xs[..|xs| - 1] + [xs[|xs| - 1]];
    }
  }

  lemma {:induction false} InsertSorted<T(!new)>(s: seq<T>, x: T, le: (T, T) -> bool)
    requires TotalPreorder(le) && Sorted(s, le)
    ensures Sorted(Insert(s, x, le), le)
  {
    if s == [] || le(s[|s| - 1], x) {
      var r := s + [x];
      forall i, j | 0 <= i < j < |r| ensures le(r[i], r[j]) {
        if j == |s| && i < |s| - 1 {
          assert le(s[i], s[|s| - 1]);
        }
      }
    } else {
      var front, last := s[..|s| - 1], s[|s| - 1];
      assert Sorted(front, le);
      InsertSorted(front, x, le);
      InsertMultiset(front, x, le);
      var ins := Insert(front, x, le);
      var r := ins + [last];
      forall i | 0 <= i < |ins| ensures le(ins[i], last) {
        assert ins[i] in multiset(ins);
        if ins[i] != x {
          assert ins[i] in multiset(front);
          var k :| 0 <= k < |front| && front[k] == ins[i];
          assert s[k] == front[k];
        }
      }
      forall i, j | 0 <= i < j < |r| ensures le(r[i], r[j]) {
        if j < |ins| {
          assert r[i] == ins[i] && r[j] == ins[j];
        }
      }
    }
  }

  /** The sorted result is in order. */
  lemma {:induction false} SortBySorted<T(!new)>(xs: seq<T>, le: (T, T) -> bool)
    requires TotalPreorder(le)
    ensures Sorted(SortBy(xs, le), le)
  {
    if xs != [] {
      SortBySorted(xs[..|xs| - 1], le);
      InsertSorted(SortBy(xs[..|xs| - 1], le), xs[|xs| - 1], le);
    }
  }

  /** `a` and `b` compare equal: neither sorts before the other. */
  ghost predicate Ties<T>(le: (T, T) -> bool, a: T, b: T) {
    le(a, b) && le(b, a)
  }

  /** The elements of `s` that tie with `e`, in their order in `s`. */
  ghost function TiesWith<T>(s: seq<T>, le: (T, T) -> bool, e: T): seq<T> {
    if s == [] then []
    else TiesWith(s[..|s| - 1], le, e) + (if Ties(le, s[|s| - 1], e) then [s[|s| - 1]] else [])
  }

  lemma TiesWithSnoc<T>(s: seq<T>, x: T, le: (T, T) -> bool, e: T)
    ensures TiesWith(s + [x], le, e) == TiesWith(s, le, e) + (if Ties(le, x, e) then [x] else [])
  {
    assert (s + [x])[..|s|] == s;
  }

  lemma {:induction false} InsertTies<T(!new)>(s: seq<T>, x: T, le: (T, T) -> bool, e: T)
    requires TotalPreorder(le)
    ensures TiesWith(Insert(s, x, le), le, e) == TiesWith(s, le, e) + (if Ties(le, x, e) then [x] else [])
  {
    if s == [] || le(s[|s| - 1], x) {
      TiesWithSnoc(s, x, le, e);
    } else {
      var front, last := s[..|s| - 1], s[|s| - 1];
      InsertTies(front, x, le, e);
      TiesWithSnoc(Insert(front, x, le), last, le, e);
      assert !(Ties(le, x, e) && Ties(le, last, e));
    }
  }

  /** Sorting is stable: elements that tie keep their original order. */
  lemma {:induction false} SortByStable<T(!new)>(xs: seq<T>, le: (T, T) -> bool, e: T)
    requires TotalPreorder(le)
    ensures TiesWith(SortBy(xs, le), le, e) == TiesWith(xs, le, e)
  {
    if xs != [] {
      var front, last := xs[..|xs| - 1], xs[|xs| - 1];
      SortByStable(front, le, e);
      InsertTies(SortBy(front, le), last, le, e);
      TiesWithSnoc(front, last, le, e);
      assert front + [last] == xs;
    }
  }

  /** A permutation of the items of a dict has distinct keys too. */
  lemma PermutationKeepsDistinctKeys<K, V>(a: seq<(K, V)>, b: seq<(K, V)>)
    requires DistinctKeys(a) && multiset(a) == multiset(b)
    ensures DistinctKeys(b)
  {
    forall i, j | 0 <= i < j < |b| ensures b[i].0 != b[j].0 {
      if b[i].0 == b[j].0 {
        assert b[i] in multiset(a) && b[j] in multiset(a);
        var p :| 0 <= p < |a| && a[p] == b[i];
        var q :| 0 <= q < |a| && a[q] == b[j];
        assert p == q;
        Twice(b, i, j);
        Once(a, p);
        assert false;
      }
    }
  }

  /** An element at two positions counts at least twice. */
  lemma Twice<T>(s: seq<T>, i: nat, j: nat)
    requires i < j < |s| && s[i] == s[j]
    ensures multiset(s)[s[i]] >= 2
  {
    assert s == s[..i] + [s[i]] + s[i + 1..j] + [s[j]] + s[j + 1..];
  }

  /** In the items of a dict, each pair occurs once. */
  lemma Once<K, V>(a: seq<(K, V)>, p: nat)
    requires DistinctKeys(a) && p < |a|
    ensures multiset(a)[a[p]] == 1
  {
    assert a == a[..p] + [a[p]] + a[p + 1..];
    assert a[p] !in a[..p] by {
      forall k | 0 <= k < p ensures a[..p][k] != a[p] {
        assert a[..p][k] == a[k];
      }
    }
    assert a[p] !in a[p + 1..] by {
      forall k | p < k < |a| ensures a[k] != a[p] {
        assert a[k].0 != a[p].0;
      }
    }
  }
  // ---------------------------------------------------------------------------
  // Dict.sort_values and Dict.sort_keys
  // ---------------------------------------------------------------------------

  /** `key=lambda item: item[1]`, each comparison turned round by `reverse=True`. */
  function ByValue<K>(reverse: bool): ((K, int), (K, int)) -> bool {
    if reverse then (a: (K, int), b: (K, int)) => b.1 <= a.1
    else (a: (K, int), b: (K, int)) => a.1 <= b.1
  }

  /** `key=lambda item: item[0]` on str keys, each comparison turned round by `reverse=True`. */
  function ByKey<V>(reverse: bool): ((string, V), (string, V)) -> bool {
    if reverse then (a: (string, V), b: (string, V)) => StrLe(b.0, a.0)
    else (a: (string, V), b: (string, V)) => StrLe(a.0, b.0)
  }

  lemma ByValueOrders<K(!new)>(reverse: bool)
    ensures TotalPreorder(ByValue<K>(reverse))
  {
  }

  lemma ByKeyOrders<V(!new)>(reverse: bool)
    ensures TotalPreorder(ByKey<V>(reverse))
  {
    var le := ByKey<V>(reverse);
    forall a: (string, V), b: (string, V) ensures le(a, b) || le(b, a) {
      StrLeTotal(a.0, b.0);
    }
    forall a: (string, V), b: (string, V), c: (string, V) | le(a, b) && le(b, c) ensures le(a, c) {
      if reverse {
        StrLeTrans(c.0, b.0, a.0);
      } else {
        StrLeTrans(a.0, b.0, c.0);
      }
    }
  }

  /** `Dict.sort_values(d, reverse)`. */
  function SortValues<K(==)>(items: seq<(K, int)>, reverse: bool): seq<(K, int)> {
    FromItems(SortBy(items, ByValue(reverse)))
  }

  /** `Dict.sort_keys(d, reverse)`. */
  function SortKeys<V>(items: seq<(string, V)>, reverse: bool): seq<(string, V)> {
    FromItems(SortBy(items, ByKey(reverse)))
  }

  /** The pairs of `s` holding value `v`, in order. */
  function WithValue<K>(s: seq<(K, int)>, v: int): seq<(K, int)> {
    if s == [] then []
    else WithValue(s[..|s| - 1], v) + (if s[|s| - 1].1 == v then [s[|s| - 1]] else [])
  }

  /** Under `ByValue`, tying with `e` is holding the value of `e`. */
  lemma {:induction false} TiesByValue<K>(s: seq<(K, int)>, reverse: bool, e: (K, int))
    ensures TiesWith(s, ByValue(reverse), e) == WithValue(s, e.1)
  {
    if s != [] {
      TiesByValue(s[..|s| - 1], reverse, e);
    }
  }

  /**
   * `sort_values` keeps the pairs, orders them by value (descending with
   * `reverse`), and leaves pairs with equal values in their original order.
   */
  lemma SortValuesSpec<K(!new)>(items: seq<(K, int)>, reverse: bool)
    requires DistinctKeys(items)
    ensures multiset(SortValues(items, reverse)) == multiset(items)
    ensures DistinctKeys(SortValues(items, reverse))
    ensures var r := SortValues(items, reverse);
      forall i, j :: 0 <= i < j < |r| ==> if reverse then r[i].1 >= r[j].1 else r[i].1 <= r[j].1
    ensures forall v :: WithValue(SortValues(items, reverse), v) == WithValue(items, v)
  {
    var le := ByValue<K>(reverse);
    var sorted := SortBy(items, le);
    ByValueOrders<K>(reverse);
    SortByMultiset(items, le);
    SortBySorted(items, le);
    PermutationKeepsDistinctKeys(items, sorted);
    FromItemsOfDict(sorted);
    forall v ensures WithValue(sorted, v) == WithValue(items, v) {
      if items != [] {
        var e := (items[0].0, v);
        SortByStable(items, le, e);
        TiesByValue(sorted, reverse, e);
        TiesByValue(items, reverse, e);
      }
    }
  }

  /** `sort_keys` keeps the pairs and orders them by key, strictly (descending with `reverse`). */
  lemma SortKeysSpec<V(!new)>(items: seq<(string, V)>, reverse: bool)
    requires DistinctKeys(items)
    ensures multiset(SortKeys(items, reverse)) == multiset(items)
    ensures DistinctKeys(SortKeys(items, reverse))
    ensures var r := SortKeys(items, reverse);
      forall i, j :: 0 <= i < j < |r| ==> if reverse then StrLe(r[j].0, r[i].0) else StrLe(r[i].0, r[j].0)
  {
    var le := ByKey<V>(reverse);
    var sorted := SortBy(items, le);
    ByKeyOrders<V>(reverse);
    SortByMultiset(items, le);
    SortBySorted(items, le);
    PermutationKeepsDistinctKeys(items, sorted);
    FromItemsOfDict(sorted);
  }
  /** The docstring's example, ascending. */
  lemma SortValuesExample()
    ensures SortValues([("a", 3), ("b", 2), ("c", 4)], false) == [("b", 2), ("a", 3), ("c", 4)]
  {
    var d: seq<(string, int)> := [("a", 3), ("b", 2), ("c", 4)];
    var le := ByValue<string>(false);
    assert d[..2] == [("a", 3), ("b", 2)] && d[..2][..1] == [("a", 3)] && d[..2][..1][..0] == [];
    assert SortBy(d[..1], le) == [("a", 3)];
    assert Insert([("a", 3)], ("b", 2), le) == [("b", 2), ("a", 3)];
    assert SortBy(d[..2], le) == [("b", 2), ("a", 3)];
    var up: seq<(string, int)> := [("b", 2), ("a", 3), ("c", 4)];
    assert SortBy(d, le) == up;
    FromItemsOfDict(up);
  }

  /** The docstring's example, descending. */
  lemma SortValuesReverseExample()
    ensures SortValues([("a", 3), ("b", 2), ("c", 4)], true) == [("c", 4), ("a", 3), ("b", 2)]
  {
    var d: seq<(string, int)> := [("a", 3), ("b", 2), ("c", 4)];
    var le := ByValue<string>(true);
    assert d[..2] == [("a", 3), ("b", 2)] && d[..2][..1] == [("a", 3)] && d[..2][..1][..0] == [];
    assert SortBy(d[..1], le) == [("a", 3)];
    assert SortBy(d[..2], le) == [("a", 3), ("b", 2)];
    var s: seq<(string, int)> := [("a", 3), ("b", 2)];
    assert s[..1] == [("a", 3)] && s[..1][..0] == [];
    assert Insert(s[..1][..0], ("c", 4), le) == [("c", 4)];
    assert Insert(s[..1], ("c", 4), le) == [("c", 4), ("a", 3)];
    var down: seq<(string, int)> := [("c", 4), ("a", 3), ("b", 2)];
    assert SortBy(d, le) == down;
    FromItemsOfDict(down);
  }

  // ---------------------------------------------------------------------------
  // Text.replace
  // ---------------------------------------------------------------------------

  /**
   * `for char in pattern: text = text.replace(char, new)`: the elements applied
   * in order; TypeError at an element that is not a str.
   */
  function ReplaceEach(text: string, patterns: seq<Value>, rep: string): Result<string> {
    if patterns == [] then Ok(text)
    else
      match ReplaceEach(text, patterns[..|patterns| - 1], rep)
      case Err(e) => Err(e)
      case Ok(t) =>
        var pattern := patterns[|patterns| - 1];
        if pattern.Str? then Ok(Replace(t, pattern.s, rep)) else Err(TypeError)
  }

  /** `Text(text).replace(old, new)`: a list of patterns one after another, or one str; TypeError for anything else. */
  function TextReplace(text: string, pattern: Value, rep: string): Result<string> {
    match pattern
    case List(patterns) => ReplaceEach(text, patterns, rep)
    case Str(p) => Ok(Replace(text, p, rep))
    case _ => Err(TypeError)
  }

  /** `Text.replace`, with the loop over a list pattern. */
  method TextReplaceText(text: string, pattern: Value, rep: string) returns (r: Result<string>)
    ensures r == TextReplace(text, pattern, rep)
  {
    if pattern.List? {
      var patterns := pattern.items;
      var t := text;
      for i := 0 to |patterns|
        invariant ReplaceEach(text, patterns[..i], rep) == Ok(t)
      {
        assert patterns[..i + 1][..i] == patterns[..i];
        if !patterns[i].Str? {
          ReplaceEachStops(text, patterns, rep, i + 1);
          return Err(TypeError);
        }
        t := Replace(t, patterns[i].s, rep);
      }
      assert patterns[..|patterns|] == patterns;
      return Ok(t);
    }
    if pattern.Str? {
      return Ok(Replace(text, pattern.s, rep));
    }
    return Err(TypeError);
  }

  /** Once an element fails, the whole list fails. */
  lemma {:induction false} ReplaceEachStops(text: string, patterns: seq<Value>, rep: string, n: nat)
    requires n <= |patterns| && ReplaceEach(text, patterns[..n], rep).Err?
    ensures ReplaceEach(text, patterns, rep) == ReplaceEach(text, patterns[..n], rep)
    decreases |patterns| - n
  {
    if n < |patterns| {
      assert patterns[..n + 1][..n] == patterns[..n];
      ReplaceEachStops(text, patterns, rep, n + 1);
    } else {
      assert patterns[..n] == patterns;
    }
  }

  /** A list of patterns applies its first part, then its second part to the result. */
  lemma {:induction false} ReplaceEachConcat(text: string, a: seq<Value>, b: seq<Value>, rep: string)
    ensures ReplaceEach(text, a + b, rep) ==
      match ReplaceEach(text, a, rep)
      case Ok(t) => ReplaceEach(t, b, rep)
      case Err(e) => Err(e)
  {
    if b == [] {
      assert a + b == a;
    } else {
      assert (a + b)[..|a + b| - 1] == a + b[..|b| - 1];
      ReplaceEachConcat(text, a, b[..|b| - 1], rep);
    }
  }

  /** A one-element list is the same as its str. */
  lemma ReplaceEachOne(text: string, pattern: string, rep: string)
    ensures TextReplace(text, List([Str(pattern)]), rep) == TextReplace(text, Str(pattern), rep)
  {
    assert [Str(pattern)][..0] == [];
    assert ReplaceEach(text, [Str(pattern)][..0], rep) == Ok(text);
  }

  /** Replacing single characters by text that has none of them removes them all. */
  lemma {:induction false} ReplaceEachRemoves(text: string, chars: string, rep: string)
    requires forall c :: c in chars ==> c !in rep
    ensures ReplaceEach(text, CharPatterns(chars), rep).Ok?
    ensures forall c :: c in chars ==> c !in ReplaceEach(text, CharPatterns(chars), rep).value
  {
    if chars != [] {
      var front := chars[..|chars| - 1];
      var last := chars[|chars| - 1];
      assert CharPatterns(chars)[..|chars| - 1] == CharPatterns(front);
      assert forall c :: c in front ==> c in chars;
      ReplaceEachRemoves(text, front, rep);
      var t := ReplaceEach(text, CharPatterns(front), rep).value;
      assert ReplaceEach(text, CharPatterns(chars), rep) == Ok(Replace(t, [last], rep));
      assert chars == front + [last];
      RemovesOneMore(t, front, last, rep);
    }
  }

  /** Replacing one more character keeps out those already gone and removes it too. */
  lemma RemovesOneMore(t: string, front: string, last: char, rep: string)
    requires forall c :: c in front + [last] ==> c !in rep
    requires forall c :: c in front ==> c !in t
    ensures forall c :: c in front + [last] ==> c !in Replace(t, [last], rep)
  {
    assert last in front + [last];
    ReplaceCharRemoves(t, last, rep);
    forall c | c in front + [last] ensures c !in Replace(t, [last], rep) {
      if c != last {
        assert c in front;
        ReplaceKeepsOut(t, [last], rep, c);
      }
    }
  }

  /** Each character as a one-character str pattern. */
  function CharPatterns(chars: string): (r: seq<Value>)
    ensures |r| == |chars|
    ensures forall i :: 0 <= i < |chars| ==> r[i] == Str([chars[i]])
  {
    seq(|chars|, i requires 0 <= i < |chars| => Str([chars[i]]))
  }

  /** The class docstring's example: `Text("Hello, world!").replace(["Hello", "world"], "Beep")`. */
  lemma TextReplaceExample()
    ensures TextReplace("Hello, world!", List([Str("Hello"), Str("world")]), "Beep") == Ok("Beep, Beep!")
  {
    var patterns := [Str("Hello"), Str("world")];
    assert patterns[..1] == [Str("Hello")] && patterns[..1][..0] == [];
    ExampleSpelling();
    ReplaceHello();
    ReplaceWorld();
    var middle := "Beep" + ", world!";
    assert ReplaceEach("Hello, world!", patterns[..1], "Beep") == Ok(middle);
    assert ReplaceEach("Hello, world!", patterns, "Beep") == Ok(Replace(middle, "world", "Beep"));
  }

  /** The three strings of the example, cut where the patterns sit. */
  lemma ExampleSpelling()
    ensures "Hello, world!" == "Hello" + ", world!"
    ensures "Beep" + ", world!" == "Beep, " + "world" + "!"
    ensures "Beep, " + "Beep" + "!" == "Beep, Beep!"
  {
  }

  lemma ReplaceHello()
    ensures Replace("Hello" + ", world!", "Hello", "Beep") == "Beep" + ", world!"
  {
    assert 'H' !in ", world!";
    ReplaceFront("Hello", ", world!", "Beep");
    MissingStart("Hello", ", world!");
    ReplaceAbsent(", world!", "Hello", "Beep");
  }

  lemma ReplaceWorld()
    ensures Replace("Beep, " + "world" + "!", "world", "Beep") == "Beep, " + "Beep" + "!"
  {
    assert 'w' !in "Beep, " && 'w' !in "!";
    ReplaceOnce("Beep, ", "world", "!", "Beep");
  }
  // ---------------------------------------------------------------------------
  // Text.to_actual_title and Text.to_initials
  // ---------------------------------------------------------------------------

  /** `Text.IGNORE_WORDS`: the small words a title leaves in lower case. */
  const IgnoreWords: seq<string> := [
    "a", "an", "the", "and", "but", "or", "for", "nor", "on", "at",
    "to", "from", "by", "of", "off", "in", "out", "over", "into", "with"]

  /** Word `i` of a title: capitalised when first or not a small word, lower case otherwise. */
  function TitleWord(i: nat, w: string): (r: string)
    requires w != []
    ensures |r| == |w|
  {
    if Lower(w) !in IgnoreWords || i == 0 then [UpperChar(w[0])] + Lower(w[1..]) else Lower(w)
  }

  /** The title case of the words of `text`, one for one. */
  function TitleWords(words: seq<string>): (r: seq<string>)
    requires [] !in words
    ensures |r| == |words|
  {
    seq(|words|, i requires 0 <= i < |words| && [] !in words => TitleWord(i, words[i]))
  }

  /**
   * `Text(text).to_actual_title()`: the words between single spaces, each
   * put in title case; IndexError (`words[i][0]`) when some word is empty.
   */
  function ActualTitle(text: string): Result<string> {
    var words := Split(text, ' ');
    if [] in words then Err(IndexError) else Ok(Join(TitleWords(words), ' '))
  }

  /** `to_actual_title`, rewriting the list of words in place. */
  method ToActualTitle(text: string) returns (r: Result<string>)
    ensures r == ActualTitle(text)
  {
    var words := Split(text, ' ');
    ghost var original := words;
    for i := 0 to |words|
      invariant |words| == |original|
      invariant forall k :: 0 <= k < i ==> original[k] != [] && words[k] == TitleWord(k, original[k])
      invariant words[i..] == original[i..]
    {
      var w := words[i];
      assert w == original[i];
      if Lower(w) !in IgnoreWords || i == 0 {
        if w == [] {
          assert [] in original;
          return Err(IndexError);
        }
        words := words[i := [UpperChar(w[0])] + Lower(w[1..])];
      } else {
        assert |Lower(w)| == |w|;
        words := words[i := Lower(w)];
      }
      assert words[i + 1..] == original[i + 1..];
    }
    assert [] !in original;
    assert words == TitleWords(original);
    r := Ok(Join(words, ' '));
  }

  /** A title word is not empty and has no space in it. */
  lemma TitleWordShape(i: nat, w: string)
    requires w != [] && ' ' !in w
    ensures TitleWord(i, w) != [] && ' ' !in TitleWord(i, w)
  {
    var t := TitleWord(i, w);
    forall k | 0 <= k < |t| ensures t[k] != ' ' {
      assert w[k] != ' ';
      CaseKeepsSpace(w[k]);
      if k > 0 && (Lower(w) !in IgnoreWords || i == 0) {
        assert t[k] == Lower(w[1..])[k - 1];
      }
    }
  }

  /**
   * A title has as many words as the text, and its word `i` is the title
   * case of word `i` of the text.
   */
  lemma ActualTitleWords(text: string)
    requires ActualTitle(text).Ok?
    ensures Split(ActualTitle(text).value, ' ') == TitleWords(Split(text, ' '))
    ensures |Split(ActualTitle(text).value, ' ')| == |Split(text, ' ')|
  {
    var words := Split(text, ' ');
    var titled := TitleWords(words);
    forall i | 0 <= i < |words| ensures ' ' !in titled[i] {
      TitleWordShape(i, words[i]);
    }
    SplitJoin(titled, ' ');
  }

  /** Title case twice is title case once. */
  lemma ActualTitleIdempotent(text: string)
    requires ActualTitle(text).Ok?
    ensures ActualTitle(ActualTitle(text).value) == ActualTitle(text)
  {
    var words := Split(text, ' ');
    var titled := TitleWords(words);
    ActualTitleWords(text);
    forall i | 0 <= i < |words| ensures titled[i] != [] && TitleWord(i, titled[i]) == titled[i] {
      TitleWordShape(i, words[i]);
      TitleWordTwice(i, words[i]);
    }
    assert [] !in titled;
    assert TitleWords(titled) == titled;
  }

  lemma TitleWordTwice(i: nat, w: string)
    requires w != []
    ensures TitleWord(i, TitleWord(i, w)) == TitleWord(i, w)
  {
    var t := TitleWord(i, w);
    if Lower(w) !in IgnoreWords || i == 0 {
      LowerCapitalised(w);
      CaseTwice(w[0]);
      LowerTwice(w[1..]);
      assert t[0] == UpperChar(w[0]) && t[1..] == Lower(w[1..]);
    } else {
      LowerTwice(w);
    }
  }

  /** The docstring's example: "this is a title" becomes "This Is a Title". */
  lemma ActualTitleExample()
    ensures ActualTitle("this is a title") == Ok("This Is a Title")
  {
    var words: seq<string> := ["this", "is", "a", "title"];
    ExampleTitleSplit();
    assert [] !in words;
    ExampleWordsTitled();
    TitleSpelling();
  }

  lemma ExampleTitleSplit()
    ensures Split("this is a title", ' ') == ["this", "is", "a", "title"]
  {
    var words: seq<string> := ["this", "is", "a", "title"];
    assert forall i :: 0 <= i < |words| ==> ' ' !in words[i];
    SplitJoin(words, ' ');
    TitleSpelling();
  }

  lemma ExampleWordsTitled()
    ensures TitleWords(["this", "is", "a", "title"]) == ["This", "Is", "a", "Title"]
  {
    TitleFour("this", "is", "a", "title");
    TitleThis();
    TitleIs();
    TitleA();
    TitleTitle();
  }

  lemma TitleFour(a: string, b: string, c: string, d: string)
    requires a != [] && b != [] && c != [] && d != []
    ensures TitleWords([a, b, c, d]) == [TitleWord(0, a), TitleWord(1, b), TitleWord(2, c), TitleWord(3, d)]
  {
  }

  lemma TitleThis()
    ensures TitleWord(0, "this") == "This"
  {
    assert Lower("his") == "his";
  }

  lemma TitleIs()
    ensures TitleWord(1, "is") == "Is"
  {
    assert Lower("is") == "is" && Lower("s") == "s";
    assert "is" !in IgnoreWords;
  }

  lemma TitleA()
    ensures TitleWord(2, "a") == "a"
  {
    assert Lower("a") == "a";
    assert "a" == IgnoreWords[0];
  }

  lemma TitleTitle()
    ensures TitleWord(3, "title") == "Title"
  {
    assert Lower("title") == "title" && Lower("itle") == "itle";
    assert "title" !in IgnoreWords;
  }

  lemma TitleSpelling()
    ensures Join(["this", "is", "a", "title"], ' ') == "this is a title"
    ensures Join(["This", "Is", "a", "Title"], ' ') == "This Is a Title"
  {
  }
  /** The initial of a word: taken as written from a small word when case-sensitive, upper-cased otherwise. */
  function InitialOf(w: string, caseSensitive: bool): char
    requires w != []
  {
    if w in IgnoreWords && caseSensitive then Lower(w)[0] else Upper(w)[0]
  }

  /** Each word's initial followed by a dot. */
  function Dotted(words: seq<string>, caseSensitive: bool): (r: string)
    requires [] !in words
    ensures |r| == 2 * |words|
  {
    if words == [] then []
    else
      assert forall w :: w in words[..|words| - 1] ==> w in words;
      Dotted(words[..|words| - 1], caseSensitive) + [InitialOf(words[|words| - 1], caseSensitive), '.']
  }

  /**
   * `Text(text).to_initials(case_sensitive)`: an initial and a dot for each
   * word between single spaces; IndexError (`word[0]`) when some word is empty.
   */
  function Initials(text: string, caseSensitive: bool): Result<string> {
    var words := Split(text, ' ');
    if [] in words then Err(IndexError) else Ok(Dotted(words, caseSensitive))
  }

  /** `to_initials`, accumulating the initials word by word. */
  method ToInitials(text: string, caseSensitive: bool) returns (r: Result<string>)
    ensures r == Initials(text, caseSensitive)
  {
    var words := Split(text, ' ');
    var initials := "";
    for i := 0 to |words|
      invariant [] !in words[..i]
      invariant initials == Dotted(words[..i], caseSensitive)
    {
      var word := words[i];
      if word in IgnoreWords && caseSensitive {
        word := Lower(word);
      } else {
        word := Upper(word);
      }
      CasedInitial(words[i], caseSensitive);
      if word == [] {
        assert words[i] in words;
        return Err(IndexError);
      }
      DottedSnoc(words, i, caseSensitive);
      initials := initials + [word[0]] + ".";
    }
    assert words[..|words|] == words;
    r := Ok(initials);
  }

  /** The word the loop cases is empty exactly when the word is, and starts with its initial. */
  lemma CasedInitial(w: string, caseSensitive: bool)
    ensures var cased := if w in IgnoreWords && caseSensitive then Lower(w) else Upper(w);
      (cased == [] <==> w == []) && (w != [] ==> cased[0] == InitialOf(w, caseSensitive))
  {
  }

  /** One more word adds its initial and a dot. */
  lemma DottedSnoc(words: seq<string>, i: nat, caseSensitive: bool)
    requires i < |words| && [] !in words[..i] && words[i] != []
    ensures [] !in words[..i + 1]
    ensures Dotted(words[..i + 1], caseSensitive) == Dotted(words[..i], caseSensitive) + [InitialOf(words[i], caseSensitive), '.']
  {
    assert words[..i + 1][..i] == words[..i] && words[..i + 1] == words[..i] + [words[i]];
  }

  /** Character `2k` is the initial of word `k`, character `2k + 1` a dot. */
  lemma {:induction false} DottedAt(words: seq<string>, caseSensitive: bool)
    requires [] !in words
    ensures forall k :: 0 <= k < |words| ==>
      Dotted(words, caseSensitive)[2 * k] == InitialOf(words[k], caseSensitive) && Dotted(words, caseSensitive)[2 * k + 1] == '.'
  {
    if words != [] {
      var front := words[..|words| - 1];
      assert forall w :: w in front ==> w in words;
      DottedAt(front, caseSensitive);
      var last := [InitialOf(words[|words| - 1], caseSensitive), '.'];
      assert Dotted(words, caseSensitive) == Dotted(front, caseSensitive) + last;
      forall k | 0 <= k < |front| ensures words[k] == front[k] {
      }
    }
  }

  /**
   * Twice as many characters as words: each word's initial, then a dot. The
   * initial is the upper-cased first letter unless the word is a small word
   * and the test is case-sensitive.
   */
  lemma InitialsSpec(text: string, caseSensitive: bool)
    requires Initials(text, caseSensitive).Ok?
    ensures var words, r := Split(text, ' '), Initials(text, caseSensitive).value;
      |r| == 2 * |words|
      && forall k :: 0 <= k < |words| ==>
        r[2 * k + 1] == '.'
        && r[2 * k] == if words[k] in IgnoreWords && caseSensitive then words[k][0] else UpperChar(words[k][0])
  {
    var words := Split(text, ' ');
    DottedAt(words, caseSensitive);
    forall k | 0 <= k < |words| && words[k] in IgnoreWords ensures Lower(words[k])[0] == words[k][0] {
      SmallWordsAreLower(words[k]);
    }
  }

  /** The small words are written in lower case. */
  lemma SmallWordsAreLower(w: string)
    requires w in IgnoreWords
    ensures w != [] && Lower(w) == w
  {
  }

  /** The docstring's example, with the trailing dot the code adds. */
  lemma InitialsExample()
    ensures Initials("John Doe", true) == Ok("J.D.")
  {
    var words: seq<string> := ["John", "Doe"];
    ExampleInitialsSplit();
    assert [] !in words;
    ExampleInitials();
  }

  lemma ExampleInitialsSplit()
    ensures Split("John Doe", ' ') == ["John", "Doe"]
  {
    var words: seq<string> := ["John", "Doe"];
    assert forall i :: 0 <= i < |words| ==> ' ' !in words[i];
    SplitJoin(words, ' ');
    InitialsSpelling();
  }

  lemma InitialsSpelling()
    ensures Join(["John", "Doe"], ' ') == "John Doe"
  {
  }

  lemma ExampleInitials()
    ensures Dotted(["John", "Doe"], true) == "J.D."
  {
    var words: seq<string> := ["John", "Doe"];
    assert "John" !in IgnoreWords && "Doe" !in IgnoreWords;
    assert InitialOf("John", true) == 'J' && InitialOf("Doe", true) == 'D';
    assert words[..1] == ["John"] && words[..1][..0] == [];
  }
}
