/** Batch aggregation (`main.py`): counting the (domain, ip, seed) triples
    of one batch and turning the counts into rows for the store. */
module Batch {
  import opened Common
  import Parsing

  /** One item of `data_from_urls`: the seed a link is attributed to, and
      the link's HostingInfo. */
  type Item = (Option<Url>, Parsing.HostingInfo)

  /** The key `group` counts by: (domain, ip, url). */
  datatype GroupKey = GroupKey(domain: string, ip: string, url: Option<Url>)

  /** One tuple `prepare` yields: (domain, ip, url id, counter). */
  datatype Row = Row(domain: string, ip: string, urlId: int, counter: nat)

  function KeyOf(item: Item): GroupKey {
    GroupKey(item.1.domain, item.1.ip, item.0)
  }

  /** The keys of the items, in order. */
  function KeysOf(lst: seq<Item>): seq<GroupKey> {
    if lst == [] then [] else KeysOf(lst[..|lst| - 1]) + [KeyOf(lst[|lst| - 1])]
  }

  /** How many items of `lst` have key `k`. */
  function Occurrences(lst: seq<Item>, k: GroupKey): nat {
    if lst == [] then 0
    else Occurrences(lst[..|lst| - 1], k) + if KeyOf(lst[|lst| - 1]) == k then 1 else 0
  }

  /** What `group(lst)` returns, as a specification: every key that occurs,
      mapped to its number of occurrences. */
  function Grouped(lst: seq<Item>): map<GroupKey, nat> {
    map k | k in KeysOf(lst) :: Occurrences(lst, k)
  }

  /** `group`: counts the items by (domain, ip, url) in a map that starts
      empty and is incremented once per item (the `defaultdict(int)`). */
  method Group(lst: seq<Item>) returns (grouped: map<GroupKey, nat>)
    ensures grouped == Grouped(lst)
  {
    grouped := map[];
    var i := 0;
    while i < |lst|
      invariant 0 <= i <= |lst|
      invariant grouped == Grouped(lst[..i])
    {
      var key := KeyOf(lst[i]);
      assert lst[..i + 1] == lst[..i] + [lst[i]];
      GroupedSnoc(lst[..i], lst[i]);
      grouped := grouped[key := (if key in grouped then grouped[key] else 0) + 1];
      i := i + 1;
    }
    assert lst[..|lst|] == lst;
  }

  lemma {:induction false} OccursIffKey(lst: seq<Item>, k: GroupKey)
    ensures Occurrences(lst, k) > 0 <==> k in KeysOf(lst)
  {
    if lst != [] {
      OccursIffKey(lst[..|lst| - 1], k);
    }
  }

  /** Adding one item increments the count of its key and of no other. */
  lemma GroupedSnoc(lst: seq<Item>, x: Item)
    ensures var g := Grouped(lst); var key := KeyOf(x);
            Grouped(lst + [x]) == g[key := (if key in g then g[key] else 0) + 1]
  {
    var lst' := lst + [x];
    assert lst'[..|lst|] == lst;
    var key := KeyOf(x);
    OccursIffKey(lst, key);
  }

  /** Each key maps to the number of items that carry exactly that triple,
      which is at least one; no other key is present, and no item is left
      out, whatever its domain or address. */
  lemma GroupCountsEveryItem(lst: seq<Item>)
    ensures forall k :: k in Grouped(lst) <==> Occurrences(lst, k) > 0
    ensures forall k :: k in Grouped(lst) ==> Grouped(lst)[k] == Occurrences(lst, k) >= 1
    ensures forall i :: 0 <= i < |lst| ==> KeyOf(lst[i]) in Grouped(lst)
  {
    forall k ensures k in Grouped(lst) <==> Occurrences(lst, k) > 0 {
      OccursIffKey(lst, k);
    }
    forall i | 0 <= i < |lst| ensures KeyOf(lst[i]) in Grouped(lst) {
      OccurrencesOfMember(lst, i);
      OccursIffKey(lst, KeyOf(lst[i]));
    }
  }

  lemma {:induction false} OccurrencesOfMember(lst: seq<Item>, i: nat)
    requires i < |lst|
    ensures Occurrences(lst, KeyOf(lst[i])) > 0
  {
    if i < |lst| - 1 {
      OccurrencesOfMember(lst[..|lst| - 1], i);
    }
  }

  lemma {:induction false} OccurrencesConcat(a: seq<Item>, b: seq<Item>, k: GroupKey)
    ensures Occurrences(a + b, k) == Occurrences(a, k) + Occurrences(b, k)
  {
    if b != [] {
      assert (a + b)[..|a + b| - 1] == a + b[..|b| - 1];
      OccurrencesConcat(a, b[..|b| - 1], k);
    } else {
      assert a + b == a;
    }
  }

  /** The count of a key depends only on the multiset of items. */
  lemma {:induction false} OccurrencesOfPermutation(lst: seq<Item>, lst': seq<Item>, k: GroupKey)
    requires multiset(lst) == multiset(lst')
    ensures Occurrences(lst, k) == Occurrences(lst', k)
  {
    if lst == [] {
      assert |lst'| == |multiset(lst')| == 0;
    } else {
      var init, x := lst[..|lst| - 1], lst[|lst| - 1];
      assert lst == init + [x];
      assert multiset(lst) == multiset(init) + multiset{x};
      assert x in multiset(lst');
      var j :| 0 <= j < |lst'| && lst'[j] == x;
      var rest := lst'[..j] + lst'[j + 1..];
      MultisetRemoveAt(lst', j);
      MultisetCancel(multiset(init), multiset(rest), x);
      OccurrencesOfPermutation(init, rest, k);
      OccurrencesRemoveAt(lst', j, k);
    }
  }

  lemma MultisetRemoveAt(xs: seq<Item>, j: nat)
    requires j < |xs|
    ensures multiset(xs) == multiset(xs[..j] + xs[j + 1..]) + multiset{xs[j]}
  {
    assert xs == xs[..j] + [xs[j]] + xs[j + 1..];
  }

  lemma MultisetCancel(a: multiset<Item>, b: multiset<Item>, x: Item)
    requires a + multiset{x} == b + multiset{x}
    ensures a == b
  {
    forall y ensures a[y] == b[y] {
      assert (a + multiset{x})[y] == (b + multiset{x})[y];
    }
  }

  lemma OccurrencesRemoveAt(xs: seq<Item>, j: nat, k: GroupKey)
    requires j < |xs|
    ensures Occurrences(xs, k) == Occurrences(xs[..j] + xs[j + 1..], k) + if KeyOf(xs[j]) == k then 1 else 0
  {
    var before, after := xs[..j], xs[j + 1..];
    assert xs == before + [xs[j]] + after;
    OccurrencesConcat(before + [xs[j]], after, k);
    OccurrencesConcat(before, [xs[j]], k);
    OccurrencesConcat(before, after, k);
    assert [xs[j]][..0] == [];
  }

  lemma GroupOrderIndependent(lst: seq<Item>, lst': seq<Item>)
    requires multiset(lst) == multiset(lst')
    ensures Grouped(lst) == Grouped(lst')
  {
    forall k ensures Occurrences(lst, k) == Occurrences(lst', k) {
      OccurrencesOfPermutation(lst, lst', k);
    }
    forall k ensures k in KeysOf(lst) <==> k in KeysOf(lst') {
      OccursIffKey(lst, k);
      OccursIffKey(lst', k);
    }
  }

  // ---------------------------------------------------------------------
  // totals

  /** The sum of the values of a map. */
  ghost function SumValues(m: map<GroupKey, nat>): nat
    decreases |m|
  {
    if m == map[] then 0
    else
      var k :| k in m;
      m[k] + SumValues(m - {k})
  }

  lemma {:induction false} SumValuesRemove(m: map<GroupKey, nat>, k: GroupKey)
    requires k in m
    ensures SumValues(m) == m[k] + SumValues(m - {k})
    decreases |m|
  {
    var j :| j in m && SumValues(m) == m[j] + SumValues(m - {j});
    if j != k {
      SumValuesRemove(m - {j}, k);
      SumValuesRemove(m - {k}, j);
      assert m - {j} - {k} == m - {k} - {j};
    }
  }

  /** `group` conserves the count: its counters add up to the number of
      items in the batch. */
  lemma {:induction false} GroupConservesCount(lst: seq<Item>)
    ensures SumValues(Grouped(lst)) == |lst|
  {
    if lst == [] {
      assert Grouped(lst) == map[];
    } else {
      var init, x := lst[..|lst| - 1], lst[|lst| - 1];
      assert lst == init + [x];
      GroupConservesCount(init);
      GroupedSnoc(init, x);
      var g, key := Grouped(init), KeyOf(x);
      var g' := Grouped(lst);
      SumValuesRemove(g', key);
      assert g' - {key} == g - {key};
      if key in g {
        SumValuesRemove(g, key);
      } else {
        assert g - {key} == g;
      }
    }
  }

  // ---------------------------------------------------------------------
  // prepare

  /** The row `prepare` yields for one key of the grouped map. */
  function RowOf(groupped: map<GroupKey, nat>, key: GroupKey, urlIds: map<Url, int>): Row
    requires key in groupped && key.url.Some? && key.url.value in urlIds
  {
    Row(key.domain, key.ip, urlIds[key.url.value], groupped[key])
  }

  /** `prepare(groupped, url_ids)`, with `order` the order in which
      `groupped.items()` lists the keys: one row per key, its url replaced
      by its id (`url_ids[url]` raises for a url with no id). */
  function Prepare(groupped: map<GroupKey, nat>, order: seq<GroupKey>, urlIds: map<Url, int>): (rows: seq<Row>)
    requires forall i :: 0 <= i < |order| ==> order[i] in groupped && order[i].url.Some? && order[i].url.value in urlIds
    ensures |rows| == |order|
  {
    if order == [] then []
    else Prepare(groupped, order[..|order| - 1], urlIds) + [RowOf(groupped, order[|order| - 1], urlIds)]
  }

  /** `order` lists every key of `m` exactly once. */
  ghost predicate IsOrderOf(order: seq<GroupKey>, m: map<GroupKey, nat>) {
    && (forall i :: 0 <= i < |order| ==> order[i] in m)
    && (forall k :: k in m ==> k in order)
    && (forall i, j :: 0 <= i < j < |order| ==> order[i] != order[j])
  }

  /** Some order lists the keys of any map, so `prepare` is defined for every
      grouped map whose urls all have ids. */
  ghost function SomeOrder(m: map<GroupKey, nat>): (order: seq<GroupKey>)
    ensures IsOrderOf(order, m)
    decreases |m|
  {
    if m == map[] then []
    else
      var k :| k in m;
      SomeOrder(m - {k}) + [k]
  }

  function Counters(rows: seq<Row>): nat {
    if rows == [] then 0 else Counters(rows[..|rows| - 1]) + rows[|rows| - 1].counter
  }

  lemma OrderOfNothing(m: map<GroupKey, nat>)
    requires IsOrderOf([], m)
    ensures m == map[]
  {
    forall k ensures k !in m { }
  }

  /** Without its last key, an order lists the rest of the map. */
  lemma OrderOfRest(order: seq<GroupKey>, m: map<GroupKey, nat>)
    requires order != [] && IsOrderOf(order, m)
    ensures IsOrderOf(order[..|order| - 1], m - {order[|order| - 1]})
  {
    var init, k := order[..|order| - 1], order[|order| - 1];
    forall i | 0 <= i < |init| ensures init[i] in m - {k} {
      assert init[i] == order[i] && order[i] != order[|order| - 1];
    }
    forall j | j in m - {k} ensures j in init {
      var i :| 0 <= i < |order| && order[i] == j;
      assert init[i] == j;
    }
    forall i, j | 0 <= i < j < |init| ensures init[i] != init[j] {
      assert init[i] == order[i] && init[j] == order[j];
    }
  }

  lemma {:induction false} DistinctLength(order: seq<GroupKey>, m: map<GroupKey, nat>)
    requires IsOrderOf(order, m)
    ensures |order| == |m|
    decreases |order|
  {
    if order != [] {
      var init, k := order[..|order| - 1], order[|order| - 1];
      OrderOfRest(order, m);
      DistinctLength(init, m - {k});
    } else {
      OrderOfNothing(m);
    }
  }

  /** `prepare` yields exactly one row per grouped key: the i-th row is the
      i-th key listed, with domain, ip and counter kept and the url replaced
      by its id. */
  lemma {:induction false} PrepareOneRowPerKey(groupped: map<GroupKey, nat>, order: seq<GroupKey>, urlIds: map<Url, int>)
    requires IsOrderOf(order, groupped)
    requires forall k :: k in groupped ==> k.url.Some? && k.url.value in urlIds
    ensures |Prepare(groupped, order, urlIds)| == |order| == |groupped|
    ensures forall i :: 0 <= i < |order| ==> Prepare(groupped, order, urlIds)[i] == RowOf(groupped, order[i], urlIds)
    ensures forall k :: k in groupped ==> RowOf(groupped, k, urlIds) in Prepare(groupped, order, urlIds)
  {
    DistinctLength(order, groupped);
    PrepareRows(groupped, order, urlIds);
    var rows := Prepare(groupped, order, urlIds);
    forall k | k in groupped ensures RowOf(groupped, k, urlIds) in rows {
      var i :| 0 <= i < |order| && order[i] == k;
      assert rows[i] == RowOf(groupped, k, urlIds);
    }
  }

  lemma {:induction false} PrepareRows(groupped: map<GroupKey, nat>, order: seq<GroupKey>, urlIds: map<Url, int>)
    requires forall i :: 0 <= i < |order| ==> order[i] in groupped && order[i].url.Some? && order[i].url.value in urlIds
    ensures |Prepare(groupped, order, urlIds)| == |order|
    ensures forall i :: 0 <= i < |order| ==> Prepare(groupped, order, urlIds)[i] == RowOf(groupped, order[i], urlIds)
  {
    if order != [] {
      PrepareRows(groupped, order[..|order| - 1], urlIds);
    }
  }

  /** The counters of the rows add up to the counts of the grouped keys. */
  lemma {:induction false} PrepareKeepsTotal(groupped: map<GroupKey, nat>, order: seq<GroupKey>, urlIds: map<Url, int>)
    requires IsOrderOf(order, groupped)
    requires forall k :: k in groupped ==> k.url.Some? && k.url.value in urlIds
    ensures Counters(Prepare(groupped, order, urlIds)) == SumValues(groupped)
    decreases |order|
  {
    if order == [] {
      OrderOfNothing(groupped);
    } else {
      var init, k := order[..|order| - 1], order[|order| - 1];
      var rest := groupped - {k};
      OrderOfRest(order, groupped);
      PrepareKeepsTotal(rest, init, urlIds);
      SumValuesRemove(groupped, k);
      PrepareAgrees(groupped, rest, init, urlIds);
    }
  }

  /** Rows depend only on the counts of the keys listed. */
  lemma {:induction false} PrepareAgrees(m: map<GroupKey, nat>, m': map<GroupKey, nat>, order: seq<GroupKey>, urlIds: map<Url, int>)
    requires forall i :: 0 <= i < |order| ==> order[i] in m && order[i] in m' && m[order[i]] == m'[order[i]]
    requires forall i :: 0 <= i < |order| ==> order[i].url.Some? && order[i].url.value in urlIds
    ensures Prepare(m, order, urlIds) == Prepare(m', order, urlIds)
  {
    if order != [] {
      PrepareAgrees(m, m', order[..|order| - 1], urlIds);
    }
  }

  /** Group then prepare: whatever order the dictionary lists its keys in,
      the counters written for one batch add up to the batch's size. */
  lemma BatchCountersAddUp(lst: seq<Item>, order: seq<GroupKey>, urlIds: map<Url, int>)
    requires IsOrderOf(order, Grouped(lst))
    requires forall k :: k in Grouped(lst) ==> k.url.Some? && k.url.value in urlIds
    ensures Counters(Prepare(Grouped(lst), order, urlIds)) == |lst|
  {
    PrepareKeepsTotal(Grouped(lst), order, urlIds);
    GroupConservesCount(lst);
  }
}
