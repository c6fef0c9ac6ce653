/** The grouping half of src/transforms/group.js: d3's `groups` over row
    indices, the `defined1` filter, and the one-key (`group1`) and two-key
    (`group2`) pipelines that produce the global group list before facets are
    applied. Keys are of an abstract type with decidable equality; whether a
    key is defined is an abstract predicate `defined`. */
module Grouping {
  import opened Seqs

  /** An entry of d3's `groups`: a key and what was grouped under it. */
  datatype Entry<K, V> = Entry(key: K, values: V)

  /** `[key, group]`: a key and the indices of the rows that share it. */
  type Pair<K> = Entry<K, seq<nat>>

  /** `[keyx, keyy, group]`, an element of group2's flattened list. */
  datatype Triple<K> = Triple(keyX: K, keyY: K, values: seq<nat>)

  /** Every item is a row index into `keys`. */
  predicate InRange<K>(items: seq<nat>, keys: seq<K>)
  {
    forall i | i in items :: i < |keys|
  }

  /** Row `i` has key `k`. */
  function HasKey<K(==)>(keys: seq<K>, k: K): nat -> bool
  {
    (i: nat) => i < |keys| && keys[i] == k
  }

  /** Row `i` has a key other than `k`. */
  function OtherKey<K(==)>(keys: seq<K>, k: K): nat -> bool
  {
    (i: nat) => i < |keys| && keys[i] != k
  }

  /** Row `i` has a defined key. */
  function RowDefined<K>(keys: seq<K>, defined: K -> bool): nat -> bool
  {
    (i: nat) => i < |keys| && defined(keys[i])
  }

  /** Row `i` has X key `kx` and Y key `ky`. */
  function HasKeys<K(==)>(xs: seq<K>, ys: seq<K>, kx: K, ky: K): nat -> bool
  {
    (i: nat) => i < |xs| && i < |ys| && xs[i] == kx && ys[i] == ky
  }

  /** `defined1([key])`: the entry's key is defined. */
  function Defined1<K, V>(defined: K -> bool): Entry<K, V> -> bool
  {
    (e: Entry<K, V>) => defined(e.key)
  }

  // ---------------------------------------------------------------------
  // Orders on lists of entries

  /** `R` holds between every element and every later one. */
  ghost predicate Pairwise<T>(s: seq<T>, R: (T, T) -> bool)
  {
    forall a, b :: 0 <= a < b < |s| ==> R(s[a], s[b])
  }

  /** No two entries share a key. */
  ghost predicate DistinctKeys<K, V>(gs: seq<Entry<K, V>>)
  {
    forall a, b :: 0 <= a < b < |gs| ==> gs[a].key != gs[b].key
  }

  /** Entries are non-empty and listed by their first member. */
  ghost predicate ByFirstMember<K>(gs: seq<Pair<K>>)
  {
    forall a, b :: 0 <= a < b < |gs| ==> FirstBefore(gs[a], gs[b])
  }

  /** `g` and `h` are non-empty and `g` starts at an earlier row. */
  predicate FirstBefore<K>(g: Pair<K>, h: Pair<K>)
  {
    g.values != [] && h.values != [] && g.values[0] < h.values[0]
  }

  /** Entries are listed in the order in which their keys first occur in
      the key column `xs`. */
  ghost predicate ByFirstOccurrence<K, V>(gs: seq<Entry<K, V>>, xs: seq<K>)
  {
    forall a, b :: 0 <= a < b < |gs| ==> IndexOf(xs, gs[a].key) < IndexOf(xs, gs[b].key)
  }

  /** Filtering keeps any relation that held between every element and
      every later one. */
  lemma {:induction false} FilterPairwise<T>(s: seq<T>, p: T -> bool, R: (T, T) -> bool)
    requires Pairwise(s, R)
    ensures Pairwise(Filter(s, p), R)
  {
    if s != [] {
      var r := Filter(s, p);
      var rest := Filter(s[1..], p);
      assert Pairwise(s[1..], R) by {
        forall a, b | 0 <= a < b < |s[1..]| ensures R(s[1..][a], s[1..][b]) {
          assert s[1..][a] == s[a + 1] && s[1..][b] == s[b + 1];
        }
      }
      FilterPairwise(s[1..], p, R);
      if p(s[0]) {
        assert r == [s[0]] + rest;
        forall a, b | 0 <= a < b < |r| ensures R(r[a], r[b]) {
          assert r[b] == rest[b - 1];
          if a == 0 {
            assert rest[b - 1] in rest;
            var j :| 0 <= j < |s[1..]| && s[1..][j] == rest[b - 1];
            assert s[j + 1] == r[b];
          } else {
            assert r[a] == rest[a - 1];
          }
        }
      } else {
        assert r == rest;
      }
    }
  }

  lemma FilterDistinctKeys<K, V>(gs: seq<Entry<K, V>>, p: Entry<K, V> -> bool)
    requires DistinctKeys(gs)
    ensures DistinctKeys(Filter(gs, p))
  {
    var R := (g: Entry<K, V>, h: Entry<K, V>) => g.key != h.key;
    assert Pairwise(gs, R);
    FilterPairwise(gs, p, R);
  }

  lemma {:induction false} FilterByFirstMember<K>(gs: seq<Pair<K>>, p: Pair<K> -> bool)
    requires ByFirstMember(gs)
    ensures ByFirstMember(Filter(gs, p))
  {
    if gs != [] {
      var rest := Filter(gs[1..], p);
      ByFirstMemberTail(gs);
      FilterByFirstMember(gs[1..], p);
      if p(gs[0]) {
        assert Filter(gs, p) == [gs[0]] + rest;
        forall h | h in rest ensures FirstBefore(gs[0], h) {
          var j :| 0 <= j < |gs[1..]| && gs[1..][j] == h;
          assert gs[j + 1] == h;
        }
        ByFirstMemberCons(gs[0], rest);
      } else {
        assert Filter(gs, p) == rest;
      }
    }
  }

  lemma ByFirstMemberTail<K>(gs: seq<Pair<K>>)
    requires gs != [] && ByFirstMember(gs)
    ensures ByFirstMember(gs[1..])
  {
    var t := gs[1..];
    forall a, b | 0 <= a < b < |t| ensures FirstBefore(t[a], t[b]) {
      assert t[a] == gs[a + 1] && t[b] == gs[b + 1];
    }
  }

  lemma ByFirstMemberCons<K>(x: Pair<K>, rest: seq<Pair<K>>)
    requires ByFirstMember(rest)
    requires forall h | h in rest :: FirstBefore(x, h)
    ensures ByFirstMember([x] + rest)
  {
    var r := [x] + rest;
    forall a, b | 0 <= a < b < |r| ensures FirstBefore(r[a], r[b]) {
      assert r[b] == rest[b - 1];
      if a == 0 {
        assert rest[b - 1] in rest;
      } else {
        assert r[a] == rest[a - 1];
      }
    }
  }

  lemma FilterByFirstOccurrence<K, V>(gs: seq<Entry<K, V>>, xs: seq<K>, p: Entry<K, V> -> bool)
    requires ByFirstOccurrence(gs, xs)
    ensures ByFirstOccurrence(Filter(gs, p), xs)
  {
    var R := (g: Entry<K, V>, h: Entry<K, V>) => IndexOf(xs, g.key) < IndexOf(xs, h.key);
    assert Pairwise(gs, R);
    FilterPairwise(gs, p, R);
  }

  // ---------------------------------------------------------------------
  // d3's groups

  /** d3's `groups(items, i => keys[i])`: one entry per distinct key, in the
      order in which the keys first occur among the items, each holding the
      items with that key in their original order. The first item opens the
      entry of its key; the remaining items with other keys are grouped the
      same way. */
  function GroupBy<K(==)>(items: seq<nat>, keys: seq<K>): seq<Pair<K>>
    requires InRange(items, keys)
    decreases |items|
  {
    if items == [] then []
    else
      assert items[0] in items;
      var k := keys[items[0]];
      [Entry(k, Filter(items, HasKey(keys, k)))] + GroupBy(Filter(items[1..], OtherKey(keys, k)), keys)
  }

  /** Each entry of d3's `groups` holds exactly the items with its key, in
      their original order, and at least one of them. */
  lemma {:induction false} GroupByMembers<K>(items: seq<nat>, keys: seq<K>)
    requires InRange(items, keys)
    ensures forall g | g in GroupBy(items, keys) ::
      g.values == Filter(items, HasKey(keys, g.key)) && g.values != []
    decreases |items|
  {
    if items != [] {
      assert items[0] in items;
      var k := keys[items[0]];
      var rest := Filter(items[1..], OtherKey(keys, k));
      var tail := GroupBy(rest, keys);
      var head := Entry(k, Filter(items, HasKey(keys, k)));
      assert GroupBy(items, keys) == [head] + tail;
      assert HasKey(keys, k)(items[0]);
      GroupByMembers(rest, keys);
      forall g | g in tail ensures g.values == Filter(items, HasKey(keys, g.key)) {
        var v := g.values[0];
        assert v in g.values;
        assert v in rest;
        FilterFilter(items[1..], OtherKey(keys, k), HasKey(keys, g.key), HasKey(keys, g.key));
        assert Filter(items, HasKey(keys, g.key)) == Filter(items[1..], HasKey(keys, g.key));
      }
    }
  }

  /** No two entries of d3's `groups` share a key. */
  lemma {:induction false} GroupByKeysDistinct<K>(items: seq<nat>, keys: seq<K>)
    requires InRange(items, keys)
    ensures DistinctKeys(GroupBy(items, keys))
    decreases |items|
  {
    if items != [] {
      var r := GroupBy(items, keys);
      assert items[0] in items;
      var k := keys[items[0]];
      var rest := Filter(items[1..], OtherKey(keys, k));
      var tail := GroupBy(rest, keys);
      assert r == [Entry(k, Filter(items, HasKey(keys, k)))] + tail;
      GroupByKeysDistinct(rest, keys);
      GroupByMembers(rest, keys);
      forall a, b | 0 <= a < b < |r| ensures r[a].key != r[b].key {
        assert r[b] == tail[b - 1];
        if a == 0 {
          assert tail[b - 1] in tail;
          var v := r[b].values[0];
          assert v in r[b].values;
          assert v in rest;
        } else {
          assert r[a] == tail[a - 1];
        }
      }
    }
  }

  /** The key of every item is the key of some entry of d3's `groups`. */
  lemma {:induction false} GroupByCovers<K>(items: seq<nat>, keys: seq<K>)
    requires InRange(items, keys)
    ensures forall i | i in items :: exists g :: g in GroupBy(items, keys) && g.key == keys[i]
    decreases |items|
  {
    if items != [] {
      var r := GroupBy(items, keys);
      assert items[0] in items;
      var k := keys[items[0]];
      var rest := Filter(items[1..], OtherKey(keys, k));
      var tail := GroupBy(rest, keys);
      assert r == [Entry(k, Filter(items, HasKey(keys, k)))] + tail;
      GroupByCovers(rest, keys);
      forall i | i in items ensures exists g :: g in r && g.key == keys[i] {
        if keys[i] == k {
          assert r[0] in r;
        } else {
          assert i in items[1..];
          assert i in rest;
          var g :| g in tail && g.key == keys[i];
          assert g in r;
        }
      }
    }
  }

  /** Over increasing items (row order), every member list of d3's `groups`
      is increasing. */
  lemma GroupByIncreasing<K>(items: seq<nat>, keys: seq<K>)
    requires InRange(items, keys) && StrictlyIncreasing(items)
    ensures forall g | g in GroupBy(items, keys) :: StrictlyIncreasing(g.values)
  {
    GroupByMembers(items, keys);
    forall g | g in GroupBy(items, keys) ensures StrictlyIncreasing(g.values) {
      FilterIncreasing(items, HasKey(keys, g.key));
    }
  }

  /** Over increasing items (row order), d3's `groups` lists the entries by
      their first member. */
  lemma {:induction false} GroupByOrder<K>(items: seq<nat>, keys: seq<K>)
    requires InRange(items, keys) && StrictlyIncreasing(items)
    ensures ByFirstMember(GroupBy(items, keys))
    decreases |items|
  {
    if items != [] {
      var r := GroupBy(items, keys);
      assert items[0] in items;
      var k := keys[items[0]];
      var rest := Filter(items[1..], OtherKey(keys, k));
      var tail := GroupBy(rest, keys);
      var head := Entry(k, Filter(items, HasKey(keys, k)));
      assert r == [head] + tail;
      assert HasKey(keys, k)(items[0]);
      assert head.values[0] == items[0];
      assert StrictlyIncreasing(items[1..]) by {
        forall a, b | 0 <= a < b < |items[1..]| ensures items[1..][a] < items[1..][b] {
          assert items[1..][a] == items[a + 1] && items[1..][b] == items[b + 1];
        }
      }
      FilterIncreasing(items[1..], OtherKey(keys, k));
      GroupByOrder(rest, keys);
      GroupByMembers(rest, keys);
      forall a, b | 0 <= a < b < |r|
        ensures r[a].values != [] && r[b].values != [] && r[a].values[0] < r[b].values[0]
      {
        assert r[b] == tail[b - 1];
        assert tail[b - 1] in tail;
        if a == 0 {
          var v := r[b].values[0];
          assert v in r[b].values;
          assert v in items[1..];
          var j :| 0 <= j < |items[1..]| && items[1..][j] == v;
          assert items[j + 1] == v;
        } else {
          assert r[a] == tail[a - 1];
        }
      }
    }
  }

  /** The first row with key `k` is the first occurrence of `k`. */
  lemma FirstRowWithKey<K>(xs: seq<K>, k: K)
    requires Filter(Interval(0, |xs|), HasKey(xs, k)) != []
    ensures Filter(Interval(0, |xs|), HasKey(xs, k))[0] == IndexOf(xs, k)
  {
    var rows := Interval(0, |xs|);
    var p := HasKey(xs, k);
    var j := FilterHead(rows, p);
    assert rows[j] == j;
    assert xs[j] == k by { assert p(rows[j]); }
    forall i | 0 <= i < j ensures xs[i] != k {
      assert rows[i] == i && !p(rows[i]);
    }
    IndexOfFirst(xs, k, j);
  }

  /** Over the rows 0..n-1, d3's `groups` opens each entry at the first row
      with its key, so entries are in first-occurrence order of their keys. */
  lemma GroupByFirstOccurrence<K>(xs: seq<K>)
    ensures forall g | g in GroupBy(Interval(0, |xs|), xs) ::
      g.values != [] && g.values[0] == IndexOf(xs, g.key)
    ensures ByFirstOccurrence(GroupBy(Interval(0, |xs|), xs), xs)
  {
    var rows := Interval(0, |xs|);
    var r := GroupBy(rows, xs);
    GroupByMembers(rows, xs);
    GroupByOrder(rows, xs);
    forall g | g in r ensures g.values[0] == IndexOf(xs, g.key) {
      FirstRowWithKey(xs, g.key);
    }
    forall a, b | 0 <= a < b < |r| ensures IndexOf(xs, r[a].key) < IndexOf(xs, r[b].key) {
      assert r[a] in r && r[b] in r;
    }
  }

  /** The number of rows held by a list of entries. */
  function Total<K>(gs: seq<Pair<K>>): nat
  {
    if gs == [] then 0 else |gs[0].values| + Total(gs[1..])
  }

  /** The entries of d3's `groups` that survive `defined1` hold, together,
      exactly as many rows as there are items with a defined key. */
  lemma {:induction false} GroupByDefinedTotal<K>(items: seq<nat>, keys: seq<K>, defined: K -> bool)
    requires InRange(items, keys)
    ensures Total(Filter(GroupBy(items, keys), Defined1(defined))) ==
            |Filter(items, RowDefined(keys, defined))|
    decreases |items|
  {
    if items != [] {
      assert items[0] in items;
      var D := Defined1<K, seq<nat>>(defined);
      var RD := RowDefined(keys, defined);
      var r := GroupBy(items, keys);
      var k := keys[items[0]];
      var rest := Filter(items[1..], OtherKey(keys, k));
      var tail := GroupBy(rest, keys);
      var head := Entry(k, Filter(items, HasKey(keys, k)));
      assert r == [head] + tail;
      assert r[1..] == tail;
      GroupByDefinedTotal(rest, keys, defined);
      var c := (i: nat) => OtherKey(keys, k)(i) && RD(i);
      FilterFilter(items[1..], OtherKey(keys, k), RD, c);
      assert Filter(items, c) == Filter(items[1..], c);
      if defined(k) {
        var fr := Filter(r, D);
        assert fr == [head] + Filter(tail, D);
        assert fr[1..] == Filter(tail, D);
        FilterCount(items, RD, HasKey(keys, k), c);
      } else {
        assert Filter(r, D) == Filter(tail, D);
        FilterSame(items, RD, c);
      }
    }
  }

  // ---------------------------------------------------------------------
  // group1: groups(range(data), i => X[i]).filter(defined1)

  /** The global group list of the one-key transform over the key column
      `xs` (one key per row of the data). */
  function Group1<K(==)>(xs: seq<K>, defined: K -> bool): seq<Pair<K>>
  {
    Filter(GroupBy(Interval(0, |xs|), xs), Defined1(defined))
  }

  /** Members of group1's groups: each group has a defined key and holds, in
      increasing row order, exactly the rows with that key. */
  lemma Group1Members<K>(xs: seq<K>, defined: K -> bool)
    ensures forall g | g in Group1(xs, defined) ::
      defined(g.key) && g.values != [] && StrictlyIncreasing(g.values) &&
      (forall i | i in g.values :: i < |xs| && xs[i] == g.key) &&
      (forall i | 0 <= i < |xs| && xs[i] == g.key :: i in g.values)
  {
    var rows := Interval(0, |xs|);
    GroupByMembers(rows, xs);
    GroupByIncreasing(rows, xs);
    forall g | g in Group1(xs, defined)
      ensures forall i | 0 <= i < |xs| && xs[i] == g.key :: i in g.values
    {
      assert g in GroupBy(rows, xs);
      forall i | 0 <= i < |xs| && xs[i] == g.key ensures i in g.values {
        assert i in rows && HasKey(xs, g.key)(i);
      }
    }
  }

  /** Keys of group1's groups: each defined key occurs once, the groups are
      in the order in which their keys first occur in the data, and each
      group starts at that first occurrence. */
  lemma Group1KeyOrder<K>(xs: seq<K>, defined: K -> bool)
    ensures forall g | g in Group1(xs, defined) :: g.values != [] && g.values[0] == IndexOf(xs, g.key)
    ensures DistinctKeys(Group1(xs, defined))
    ensures ByFirstOccurrence(Group1(xs, defined), xs)
  {
    var rows := Interval(0, |xs|);
    var gs := GroupBy(rows, xs);
    GroupByFirstOccurrence(xs);
    GroupByKeysDistinct(rows, xs);
    FilterDistinctKeys(gs, Defined1(defined));
    FilterByFirstOccurrence(gs, xs, Defined1(defined));
  }

  /** group1's groups partition the rows with a defined key: a row is in
      some group exactly when its key is defined, and in no two groups. */
  lemma Group1Partition<K>(xs: seq<K>, defined: K -> bool)
    ensures forall i :: 0 <= i < |xs| ==>
      (defined(xs[i]) <==> exists g :: g in Group1(xs, defined) && i in g.values)
    ensures forall a, b, i :: 0 <= a < b < |Group1(xs, defined)| && i in Group1(xs, defined)[a].values ==>
      i !in Group1(xs, defined)[b].values
  {
    var rows := Interval(0, |xs|);
    var gs := GroupBy(rows, xs);
    var r := Group1(xs, defined);
    Group1Members(xs, defined);
    Group1KeyOrder(xs, defined);
    GroupByMembers(rows, xs);
    GroupByCovers(rows, xs);
    forall i | 0 <= i < |xs| && defined(xs[i]) ensures exists g :: g in r && i in g.values {
      assert i in rows;
      var g :| g in gs && g.key == xs[i];
      assert HasKey(xs, g.key)(i);
      assert Defined1<K, seq<nat>>(defined)(g);
      assert g in r && i in g.values;
    }
    forall a, b, i | 0 <= a < b < |r| && i in r[a].values ensures i !in r[b].values {
      assert r[a] in r && r[b] in r;
    }
  }

  /** The number of rows whose key is defined. */
  function DefinedRows<K>(xs: seq<K>, defined: K -> bool): nat
  {
    |Filter(Interval(0, |xs|), RowDefined(xs, defined))|
  }

  /** The rows the one-key transform keeps in its groups are exactly as many
      as the rows whose key is defined. */
  lemma Group1Total<K>(xs: seq<K>, defined: K -> bool)
    ensures Total(Group1(xs, defined)) == DefinedRows(xs, defined)
  {
    GroupByDefinedTotal(Interval(0, |xs|), xs, defined);
  }

  // ---------------------------------------------------------------------
  // group2: groups(range(data), i => X[i], i => Y[i]).filter(defined1)
  //           .flatMap(([x, gx]) => gx.filter(defined1).map(([y, gy]) => [x, y, gy]))

  /** d3's two-key `groups`: group by X, then the members of each X entry by
      Y. */
  function NestedGroupBy<K(==)>(items: seq<nat>, xs: seq<K>, ys: seq<K>): seq<Entry<K, seq<Pair<K>>>>
    requires InRange(items, xs) && InRange(items, ys)
  {
    var gx := GroupBy(items, xs);
    GroupByMembers(items, xs);
    seq(|gx|, a requires 0 <= a < |gx| => Entry(gx[a].key, GroupBy(gx[a].values, ys)))
  }

  /** Entry `a` of the two-key grouping is the X entry `a` of the one-key
      grouping by X, with its members grouped by Y. */
  lemma NestedAt<K>(items: seq<nat>, xs: seq<K>, ys: seq<K>)
    requires InRange(items, xs) && InRange(items, ys)
    ensures |NestedGroupBy(items, xs, ys)| == |GroupBy(items, xs)|
    ensures forall a | 0 <= a < |GroupBy(items, xs)| ::
      NestedGroupBy(items, xs, ys)[a].key == GroupBy(items, xs)[a].key &&
      InRange(GroupBy(items, xs)[a].values, ys) &&
      NestedGroupBy(items, xs, ys)[a].values == GroupBy(GroupBy(items, xs)[a].values, ys)
  {
    GroupByMembers(items, xs);
    var gx := GroupBy(items, xs);
    forall a | 0 <= a < |gx| ensures InRange(gx[a].values, ys) {
      assert gx[a] in gx;
    }
  }

  /** `.map(([y, gy]) => [x, y, gy])` over one X entry's Y entries. */
  function Triples<K>(x: K, gy: seq<Pair<K>>): seq<Triple<K>>
  {
    Map(gy, (g: Pair<K>) => Triple(x, g.key, g.values))
  }

  /** The flatMap of group2: each X entry contributes its defined Y entries,
      X entries in order, Y entries in order within each. */
  function Flatten<K>(gs: seq<Entry<K, seq<Pair<K>>>>, defined: K -> bool): seq<Triple<K>>
  {
    if gs == [] then []
    else Triples(gs[0].key, Filter(gs[0].values, Defined1(defined))) + Flatten(gs[1..], defined)
  }

  /** The global group list of the two-key transform over the key columns
      `xs` and `ys` (two keys per row of the data). */
  function Group2<K(==)>(xs: seq<K>, ys: seq<K>, defined: K -> bool): seq<Triple<K>>
    requires |xs| == |ys|
  {
    Flatten(Filter(NestedGroupBy(Interval(0, |xs|), xs, ys), Defined1(defined)), defined)
  }

  /** The rows whose X key is `kx` and whose Y key is `ky`, in row order. */
  function RowsWith<K(==)>(xs: seq<K>, ys: seq<K>, kx: K, ky: K): seq<nat>
  {
    Filter(Interval(0, |xs|), HasKeys(xs, ys, kx, ky))
  }

  /** A triple as group2 promises it: both keys defined, and its members
      exactly the rows with both keys, in row order. */
  ghost predicate TripleOk<K>(t: Triple<K>, xs: seq<K>, ys: seq<K>, defined: K -> bool)
  {
    defined(t.keyX) && defined(t.keyY) && t.values != [] &&
    t.values == RowsWith(xs, ys, t.keyX, t.keyY)
  }

  /** Triples ordered by X entry first (X keys in first-occurrence order) and
      then by Y entry within it (Y entries by first member), with no
      (X key, Y key) pair twice. */
  ghost predicate TriplesOrdered<K>(ts: seq<Triple<K>>, xs: seq<K>)
  {
    forall p, q :: 0 <= p < q < |ts| ==>
      (ts[p].keyX == ts[q].keyX ==>
         ts[p].keyY != ts[q].keyY && ts[p].values != [] && ts[q].values != [] &&
         ts[p].values[0] < ts[q].values[0]) &&
      (ts[p].keyX != ts[q].keyX ==> IndexOf(xs, ts[p].keyX) < IndexOf(xs, ts[q].keyX))
  }

  /** Which triples the flatMap produces. */
  lemma {:induction false} FlattenMembers<K>(gs: seq<Entry<K, seq<Pair<K>>>>, defined: K -> bool, t: Triple<K>)
    ensures t in Flatten(gs, defined) <==>
      exists e, y :: e in gs && y in e.values && defined(y.key) && t == Triple(e.key, y.key, y.values)
  {
    if gs != [] {
      FlattenMembers(gs[1..], defined, t);
      var ys := Filter(gs[0].values, Defined1(defined));
      var block := Triples(gs[0].key, ys);
      assert Flatten(gs, defined) == block + Flatten(gs[1..], defined);
      if t in block {
        var j :| 0 <= j < |block| && block[j] == t;
        assert ys[j] in ys;
        assert gs[0] in gs;
      }
      if exists e, y :: e in gs && y in e.values && defined(y.key) && t == Triple(e.key, y.key, y.values) {
        var e, y :| e in gs && y in e.values && defined(y.key) && t == Triple(e.key, y.key, y.values);
        if e == gs[0] {
          assert Defined1<K, seq<nat>>(defined)(y);
          assert y in ys;
          var j :| 0 <= j < |ys| && ys[j] == y;
          assert block[j] == t;
        } else {
          assert e in gs[1..];
        }
      }
    }
  }

  /** Every X entry of the two-key grouping over the rows holds the Y
      grouping of exactly the rows with its X key. */
  lemma NestedEntries<K>(xs: seq<K>, ys: seq<K>)
    requires |xs| == |ys|
    ensures forall e | e in NestedGroupBy(Interval(0, |xs|), xs, ys) ::
      InRange(Filter(Interval(0, |xs|), HasKey(xs, e.key)), ys) &&
      e.values == GroupBy(Filter(Interval(0, |xs|), HasKey(xs, e.key)), ys)
  {
    forall e | e in NestedGroupBy(Interval(0, |xs|), xs, ys)
      ensures InRange(Filter(Interval(0, |xs|), HasKey(xs, e.key)), ys) &&
              e.values == GroupBy(Filter(Interval(0, |xs|), HasKey(xs, e.key)), ys)
    {
      NestedEntry(xs, ys, e);
    }
  }

  /** One entry of the two-key grouping over the rows. */
  lemma NestedEntry<K>(xs: seq<K>, ys: seq<K>, e: Entry<K, seq<Pair<K>>>)
    requires |xs| == |ys| && e in NestedGroupBy(Interval(0, |xs|), xs, ys)
    ensures InRange(Filter(Interval(0, |xs|), HasKey(xs, e.key)), ys)
    ensures e.values == GroupBy(Filter(Interval(0, |xs|), HasKey(xs, e.key)), ys)
  {
    var rows := Interval(0, |xs|);
    var gx := GroupBy(rows, xs);
    var nested := NestedGroupBy(rows, xs, ys);
    var a :| 0 <= a < |nested| && nested[a] == e;
    NestedAt(rows, xs, ys);
    assert e.key == gx[a].key && e.values == GroupBy(gx[a].values, ys);
    assert gx[a].values == Filter(rows, HasKey(xs, e.key)) by {
      GroupByMembers(rows, xs);
      assert gx[a] in gx;
    }
    RowsInRange(xs, ys, HasKey(xs, e.key));
  }

  lemma RowsInRange<K>(xs: seq<K>, ys: seq<K>, p: nat -> bool)
    requires |xs| == |ys|
    ensures InRange(Filter(Interval(0, |xs|), p), ys)
  {
  }

  /** Every triple of group2 has defined keys and holds exactly, in row
      order, the rows with both of its keys. */
  lemma Group2Members<K>(xs: seq<K>, ys: seq<K>, defined: K -> bool)
    requires |xs| == |ys|
    ensures forall t | t in Group2(xs, ys, defined) :: TripleOk(t, xs, ys, defined)
  {
    var rows := Interval(0, |xs|);
    var gs := Filter(NestedGroupBy(rows, xs, ys), Defined1(defined));
    NestedEntries(xs, ys);
    forall t | t in Group2(xs, ys, defined) ensures TripleOk(t, xs, ys, defined) {
      FlattenMembers(gs, defined, t);
      var e, y :| e in gs && y in e.values && defined(y.key) && t == Triple(e.key, y.key, y.values);
      var gx := Filter(rows, HasKey(xs, e.key));
      GroupByMembers(gx, ys);
      assert y.values == Filter(gx, HasKey(ys, y.key)) && y.values != [];
      FilterFilter(rows, HasKey(xs, e.key), HasKey(ys, y.key), HasKeys(xs, ys, e.key, y.key));
    }
  }

  /** Every row whose X key and Y key are both defined is in some triple. */
  lemma Group2Covers<K>(xs: seq<K>, ys: seq<K>, defined: K -> bool)
    requires |xs| == |ys|
    ensures forall i :: 0 <= i < |xs| && defined(xs[i]) && defined(ys[i]) ==>
      exists t :: t in Group2(xs, ys, defined) && i in t.values
  {
    var rows := Interval(0, |xs|);
    var gx := GroupBy(rows, xs);
    var nested := NestedGroupBy(rows, xs, ys);
    var gs := Filter(nested, Defined1(defined));
    GroupByMembers(rows, xs);
    GroupByCovers(rows, xs);
    forall i | 0 <= i < |xs| && defined(xs[i]) && defined(ys[i])
      ensures exists t :: t in Group2(xs, ys, defined) && i in t.values
    {
      assert i in rows;
      var g :| g in gx && g.key == xs[i];
      var a :| 0 <= a < |gx| && gx[a] == g;
      var e := nested[a];
      assert e in nested && Defined1<K, seq<Pair<K>>>(defined)(e);
      assert e in gs;
      assert HasKey(xs, g.key)(i);
      assert i in g.values;
      GroupByMembers(g.values, ys);
      GroupByCovers(g.values, ys);
      var y :| y in e.values && y.key == ys[i];
      assert HasKey(ys, y.key)(i);
      assert i in y.values;
      assert Defined1<K, seq<nat>>(defined)(y);
      var t := Triple(e.key, y.key, y.values);
      FlattenMembers(gs, defined, t);
    }
  }

  lemma {:induction false} FlattenOrdered<K>(gs: seq<Entry<K, seq<Pair<K>>>>, xs: seq<K>, defined: K -> bool)
    requires ByFirstOccurrence(gs, xs)
    requires forall e | e in gs :: DistinctKeys(e.values) && ByFirstMember(e.values)
    ensures TriplesOrdered(Flatten(gs, defined), xs)
  {
    if gs != [] {
      var D := Defined1<K, seq<nat>>(defined);
      var gy := Filter(gs[0].values, D);
      assert gs[0] in gs;
      FilterDistinctKeys(gs[0].values, D);
      FilterByFirstMember(gs[0].values, D);
      var block := Triples(gs[0].key, gy);
      var tail := Flatten(gs[1..], defined);
      assert ByFirstOccurrence(gs[1..], xs) by {
        forall a, b | 0 <= a < b < |gs[1..]|
          ensures IndexOf(xs, gs[1..][a].key) < IndexOf(xs, gs[1..][b].key)
        {
          assert gs[1..][a] == gs[a + 1] && gs[1..][b] == gs[b + 1];
        }
      }
      FlattenOrdered(gs[1..], xs, defined);
      var ts := Flatten(gs, defined);
      assert ts == block + tail;
      forall p, q | 0 <= p < q < |ts|
        ensures (ts[p].keyX == ts[q].keyX ==>
                   ts[p].keyY != ts[q].keyY && ts[p].values != [] && ts[q].values != [] &&
                   ts[p].values[0] < ts[q].values[0]) &&
                (ts[p].keyX != ts[q].keyX ==> IndexOf(xs, ts[p].keyX) < IndexOf(xs, ts[q].keyX))
      {
        if q < |block| {
          assert ts[p] == block[p] && ts[q] == block[q];
        } else if p < |block| {
          assert ts[p] == block[p];
          assert ts[q] == tail[q - |block|];
          assert ts[q] in tail;
          FlattenMembers(gs[1..], defined, ts[q]);
          var e, y :| e in gs[1..] && y in e.values && defined(y.key) && ts[q] == Triple(e.key, y.key, y.values);
          var b :| 0 <= b < |gs[1..]| && gs[1..][b] == e;
          assert gs[b + 1] == e;
        } else {
          assert ts[p] == tail[p - |block|] && ts[q] == tail[q - |block|];
        }
      }
    }
  }

  /** group2's triples are ordered by X entry first and by Y entry within it,
      and no (X key, Y key) pair occurs twice. */
  lemma Group2Order<K>(xs: seq<K>, ys: seq<K>, defined: K -> bool)
    requires |xs| == |ys|
    ensures TriplesOrdered(Group2(xs, ys, defined), xs)
  {
    var rows := Interval(0, |xs|);
    var gx := GroupBy(rows, xs);
    var nested := NestedGroupBy(rows, xs, ys);
    var gs := Filter(nested, Defined1(defined));
    GroupByFirstOccurrence(xs);
    assert ByFirstOccurrence(nested, xs) by {
      forall a, b | 0 <= a < b < |nested| ensures IndexOf(xs, nested[a].key) < IndexOf(xs, nested[b].key) {
        assert nested[a].key == gx[a].key && nested[b].key == gx[b].key;
      }
    }
    FilterByFirstOccurrence(nested, xs, Defined1(defined));
    NestedEntries(xs, ys);
    forall e | e in gs ensures DistinctKeys(e.values) && ByFirstMember(e.values) {
      var g := Filter(rows, HasKey(xs, e.key));
      FilterIncreasing(rows, HasKey(xs, e.key));
      GroupByKeysDistinct(g, ys);
      GroupByOrder(g, ys);
    }
    FlattenOrdered(gs, xs, defined);
  }
}
