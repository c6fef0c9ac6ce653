/** Facet restriction in src/transforms/group.js: `regroup` subdivides the
    global group list by each facet's row index, `subset2`/`subset3` restrict
    one group to a facet, and `nonempty2`/`nonempty3` drop the groups left
    empty. A facet is the sequence of the row indices it holds. */
module Facets {
  import opened Seqs
  import opened Grouping

  // ---------------------------------------------------------------------
  // subset2, subset3, nonempty2, nonempty3

  /** `subset2(facet)`: keeps the key and, in their order, the members that
      are rows of the facet. */
  function Subset2<K>(facet: seq<nat>): Pair<K> -> Pair<K>
  {
    var f := set i | i in facet;
    (e: Pair<K>) => Entry(e.key, Filter(e.values, (i: nat) => i in f))
  }

  /** `subset3(facet)`: keeps both keys and, in their order, the members that
      are rows of the facet. */
  function Subset3<K>(facet: seq<nat>): Triple<K> -> Triple<K>
  {
    var f := set i | i in facet;
    (t: Triple<K>) => Triple(t.keyX, t.keyY, Filter(t.values, (i: nat) => i in f))
  }

  /** `nonempty2`: the group has a member. */
  predicate Nonempty2<K>(e: Pair<K>)
  {
    |e.values| > 0
  }

  /** `nonempty3`: the group has a member. */
  predicate Nonempty3<K>(t: Triple<K>)
  {
    |t.values| > 0
  }

  /** subset2 keeps the key; the new members are the old members that lie in
      the facet, in their original order. */
  lemma Subset2Keeps<K>(facet: seq<nat>, e: Pair<K>)
    ensures Subset2(facet)(e).key == e.key
    ensures IsSubseq(Subset2(facet)(e).values, e.values)
    ensures forall i :: i in Subset2(facet)(e).values <==> i in e.values && i in facet
  {
    var f := set i | i in facet;
    FilterIsSubseq(e.values, (i: nat) => i in f);
  }

  /** subset3 keeps both keys; the new members are the old members that lie
      in the facet, in their original order. */
  lemma Subset3Keeps<K>(facet: seq<nat>, t: Triple<K>)
    ensures Subset3(facet)(t).keyX == t.keyX && Subset3(facet)(t).keyY == t.keyY
    ensures IsSubseq(Subset3(facet)(t).values, t.values)
    ensures forall i :: i in Subset3(facet)(t).values <==> i in t.values && i in facet
  {
    var f := set i | i in facet;
    FilterIsSubseq(t.values, (i: nat) => i in f);
  }

  /** Restricting a group to a facet that holds all of its members leaves
      it unchanged. */
  lemma Subset2Whole<K>(facet: seq<nat>, e: Pair<K>)
    requires forall i | i in e.values :: i in facet
    ensures Subset2(facet)(e) == e
  {
    var f := set i | i in facet;
    FilterAll(e.values, (i: nat) => i in f);
  }

  /** As Subset2Whole, for a triple. */
  lemma Subset3Whole<K>(facet: seq<nat>, t: Triple<K>)
    requires forall i | i in t.values :: i in facet
    ensures Subset3(facet)(t) == t
  {
    var f := set i | i in facet;
    FilterAll(t.values, (i: nat) => i in f);
  }

  // ---------------------------------------------------------------------
  // regroup

  /** `groups.map(subset(facet)).filter(nonempty)`: the groups of one facet. */
  function Restrict<G>(groups: seq<G>, facet: seq<nat>, subset: seq<nat> -> G -> G, nonempty: G -> bool): seq<G>
  {
    Filter(Map(groups, subset(facet)), nonempty)
  }

  /** The groups of each facet, facet by facet. */
  function Slices<G>(groups: seq<G>, index: seq<seq<nat>>, subset: seq<nat> -> G -> G, nonempty: G -> bool): seq<seq<G>>
  {
    Map(index, (facet: seq<nat>) => Restrict(groups, facet, subset, nonempty))
  }

  /** `regroup` loops over the facets of `index`; each facet restricts every
      global group to its rows and drops the empty ones, records the range of
      output positions those groups take (`offsetRange(g, k)`: from the
      running count `k` on, one position per group) and appends them. The
      output `data` is the facets' groups one facet after another, and facet
      `j`'s range holds exactly the positions of its groups. */
  method Regroup<G>(groups: seq<G>, index: seq<seq<nat>>, subset: seq<nat> -> G -> G, nonempty: G -> bool)
    returns (groupData: seq<G>, groupIndex: seq<seq<nat>>)
    ensures groupData == Concat(Slices(groups, index, subset, nonempty))
    ensures groupIndex == Ranges(Slices(groups, index, subset, nonempty))
  {
    ghost var slices := Slices(groups, index, subset, nonempty);
    groupIndex := [];
    groupData := [];
    var k := 0;
    for j := 0 to |index|
      invariant groupData == Concat(slices[..j])
      invariant k == |groupData|
      invariant groupIndex == Ranges(slices)[..j]
    {
      var g := Filter(Map(groups, subset(index[j])), nonempty);
      SliceStep(groups, index, subset, nonempty, j);
      groupIndex := groupIndex + [Interval(k, |g|)];
      groupData := groupData + g;
      k := |groupData|;
    }
    assert slices[..|index|] == slices;
    assert Ranges(slices)[..|index|] == Ranges(slices);
  }

  /** One iteration of regroup's loop: facet `j`'s groups are appended to
      the output so far, and their range to the ranges so far. */
  lemma SliceStep<G>(groups: seq<G>, index: seq<seq<nat>>, subset: seq<nat> -> G -> G, nonempty: G -> bool, j: nat)
    requires j < |index|
    ensures Slices(groups, index, subset, nonempty)[j] == Filter(Map(groups, subset(index[j])), nonempty)
    ensures Concat(Slices(groups, index, subset, nonempty)[..j + 1]) ==
            Concat(Slices(groups, index, subset, nonempty)[..j]) + Slices(groups, index, subset, nonempty)[j]
    ensures Ranges(Slices(groups, index, subset, nonempty))[..j + 1] ==
            Ranges(Slices(groups, index, subset, nonempty))[..j] +
            [Interval(|Concat(Slices(groups, index, subset, nonempty)[..j])|, |Slices(groups, index, subset, nonempty)[j]|)]
  {
    var slices := Slices(groups, index, subset, nonempty);
    ConcatSnoc(slices, j);
    var rs := Ranges(slices);
    assert rs[..j + 1] == rs[..j] + [rs[j]];
  }

  /** The ranges recorded by regroup, one after another, are exactly the
      positions 0 .. |groupData|-1: each facet's range starts where the
      previous one ends (the first at 0), they follow facet order, do not
      overlap, and leave no position uncovered. A facet with no groups gets
      an empty range at the current offset. */
  lemma RegroupTiles<G>(groups: seq<G>, index: seq<seq<nat>>, subset: seq<nat> -> G -> G, nonempty: G -> bool)
    ensures |Ranges(Slices(groups, index, subset, nonempty))| == |index|
    ensures Concat(Ranges(Slices(groups, index, subset, nonempty))) ==
            Interval(0, |Concat(Slices(groups, index, subset, nonempty))|)
  {
    RangesTile(Slices(groups, index, subset, nonempty));
  }

  /** Facet `j`'s range has one position per group of the facet, and the
      group at its `t`-th position is the facet's `t`-th group. */
  lemma RegroupSliceAt<G>(groups: seq<G>, index: seq<seq<nat>>, subset: seq<nat> -> G -> G, nonempty: G -> bool, j: nat, t: nat)
    requires j < |index|
    ensures |Ranges(Slices(groups, index, subset, nonempty))[j]| == |Restrict(groups, index[j], subset, nonempty)|
    ensures t < |Restrict(groups, index[j], subset, nonempty)| ==>
      Ranges(Slices(groups, index, subset, nonempty))[j][t] < |Concat(Slices(groups, index, subset, nonempty))| &&
      Concat(Slices(groups, index, subset, nonempty))[Ranges(Slices(groups, index, subset, nonempty))[j][t]] ==
      Restrict(groups, index[j], subset, nonempty)[t]
  {
    var slices := Slices(groups, index, subset, nonempty);
    if t < |slices[j]| {
      ConcatAt(slices, j, t);
    }
  }

  /** Positions in an earlier facet's range come before those in a later
      facet's range. */
  lemma RegroupRangesOrdered<G>(groups: seq<G>, index: seq<seq<nat>>, subset: seq<nat> -> G -> G, nonempty: G -> bool,
                                 j1: nat, j2: nat, p: nat, q: nat)
    requires j1 < j2 < |index|
    requires p in Ranges(Slices(groups, index, subset, nonempty))[j1]
    requires q in Ranges(Slices(groups, index, subset, nonempty))[j2]
    ensures p < q
  {
    var slices := Slices(groups, index, subset, nonempty);
    ConcatOffsetMono(slices, j1, j2);
  }

  /** regroup never outputs a group that `nonempty` rejects, and every group
      it outputs is a global group restricted to some facet. */
  lemma RegroupNonempty<G>(groups: seq<G>, index: seq<seq<nat>>, subset: seq<nat> -> G -> G, nonempty: G -> bool)
    ensures forall p | 0 <= p < |Concat(Slices(groups, index, subset, nonempty))| ::
      nonempty(Concat(Slices(groups, index, subset, nonempty))[p]) &&
      exists j, a :: 0 <= j < |index| && 0 <= a < |groups| &&
        Concat(Slices(groups, index, subset, nonempty))[p] == subset(index[j])(groups[a])
  {
    var slices := Slices(groups, index, subset, nonempty);
    forall p | 0 <= p < |Concat(slices)|
      ensures nonempty(Concat(slices)[p]) &&
        exists j, a :: 0 <= j < |index| && 0 <= a < |groups| && Concat(slices)[p] == subset(index[j])(groups[a])
    {
      ConcatMember(slices, p);
      var j, t :| 0 <= j < |slices| && 0 <= t < |slices[j]| && Concat(slices)[p] == slices[j][t];
      var m := Map(groups, subset(index[j]));
      assert slices[j][t] in slices[j];
      assert slices[j][t] in m;
      var a :| 0 <= a < |m| && m[a] == slices[j][t];
    }
  }

  /** Within one facet, the groups keep the relative order of the global
      list and only those left empty are dropped. */
  lemma RestrictOrder<G>(groups: seq<G>, facet: seq<nat>, subset: seq<nat> -> G -> G, nonempty: G -> bool)
    ensures IsSubseq(Restrict(groups, facet, subset, nonempty), Map(groups, subset(facet)))
    ensures forall a | 0 <= a < |groups| ::
      nonempty(subset(facet)(groups[a])) ==> subset(facet)(groups[a]) in Restrict(groups, facet, subset, nonempty)
  {
    FilterIsSubseq(Map(groups, subset(facet)), nonempty);
    forall a | 0 <= a < |groups| && nonempty(subset(facet)(groups[a]))
      ensures subset(facet)(groups[a]) in Restrict(groups, facet, subset, nonempty)
    {
      assert Map(groups, subset(facet))[a] == subset(facet)(groups[a]);
    }
  }

  /** With a single facet, regroup's output is that facet's groups and its
      index the one range covering them. */
  lemma RegroupSingle<G>(groups: seq<G>, facet: seq<nat>, subset: seq<nat> -> G -> G, nonempty: G -> bool)
    ensures Concat(Slices(groups, [facet], subset, nonempty)) == Restrict(groups, facet, subset, nonempty)
    ensures Ranges(Slices(groups, [facet], subset, nonempty)) == [Interval(0, |Restrict(groups, facet, subset, nonempty)|)]
  {
    var slices := Slices(groups, [facet], subset, nonempty);
    assert slices == [Restrict(groups, facet, subset, nonempty)];
    assert slices[..0] == [];
    assert Concat(slices) == Concat(slices[..0]) + slices[0];
  }

  // ---------------------------------------------------------------------
  // The one-key and two-key transforms, facet by facet

  /** In each facet of the one-key transform, every group has a defined key
      and holds, in increasing row order, exactly the facet's rows with that
      key. */
  lemma FacetGroups1<K>(xs: seq<K>, defined: K -> bool, facet: seq<nat>)
    ensures forall h | h in Restrict(Group1(xs, defined), facet, Subset2, Nonempty2) ::
      defined(h.key) && h.values != [] && StrictlyIncreasing(h.values) &&
      forall i :: i in h.values <==> 0 <= i < |xs| && xs[i] == h.key && i in facet
  {
    var gs := Group1(xs, defined);
    var m := Map(gs, Subset2(facet));
    Group1Members(xs, defined);
    forall h | h in Restrict(gs, facet, Subset2, Nonempty2)
      ensures defined(h.key) && h.values != [] && StrictlyIncreasing(h.values) &&
              forall i :: i in h.values <==> 0 <= i < |xs| && xs[i] == h.key && i in facet
    {
      assert h in m;
      var a :| 0 <= a < |m| && m[a] == h;
      var g := gs[a];
      assert g in gs;
      Subset2Keeps(facet, g);
      var f := set i | i in facet;
      FilterIncreasing(g.values, (i: nat) => i in f);
    }
  }

  /** In each facet of the one-key transform, no key occurs twice and the
      groups are in the order in which their keys first occur in the data. */
  lemma FacetKeys1<K>(xs: seq<K>, defined: K -> bool, facet: seq<nat>)
    ensures DistinctKeys(Restrict(Group1(xs, defined), facet, Subset2, Nonempty2))
    ensures ByFirstOccurrence(Restrict(Group1(xs, defined), facet, Subset2, Nonempty2), xs)
  {
    var gs := Group1(xs, defined);
    var m := Map(gs, Subset2(facet));
    Group1KeyOrder(xs, defined);
    forall a | 0 <= a < |gs| ensures m[a].key == gs[a].key {
      Subset2Keeps(facet, gs[a]);
    }
    FilterDistinctKeys(m, Nonempty2);
    FilterByFirstOccurrence(m, xs, Nonempty2);
  }

  /** In each facet of the two-key transform, every group has defined keys
      and holds, in increasing row order, exactly the facet's rows with both
      of its keys. */
  lemma FacetGroups2<K>(xs: seq<K>, ys: seq<K>, defined: K -> bool, facet: seq<nat>)
    requires |xs| == |ys|
    ensures forall t | t in Restrict(Group2(xs, ys, defined), facet, Subset3, Nonempty3) ::
      defined(t.keyX) && defined(t.keyY) && t.values != [] && StrictlyIncreasing(t.values) &&
      forall i :: i in t.values <==> 0 <= i < |xs| && xs[i] == t.keyX && ys[i] == t.keyY && i in facet
  {
    var ts := Group2(xs, ys, defined);
    var m := Map(ts, Subset3(facet));
    Group2Members(xs, ys, defined);
    forall t | t in Restrict(ts, facet, Subset3, Nonempty3)
      ensures defined(t.keyX) && defined(t.keyY) && t.values != [] && StrictlyIncreasing(t.values) &&
              forall i :: i in t.values <==> 0 <= i < |xs| && xs[i] == t.keyX && ys[i] == t.keyY && i in facet
    {
      assert t in m && Nonempty3(t);
      var a :| 0 <= a < |m| && m[a] == t;
      assert ts[a] in ts;
      FacetTriple(xs, ys, defined, facet, ts[a]);
    }
  }

  /** One triple of group2 restricted to a facet: its keys are defined, and
      its members are, in increasing order, the facet's rows with both of
      its keys. */
  lemma FacetTriple<K>(xs: seq<K>, ys: seq<K>, defined: K -> bool, facet: seq<nat>, u: Triple<K>)
    requires |xs| == |ys| && TripleOk(u, xs, ys, defined)
    ensures defined(Subset3(facet)(u).keyX) && defined(Subset3(facet)(u).keyY)
    ensures StrictlyIncreasing(Subset3(facet)(u).values)
    ensures forall i :: i in Subset3(facet)(u).values <==>
      0 <= i < |xs| && xs[i] == u.keyX && ys[i] == u.keyY && i in facet
  {
    Subset3Keeps(facet, u);
    var rows := Interval(0, |xs|);
    var has := HasKeys(xs, ys, u.keyX, u.keyY);
    FilterIncreasing(rows, has);
    var f := set i | i in facet;
    FilterIncreasing(u.values, (i: nat) => i in f);
    forall i | i in u.values ensures 0 <= i < |xs| && xs[i] == u.keyX && ys[i] == u.keyY {
      assert has(i);
    }
    forall i | 0 <= i < |xs| && xs[i] == u.keyX && ys[i] == u.keyY ensures i in u.values {
      assert i in rows && has(i);
    }
  }

  /** Without faceting the index is one facet holding every row: restricting
      group1's groups to it changes nothing and drops nothing. */
  lemma Unfaceted1<K>(xs: seq<K>, defined: K -> bool)
    ensures Restrict(Group1(xs, defined), Interval(0, |xs|), Subset2, Nonempty2) == Group1(xs, defined)
  {
    var gs := Group1(xs, defined);
    var facet := Interval(0, |xs|);
    var m := Map(gs, Subset2(facet));
    Group1Members(xs, defined);
    forall a | 0 <= a < |gs| ensures m[a] == gs[a] {
      assert gs[a] in gs;
      Subset2Whole(facet, gs[a]);
    }
    assert m == gs;
    forall g | g in gs ensures Nonempty2(g) {
    }
    FilterAll(gs, Nonempty2);
  }

  /** Without faceting, restricting group2's triples to the one facet
      holding every row changes nothing and drops nothing. */
  lemma Unfaceted2<K>(xs: seq<K>, ys: seq<K>, defined: K -> bool)
    requires |xs| == |ys|
    ensures Restrict(Group2(xs, ys, defined), Interval(0, |xs|), Subset3, Nonempty3) == Group2(xs, ys, defined)
  {
    var ts := Group2(xs, ys, defined);
    var facet := Interval(0, |xs|);
    var m := Map(ts, Subset3(facet));
    Group2Members(xs, ys, defined);
    forall a | 0 <= a < |ts| ensures m[a] == ts[a] {
      assert ts[a] in ts && TripleOk(ts[a], xs, ys, defined);
      Subset3Whole(facet, ts[a]);
    }
    assert m == ts;
    forall t | t in ts ensures Nonempty3(t) {
      assert TripleOk(t, xs, ys, defined);
    }
    FilterAll(ts, Nonempty3);
  }
}
