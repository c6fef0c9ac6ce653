/** The size channels and public wrappers of src/transforms/group.js:
    `length2`/`length3`, `maybeNormalizeLength2` with its lazily captured
    data length, the transforms that `group1`/`group2` compose, and the
    channel assignment of `groupX`, `groupY` and `group`. */
module Channels {
  import opened Seqs
  import opened Grouping
  import opened Facets

  datatype Option<T> = None | Some(value: T)

  /** A JavaScript number, computed exactly (no rounding) and without the
      sign of zero. */
  datatype Number = NaN | Finite(v: real) | Infinite(negative: bool)

  /** JavaScript truthiness of a number: not 0 and not NaN. */
  predicate Truthy(x: Number)
  {
    x.Infinite? || (x.Finite? && x.v != 0.0)
  }

  /** `undefined` becomes NaN in arithmetic. */
  function ToNumber(n: Option<nat>): (r: Number)
    ensures r.NaN? <==> n.None?
    ensures n.Some? ==> r == Finite(n.value as real)
  {
    if n.None? then NaN else Finite(n.value as real)
  }

  /** JavaScript `*`. */
  function Mul(a: Number, b: Number): (r: Number)
    ensures a.Finite? && b.Finite? ==> r == Finite(a.v * b.v)
    ensures a.NaN? || b.NaN? ==> r.NaN?
  {
    if a.NaN? || b.NaN? then NaN
    else if a.Finite? && b.Finite? then Finite(a.v * b.v)
    else if a.Infinite? && b.Infinite? then Infinite(a.negative != b.negative)
    else if a.Infinite? then (if b.v == 0.0 then NaN else Infinite(a.negative != (b.v < 0.0)))
    else if a.v == 0.0 then NaN else Infinite(b.negative != (a.v < 0.0))
  }

  /** JavaScript `/`. */
  function Div(a: Number, b: Number): (r: Number)
    ensures a.Finite? && b.Finite? && b.v != 0.0 ==> r == Finite(a.v / b.v)
    ensures a.NaN? || b.NaN? ==> r.NaN?
    ensures a == Finite(0.0) && b == Finite(0.0) ==> r.NaN?
    ensures a.Finite? && a.v != 0.0 && b == Finite(0.0) ==> r == Infinite(a.v < 0.0)
  {
    match (a, b)
    case (NaN, _) => NaN
    case (_, NaN) => NaN
    case (Infinite(_), Infinite(_)) => NaN
    case (Infinite(s), Finite(y)) => Infinite(s != (y < 0.0))
    case (Finite(_), Infinite(_)) => Finite(0.0)
    case (Finite(x), Finite(y)) =>
      if y != 0.0 then Finite(x / y)
      else if x == 0.0 then NaN
      else Infinite(x < 0.0)
  }

  // ---------------------------------------------------------------------
  // length2, length3 and their label

  const Frequency: string := "Frequency"

  /** `length2([, {length}])`: the number of members of a one-key group. */
  function Length2<K>(g: Pair<K>): (r: nat)
    ensures r > 0 <==> Nonempty2(g)
  {
    |g.values|
  }

  /** `length3([,, {length}])`: the number of members of a two-key group. */
  function Length3<K>(t: Triple<K>): (r: nat)
    ensures r > 0 <==> Nonempty3(t)
  {
    |t.values|
  }

  /** The `normalize` option: absent, a boolean, or any other value already
      coerced to a number (`+normalize`). */
  datatype Normalize = Unset | Flag(on: bool) | Scale(x: Number)

  /** `k = normalize === true ? 100 : +normalize`. */
  function ScaleFactor(normalize: Normalize): (k: Number)
    ensures normalize == Flag(true) ==> k == Finite(100.0)
    ensures normalize == Unset ==> !Truthy(k)
    ensures normalize == Flag(false) ==> !Truthy(k)
    ensures normalize.Scale? ==> k == normalize.x
  {
    match normalize
    case Unset => NaN
    case Flag(on) => if on then Finite(100.0) else Finite(0.0)
    case Scale(x) => x
  }

  /** The label of the normalized channel: a percentage exactly when the
      scale is 100. */
  function NormalizedLabel(k: Number): (text: string)
    ensures text == "Frequency (%)" <==> k == Finite(100.0)
    ensures text == Frequency <==> k != Finite(100.0)
  {
    Frequency + (if k == Finite(100.0) then " (%)" else "")
  }

  // ---------------------------------------------------------------------
  // maybeNormalizeLength2

  /** The normalized size channel of `maybeNormalizeLength2`: a scale `k`
      fixed when the channel is made, and the data length `n`, unset
      until the transform captures it. */
  class NormalizedLength2 {
    const k: Number
    var n: Option<nat>

    constructor (k: Number)
      requires Truthy(k)
      ensures this.k == k && n == None
    {
      this.k := k;
      n := None;
    }

    /** The callback `({length}) => void (n = length)`, which the transform
        calls with the data before grouping. */
    method Capture(length: nat)
      modifies this
      ensures n == Some(length)
    {
      n := Some(length);
    }

    /** `length * k / n` for a group. Before the data length is captured
        the value is NaN; after it, the group's share of the data scaled by
        `k` (a number or an infinity). */
    function Value<K>(g: Pair<K>): (r: Number)
      reads this
      ensures n.None? ==> r.NaN?
      ensures n.Some? && n.value > 0 && k.Finite? ==>
        r == Finite((|g.values| as real) * k.v / (n.value as real))
      ensures n == Some(0) && Truthy(k) && |g.values| > 0 ==> r.Infinite?
    {
      Div(Mul(Finite(|g.values| as real), k), ToNumber(n))
    }

    function Label(): string
    {
      NormalizedLabel(k)
    }
  }

  /** A size channel: `length2`, or the normalized one. */
  datatype Size = Length2Channel | Normalized(channel: NormalizedLength2)

  /** `maybeNormalizeLength2(normalize)`: `length2` when the scale is 0 or
      NaN; otherwise a fresh normalized channel with that scale, together
      with the callback (here the channel itself) that captures `n`. */
  method MaybeNormalizeLength2(normalize: Normalize) returns (y: Size, normalizeY: Option<NormalizedLength2>)
    ensures !Truthy(ScaleFactor(normalize)) ==> y == Length2Channel && normalizeY == None
    ensures Truthy(ScaleFactor(normalize)) ==>
      y.Normalized? && normalizeY == Some(y.channel) && fresh(y.channel) &&
      y.channel.k == ScaleFactor(normalize) && y.channel.n == None
  {
    var k := ScaleFactor(normalize);
    if !Truthy(k) {
      return Length2Channel, None;
    }
    var c := new NormalizedLength2(k);
    return Normalized(c), Some(c);
  }

  /** The value of a size channel for a one-key group. */
  function SizeValue<K>(y: Size, g: Pair<K>): (r: Number)
    reads if y.Normalized? then {y.channel} else {}
    ensures y.Length2Channel? ==> r == Finite(Length2(g) as real)
  {
    match y
    case Length2Channel => Finite(Length2(g) as real)
    case Normalized(c) => c.Value(g)
  }

  /** The label of a size channel. */
  function SizeLabel(y: Size): (text: string)
    ensures y.Length2Channel? ==> text == Frequency
    ensures text == "Frequency (%)" <==> y.Normalized? && y.channel.k == Finite(100.0)
  {
    match y
    case Length2Channel => Frequency
    case Normalized(c) => c.Label()
  }

  /** The sum of the normalized shares of a list of groups. */
  function Shares<K>(gs: seq<Pair<K>>, k: real, n: nat): real
    requires n > 0
  {
    if gs == [] then 0.0 else (|gs[0].values| as real) * k / (n as real) + Shares(gs[1..], k, n)
  }

  lemma {:induction false} SharesTotal<K>(gs: seq<Pair<K>>, k: real, n: nat)
    requires n > 0
    ensures Shares(gs, k, n) == (Total(gs) as real) * k / (n as real)
  {
    if gs != [] {
      SharesTotal(gs[1..], k, n);
      var a, t := |gs[0].values| as real, Total(gs[1..]) as real;
      assert a * k / (n as real) + t * k / (n as real) == (a + t) * k / (n as real);
    }
  }

  /** With `n` the full data length, the normalized shares of the one-key
      groups add up to `k` times the fraction of rows whose key is defined. */
  lemma Group1SharesSum<K>(xs: seq<K>, defined: K -> bool, k: real)
    requires |xs| > 0
    ensures Shares(Group1(xs, defined), k, |xs|) == (DefinedRows(xs, defined) as real) * k / (|xs| as real)
  {
    Group1Total(xs, defined);
    SharesOfTotal(Group1(xs, defined), DefinedRows(xs, defined), k, |xs|);
  }

  lemma SharesOfTotal<K>(gs: seq<Pair<K>>, m: nat, k: real, n: nat)
    requires n > 0 && Total(gs) == m
    ensures Shares(gs, k, n) == (m as real) * k / (n as real)
  {
    SharesTotal(gs, k, n);
  }

  /** The shares add up to `k` when every key is defined. */
  lemma Group1SharesWhole<K>(xs: seq<K>, defined: K -> bool, k: real)
    requires |xs| > 0
    requires forall i | 0 <= i < |xs| :: defined(xs[i])
    ensures Shares(Group1(xs, defined), k, |xs|) == k
  {
    AllDefined(xs, defined);
    Group1Total(xs, defined);
    SharesOfAll(Group1(xs, defined), |xs|, k);
  }

  /** For a non-zero `k` the converse holds too: the shares add up to `k`
      only when every key is defined, since a row with a missing key counts
      in `n` and in no group. */
  lemma Group1SharesWholeOnly<K>(xs: seq<K>, defined: K -> bool, k: real)
    requires |xs| > 0 && k != 0.0
    requires Shares(Group1(xs, defined), k, |xs|) == k
    ensures forall i | 0 <= i < |xs| :: defined(xs[i])
  {
    Group1Total(xs, defined);
    SharesOfOnlyAll(Group1(xs, defined), |xs|, k);
    EveryRowDefined(xs, defined);
  }

  /** Groups whose shares add up to a non-zero `k` hold all `n` rows. */
  lemma SharesOfOnlyAll<K>(gs: seq<Pair<K>>, n: nat, k: real)
    requires n > 0 && k != 0.0 && Shares(gs, k, n) == k
    ensures Total(gs) == n
  {
    SharesTotal(gs, k, n);
    FullShare(Total(gs), n, k);
  }

  /** `m · k / n == k` with a non-zero `k` forces `m == n`. */
  lemma FullShare(m: nat, n: nat, k: real)
    requires n > 0 && k != 0.0
    requires (m as real) * k / (n as real) == k
    ensures m == n
  {
    var d, e := m as real, n as real;
    assert d * k == k * e;
    assert (d - e) * k == 0.0;
  }

  /** When every row has a defined key, every key is defined. */
  lemma EveryRowDefined<K>(xs: seq<K>, defined: K -> bool)
    requires DefinedRows(xs, defined) == |xs|
    ensures forall i | 0 <= i < |xs| :: defined(xs[i])
  {
    var rows := Interval(0, |xs|);
    FilterFull(rows, RowDefined(xs, defined));
    forall i | 0 <= i < |xs| ensures defined(xs[i]) {
      assert i in rows && RowDefined(xs, defined)(i);
    }
  }

  /** Groups that hold all `n` rows have shares adding up to `k`. */
  lemma SharesOfAll<K>(gs: seq<Pair<K>>, n: nat, k: real)
    requires n > 0 && Total(gs) == n
    ensures Shares(gs, k, n) == k
  {
    SharesTotal(gs, k, n);
    assert (Total(gs) as real) == (n as real);
    WholeShare(n, k);
  }

  /** When every key is defined, every row is a row with a defined key. */
  lemma AllDefined<K>(xs: seq<K>, defined: K -> bool)
    requires forall i | 0 <= i < |xs| :: defined(xs[i])
    ensures DefinedRows(xs, defined) == |xs|
  {
    var rows := Interval(0, |xs|);
    FilterAll(rows, RowDefined(xs, defined));
  }

  lemma WholeShare(n: nat, k: real)
    requires n > 0
    ensures (n as real) * k / (n as real) == k
  {
  }

  // ---------------------------------------------------------------------
  // The transforms composed by group1 and group2

  /** The transform of `group1`: capture the data length for the
      normalized channel if there is one, then group the rows by their key
      and regroup by facet. The data is given by its key column `xs`. */
  method Transform1<K(==)>(normalizeY: Option<NormalizedLength2>, xs: seq<K>, defined: K -> bool, index: seq<seq<nat>>)
    returns (groupData: seq<Pair<K>>, groupIndex: seq<seq<nat>>)
    modifies if normalizeY.Some? then {normalizeY.value} else {}
    ensures normalizeY.Some? ==> normalizeY.value.n == Some(|xs|)
    ensures normalizeY.Some? && |xs| > 0 && normalizeY.value.k.Finite? ==>
      forall p | 0 <= p < |groupData| ::
        normalizeY.value.Value(groupData[p]) ==
        Finite((|groupData[p].values| as real) * normalizeY.value.k.v / (|xs| as real))
    ensures groupData == Concat(Slices(Group1(xs, defined), index, Subset2, Nonempty2))
    ensures groupIndex == Ranges(Slices(Group1(xs, defined), index, Subset2, Nonempty2))
    ensures index == [Interval(0, |xs|)] ==>
      groupData == Group1(xs, defined) && groupIndex == [Interval(0, |groupData|)]
  {
    if normalizeY.Some? {
      normalizeY.value.Capture(|xs|);
    }
    groupData, groupIndex := Regroup(Group1(xs, defined), index, Subset2, Nonempty2);
    if index == [Interval(0, |xs|)] {
      Unfaceted1Output(xs, defined);
    }
  }

  /** Without faceting, the one-key transform outputs group1's groups, all in
      one range. */
  lemma Unfaceted1Output<K>(xs: seq<K>, defined: K -> bool)
    ensures Concat(Slices(Group1(xs, defined), [Interval(0, |xs|)], Subset2, Nonempty2)) == Group1(xs, defined)
    ensures Ranges(Slices(Group1(xs, defined), [Interval(0, |xs|)], Subset2, Nonempty2)) ==
            [Interval(0, |Group1(xs, defined)|)]
  {
    RegroupSingle(Group1(xs, defined), Interval(0, |xs|), Subset2, Nonempty2);
    Unfaceted1(xs, defined);
  }

  /** Without faceting, the normalized values of the groups the one-key
      transform outputs add up to `k` times the fraction of rows whose key
      is defined. */
  lemma UnfacetedShares1<K>(xs: seq<K>, defined: K -> bool, k: real)
    requires |xs| > 0
    ensures Shares(Concat(Slices(Group1(xs, defined), [Interval(0, |xs|)], Subset2, Nonempty2)), k, |xs|) ==
            (DefinedRows(xs, defined) as real) * k / (|xs| as real)
  {
    Unfaceted1Output(xs, defined);
    Group1SharesSum(xs, defined, k);
  }

  /** The transform of `group2`: group the rows by both keys and regroup by
      facet. The data is given by its two key columns. */
  method Transform2<K(==)>(xs: seq<K>, ys: seq<K>, defined: K -> bool, index: seq<seq<nat>>)
    returns (groupData: seq<Triple<K>>, groupIndex: seq<seq<nat>>)
    requires |xs| == |ys|
    ensures groupData == Concat(Slices(Group2(xs, ys, defined), index, Subset3, Nonempty3))
    ensures groupIndex == Ranges(Slices(Group2(xs, ys, defined), index, Subset3, Nonempty3))
    ensures forall p | 0 <= p < |groupData| :: Length3(groupData[p]) > 0
    ensures index == [Interval(0, |xs|)] ==>
      groupData == Group2(xs, ys, defined) && groupIndex == [Interval(0, |groupData|)]
  {
    groupData, groupIndex := Regroup(Group2(xs, ys, defined), index, Subset3, Nonempty3);
    RegroupNonempty(Group2(xs, ys, defined), index, Subset3, Nonempty3);
    if index == [Interval(0, |xs|)] {
      RegroupSingle(Group2(xs, ys, defined), Interval(0, |xs|), Subset3, Nonempty3);
      Unfaceted2(xs, ys, defined);
    }
  }

  // ---------------------------------------------------------------------
  // groupX, groupY, group

  /** What an output channel shows: the group's first key (`maybeLabel(first,
      x)`), its second key (`maybeLabel(second, y)`), a size channel of a
      one-key group, or `length3`. */
  datatype Channel = First | Second | SizeOf(size: Size) | Length3Channel

  /** The label an output channel carries: `length2.label` (or the
      normalized channel's label) for a size channel and `length3.label` for
      `length3`. The key channels carry the label `maybeLabel` derives from
      their accessor, which is not part of this model (None). */
  function ChannelLabel(c: Channel): (text: Option<string>)
    ensures c == Length3Channel ==> text == Some(Frequency)
    ensures c == SizeOf(Length2Channel) ==> text == Some(Frequency)
    ensures c.SizeOf? ==> text == Some(SizeLabel(c.size))
    ensures c.First? || c.Second? ==> text.None?
    ensures text == Some("Frequency (%)") <==>
      c.SizeOf? && c.size.Normalized? && c.size.channel.k == Finite(100.0)
  {
    match c
    case First => None
    case Second => None
    case SizeOf(size) => Some(SizeLabel(size))
    case Length3Channel => Some(Frequency)
  }

  /** `groupX`: the key on x and the size on y. */
  function GroupXChannels(size: Size): (r: map<string, Channel>)
    ensures r.Keys == {"x", "y"}
    ensures r["x"] == First && r["y"] == SizeOf(size)
  {
    map["x" := First, "y" := SizeOf(size)]
  }

  /** `groupY`: the key on y and the size on x. */
  function GroupYChannels(size: Size): (r: map<string, Channel>)
    ensures r.Keys == {"x", "y"}
    ensures r["y"] == First && r["x"] == SizeOf(size)
  {
    map["y" := First, "x" := SizeOf(size)]
  }

  /** `groupX({x, normalize})`: the size channel of `maybeNormalizeLength2`
      on y, the key on x, and the callback the transform uses to capture the
      data length when the size is normalized. */
  method GroupX(normalize: Normalize) returns (channels: map<string, Channel>, normalizeY: Option<NormalizedLength2>)
    ensures channels.Keys == {"x", "y"} && channels["x"] == First && channels["y"].SizeOf?
    ensures channels["y"].size.Normalized? <==> Truthy(ScaleFactor(normalize))
    ensures normalizeY.None? <==> channels["y"] == SizeOf(Length2Channel)
    ensures normalizeY.Some? ==>
      channels["y"] == SizeOf(Normalized(normalizeY.value)) && fresh(normalizeY.value) &&
      normalizeY.value.k == ScaleFactor(normalize) && normalizeY.value.n == None
  {
    var y;
    y, normalizeY := MaybeNormalizeLength2(normalize);
    channels := GroupXChannels(y);
  }

  /** `groupY({y, normalize})`: as groupX with x and y exchanged. */
  method GroupY(normalize: Normalize) returns (channels: map<string, Channel>, normalizeY: Option<NormalizedLength2>)
    ensures channels.Keys == {"x", "y"} && channels["y"] == First && channels["x"].SizeOf?
    ensures channels["x"].size.Normalized? <==> Truthy(ScaleFactor(normalize))
    ensures normalizeY.None? <==> channels["x"] == SizeOf(Length2Channel)
    ensures normalizeY.Some? ==>
      channels["x"] == SizeOf(Normalized(normalizeY.value)) && fresh(normalizeY.value) &&
      normalizeY.value.k == ScaleFactor(normalize) && normalizeY.value.n == None
  {
    var x;
    x, normalizeY := MaybeNormalizeLength2(normalize);
    channels := GroupYChannels(x);
  }

  /** groupX and groupY assign the same two channels with x and y swapped. */
  lemma GroupXYSwap(size: Size)
    ensures GroupYChannels(size) == map["x" := GroupXChannels(size)["y"], "y" := GroupXChannels(size)["x"]]
  {
  }

  /** `group`: the X key on x, the Y key on y, and `length3` (never
      normalized) on the channel named by `out`, which is written last and
      so replaces x or y when `out` names one of them. */
  function GroupChannels(out: string): (r: map<string, Channel>)
    ensures r.Keys == {"x", "y", out}
    ensures r[out] == Length3Channel && ChannelLabel(r[out]) == Some(Frequency)
    ensures out != "x" ==> r["x"] == First
    ensures out != "y" ==> r["y"] == Second
    ensures forall c | c in r.Values :: !c.SizeOf?
  {
    map["x" := First, "y" := Second][out := Length3Channel]
  }
}
