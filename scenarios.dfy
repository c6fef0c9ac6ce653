/** A worked example of the one-key transform: four rows with keys "a",
    "a", "b" and a missing key, grouped without facets. */
module Scenarios {
  import opened Seqs
  import opened Grouping
  import opened Channels

  /** Key values of the example: "a", "b", and the missing value. */
  datatype Cell = A | B | Missing

  /** The key column of the example. */
  function Keys(): seq<Cell>
  {
    [A, A, B, Missing]
  }

  function IsDefined(c: Cell): bool
  {
    c != Missing
  }

  lemma FilterStep<T>(s: seq<T>, p: T -> bool)
    requires s != []
    ensures Filter(s, p) == (if p(s[0]) then [s[0]] else []) + Filter(s[1..], p)
  {
  }

  /** Filtering the rows 3, 2 .. 3, 1 .. 3 and 0 .. 3 of the example. */
  lemma FilterRows(p: nat -> bool)
    ensures Filter<nat>([3], p) == (if p(3) then [3] else [])
    ensures Filter<nat>([2, 3], p) == (if p(2) then [2] else []) + Filter<nat>([3], p)
    ensures Filter<nat>([1, 2, 3], p) == (if p(1) then [1] else []) + Filter<nat>([2, 3], p)
    ensures Filter<nat>([0, 1, 2, 3], p) == (if p(0) then [0] else []) + Filter<nat>([1, 2, 3], p)
  {
    var s0: seq<nat> := [0, 1, 2, 3];
    var s1: seq<nat> := [1, 2, 3];
    var s2: seq<nat> := [2, 3];
    var s3: seq<nat> := [3];
    assert s0[0] == 0 && s0[1..] == s1;
    assert s1[0] == 1 && s1[1..] == s2;
    assert s2[0] == 2 && s2[1..] == s3;
    assert s3[0] == 3 && s3[1..] == [];
    FilterStep(s0, p);
    FilterStep(s1, p);
    FilterStep(s2, p);
    FilterStep(s3, p);
  }

  /** One step of `GroupBy`, with the head group and the rest given. */
  lemma GroupByStep<K>(items: seq<nat>, keys: seq<K>, k: K, here: seq<nat>, rest: seq<nat>, tail: seq<Pair<K>>)
    requires InRange(items, keys) && items != []
    requires items[0] < |keys| && keys[items[0]] == k
    requires Filter(items, HasKey(keys, k)) == here
    requires Filter(items[1..], OtherKey(keys, k)) == rest
    requires InRange(rest, keys) && GroupBy(rest, keys) == tail
    ensures GroupBy(items, keys) == [Entry(k, here)] + tail
  {
  }

  /** The rows 0 .. 3 of the example. */
  lemma ExampleRows()
    ensures Interval(0, 4) == [0, 1, 2, 3]
  {
    var r := Interval(0, 4);
    assert r[0] == 0 && r[1] == 1 && r[2] == 2 && r[3] == 3;
  }

  /** Of the example's rows [0, 1, 2, 3], rows with key "a". */
  lemma ExampleFilterA(xs: seq<Cell>)
    requires xs == Keys()
    ensures Filter<nat>([0, 1, 2, 3], HasKey(xs, A)) == [0, 1]
  {
    var p := HasKey(xs, A);
    FilterRows(p);
    assert p(0) && p(1) && !p(2) && !p(3);
  }

  /** Of the example's rows [1, 2, 3], the later rows with a key other than "a". */
  lemma ExampleFilterNotA(xs: seq<Cell>)
    requires xs == Keys()
    ensures Filter<nat>([1, 2, 3], OtherKey(xs, A)) == [2, 3]
  {
    var p := OtherKey(xs, A);
    FilterRows(p);
    assert !p(1) && p(2) && p(3);
  }

  /** Of the example's rows [2, 3], the remaining rows with key "b". */
  lemma ExampleFilterB(xs: seq<Cell>)
    requires xs == Keys()
    ensures Filter<nat>([2, 3], HasKey(xs, B)) == [2]
  {
    var p := HasKey(xs, B);
    FilterRows(p);
    assert p(2) && !p(3);
  }

  /** Of the example's rows [3], the remaining row with a key other than "b". */
  lemma ExampleFilterNotB(xs: seq<Cell>)
    requires xs == Keys()
    ensures Filter<nat>([3], OtherKey(xs, B)) == [3]
  {
    var p := OtherKey(xs, B);
    FilterRows(p);
    assert p(3);
  }

  /** Of the example's rows [3], the remaining row with the missing key. */
  lemma ExampleFilterMissing(xs: seq<Cell>)
    requires xs == Keys()
    ensures Filter<nat>([3], HasKey(xs, Missing)) == [3]
  {
    var p := HasKey(xs, Missing);
    FilterRows(p);
    assert p(3);
  }

  lemma ExampleGroupByLast(xs: seq<Cell>)
    requires xs == Keys()
    ensures InRange([3], xs)
    ensures GroupBy([3], xs) == [Entry(Missing, [3])]
  {
    var s3: seq<nat> := [3];
    var e: seq<nat> := [];
    assert s3[1..] == e;
    ExampleFilterMissing(xs);
    assert Filter(e, OtherKey(xs, Missing)) == e;
    GroupByStep(s3, xs, Missing, [3], e, []);
  }

  lemma ExampleGroupByTail(xs: seq<Cell>)
    requires xs == Keys()
    ensures InRange([2, 3], xs)
    ensures GroupBy([2, 3], xs) == [Entry(B, [2]), Entry(Missing, [3])]
  {
    var s2: seq<nat> := [2, 3];
    assert s2[1..] == [3];
    ExampleFilterB(xs);
    ExampleFilterNotB(xs);
    ExampleGroupByLast(xs);
    GroupByStep(s2, xs, B, [2], [3], [Entry(Missing, [3])]);
  }

  /** Every one of the example's rows indexes its key column. */
  lemma ExampleInRange(xs: seq<Cell>)
    requires xs == Keys()
    ensures InRange([0, 1, 2, 3], xs)
  {
  }

  /** d3's groups over the example, before `defined1`: "a", "b", missing. */
  lemma ExampleGroupBy(xs: seq<Cell>)
    requires xs == Keys()
    ensures InRange([0, 1, 2, 3], xs)
    ensures GroupBy([0, 1, 2, 3], xs) == [Entry(A, [0, 1]), Entry(B, [2]), Entry(Missing, [3])]
  {
    var s0: seq<nat> := [0, 1, 2, 3];
    assert s0[1..] == [1, 2, 3];
    ExampleInRange(xs);
    ExampleFilterNotA(xs);
    ExampleGroupByTail(xs);
    ExampleFilterA(xs);
    GroupByStep(s0, xs, A, [0, 1], [2, 3], [Entry(B, [2]), Entry(Missing, [3])]);
  }

  /** `defined1` keeps the groups "a" and "b" and drops the missing key. */
  lemma ExampleDefined()
    ensures Filter([Entry(A, [0, 1]), Entry(B, [2]), Entry(Missing, [3])], Defined1<Cell, seq<nat>>(IsDefined))
            == [Entry(A, [0, 1]), Entry(B, [2])]
  {
    var gs := [Entry(A, [0, 1]), Entry(B, [2]), Entry(Missing, [3])];
    var D := Defined1<Cell, seq<nat>>(IsDefined);
    assert D(gs[0]) && D(gs[1]) && !D(gs[2]);
    FilterStep(gs, D);
    FilterStep(gs[1..], D);
    FilterStep(gs[2..], D);
    assert gs[1..][1..] == gs[2..];
    assert gs[2..][1..] == [];
  }

  /** The missing-key row is dropped: "a" holds rows 0 and 1, "b" row 2. */
  lemma ScenarioGroups(xs: seq<Cell>)
    requires xs == Keys()
    ensures Group1(xs, IsDefined) == [Entry(A, [0, 1]), Entry(B, [2])]
  {
    ExampleRows();
    ExampleGroupBy(xs);
    ExampleDefined();
  }

  /** With `normalize: true` the normalized value of "a" is 2 * 100 / 4 = 50,
      because `n` is the full data length, and the values add up to 75, not
      100, because the missing-key row counts in `n` but in no group. */
  lemma ScenarioNormalized(xs: seq<Cell>)
    requires xs == Keys()
    ensures ScaleFactor(Flag(true)) == Finite(100.0)
    ensures |Group1(xs, IsDefined)| == 2 && Group1(xs, IsDefined)[0].key == A
    ensures Div(Mul(Finite(|Group1(xs, IsDefined)[0].values| as real), ScaleFactor(Flag(true))),
                ToNumber(Some(|xs|))) == Finite(50.0)
    ensures Shares(Group1(xs, IsDefined), 100.0, |xs|) == 75.0
  {
    ScenarioGroups(xs);
    var gs := Group1(xs, IsDefined);
    SharesTotal(gs, 100.0, |xs|);
    assert gs[1..] == [Entry(B, [2])];
    assert gs[1..][1..] == [];
    assert Total(gs[1..][1..]) == 0;
    assert Total(gs[1..]) == 1;
    assert Total(gs) == 3;
  }

  /** `groupX({x, normalize: true})` over the example, without faceting:
      the channel on y is the normalized one, labelled as a percentage, and
      after the transform has run it gives "a" 50 and "b" 25. */
  method ScenarioPipeline() returns (values: seq<Number>, text: Option<string>)
    ensures values == [Finite(50.0), Finite(25.0)]
    ensures text == Some("Frequency (%)")
  {
    var xs := Keys();
    assert ScaleFactor(Flag(true)) == Finite(100.0) && Truthy(Finite(100.0));
    var channels, normalizeY := GroupX(Flag(true));
    var c := normalizeY.value;
    assert channels["y"] == SizeOf(Normalized(c)) && c.k == Finite(100.0);
    text := ChannelLabel(channels["y"]);
    var data, index := Transform1(normalizeY, xs, IsDefined, [Interval(0, |xs|)]);
    ScenarioGroups(xs);
    assert data == [Entry(A, [0, 1]), Entry(B, [2])];
    assert |data[0].values| == 2 && |data[1].values| == 1;
    values := [c.Value(data[0]), c.Value(data[1])];
    assert values[0] == Finite(2.0 * 100.0 / 4.0) && values[1] == Finite(1.0 * 100.0 / 4.0);
  }
}
