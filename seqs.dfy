/** Sequence vocabulary shared by the grouping transform: stable filtering,
    mapping, the position ranges handed out per facet, concatenation of the
    per-facet slices and the subsequence relation. */
module Seqs {

  /** Array.prototype.filter: keeps, in their original order, the elements
      that satisfy `p`. */
  function Filter<T>(s: seq<T>, p: T -> bool): (r: seq<T>)
    ensures |r| <= |s|
    ensures forall x | x in r :: x in s && p(x)
    ensures forall x | x in s :: p(x) ==> x in r
  {
    if s == [] then []
    else (if p(s[0]) then [s[0]] else []) + Filter(s[1..], p)
  }

  /** Array.prototype.map. */
  function Map<A, B>(s: seq<A>, f: A -> B): seq<B>
  {
    seq(|s|, i requires 0 <= i < |s| => f(s[i]))
  }

  /** The positions lo, lo + 1, ..., lo + len - 1 (what `offsetRange(g, k)`
      yields for a slice `g` of length `len` appended at offset `k = lo`). */
  function Interval(lo: nat, len: nat): (r: seq<nat>)
    ensures |r| == len
    ensures forall t :: 0 <= t < len ==> r[t] == lo + t
    ensures forall i :: i in r <==> lo <= i < lo + len
    decreases len
  {
    if len == 0 then [] else [lo] + Interval(lo + 1, len - 1)
  }

  /** The concatenation of a sequence of slices, in order. */
  function Concat<T>(ss: seq<seq<T>>): seq<T>
  {
    if ss == [] then [] else Concat(ss[..|ss| - 1]) + ss[|ss| - 1]
  }

  /** `a` is `b` with some elements removed, the rest kept in order. */
  predicate IsSubseq<T(==)>(a: seq<T>, b: seq<T>)
    decreases |b|
  {
    if a == [] then true
    else if b == [] then false
    else (a[0] == b[0] && IsSubseq(a[1..], b[1..])) || IsSubseq(a, b[1..])
  }

  predicate StrictlyIncreasing(s: seq<nat>)
  {
    forall a, b :: 0 <= a < b < |s| ==> s[a] < s[b]
  }

  /** The position of the first occurrence of `x` in `s`, or |s| if none. */
  function IndexOf<T(==)>(s: seq<T>, x: T): (i: nat)
    ensures i <= |s|
    ensures i < |s| <==> x in s
    ensures i < |s| ==> s[i] == x
    ensures forall j :: 0 <= j < i ==> s[j] != x
  {
    if s == [] then 0
    else if s[0] == x then 0
    else 1 + IndexOf(s[1..], x)
  }

  /** A position holding `x` with no `x` before it is the first occurrence. */
  lemma IndexOfFirst<T>(s: seq<T>, x: T, j: nat)
    requires j < |s| && s[j] == x
    requires forall i :: 0 <= i < j ==> s[i] != x
    ensures IndexOf(s, x) == j
  {
    assert x in s;
  }

  // ---------------------------------------------------------------------
  // Lemmas about Filter

  /** Filtering with `p` and then with a stronger `q` is filtering with `q`;
      more generally, a second filter conjoins the two predicates. */
  lemma {:induction false} FilterFilter<T>(s: seq<T>, p: T -> bool, q: T -> bool, c: T -> bool)
    requires forall x :: x in s ==> (c(x) <==> p(x) && q(x))
    ensures Filter(Filter(s, p), q) == Filter(s, c)
  {
    if s != [] {
      FilterFilter(s[1..], p, q, c);
      assert s[0] in s;
      if p(s[0]) {
        var fs := Filter(s, p);
        assert fs == [s[0]] + Filter(s[1..], p);
        assert fs[0] == s[0] && fs[1..] == Filter(s[1..], p);
        assert Filter(fs, q) == (if q(fs[0]) then [fs[0]] else []) + Filter(fs[1..], q);
        assert c(s[0]) == q(s[0]);
        assert Filter(s, c) == (if c(s[0]) then [s[0]] else []) + Filter(s[1..], c);
      } else {
        assert !c(s[0]);
        assert Filter(s, p) == Filter(s[1..], p);
        assert Filter(s, c) == Filter(s[1..], c);
      }
    }
  }

  /** Two predicates that agree on the elements of `s` filter it alike. */
  lemma {:induction false} FilterSame<T>(s: seq<T>, p: T -> bool, q: T -> bool)
    requires forall x :: x in s ==> (p(x) <==> q(x))
    ensures Filter(s, p) == Filter(s, q)
  {
    if s != [] {
      assert s[0] in s;
      FilterSame(s[1..], p, q);
    }
  }

  /** Filtering with `p` splits `s` into the parts selected by `q` and `r`
      when every element satisfying `p` satisfies exactly one of them. */
  lemma {:induction false} FilterCount<T>(s: seq<T>, p: T -> bool, q: T -> bool, r: T -> bool)
    requires forall x :: x in s ==> (p(x) <==> q(x) || r(x)) && !(q(x) && r(x))
    ensures |Filter(s, p)| == |Filter(s, q)| + |Filter(s, r)|
  {
    if s != [] {
      assert s[0] in s;
      FilterCount(s[1..], p, q, r);
    }
  }

  /** The filtered sequence is a subsequence of the input. */
  lemma {:induction false} FilterIsSubseq<T>(s: seq<T>, p: T -> bool)
    ensures IsSubseq(Filter(s, p), s)
  {
    if s != [] {
      FilterIsSubseq(s[1..], p);
      if p(s[0]) {
        var r := Filter(s, p);
        assert r == [s[0]] + Filter(s[1..], p);
        assert r != [] && r[0] == s[0] && r[1..] == Filter(s[1..], p);
        assert IsSubseq(r[1..], s[1..]);
      } else {
        assert Filter(s, p) == Filter(s[1..], p);
      }
    }
  }

  /** A filter that every element passes keeps the sequence as it is. */
  lemma {:induction false} FilterAll<T>(s: seq<T>, p: T -> bool)
    requires forall x | x in s :: p(x)
    ensures Filter(s, p) == s
  {
    if s != [] {
      assert s[0] in s;
      FilterAll(s[1..], p);
    }
  }

  /** A filter that drops nothing passed every element. */
  lemma {:induction false} FilterFull<T>(s: seq<T>, p: T -> bool)
    requires |Filter(s, p)| == |s|
    ensures forall x | x in s :: p(x)
  {
    if s != [] {
      assert |Filter(s[1..], p)| <= |s[1..]|;
      assert p(s[0]);
      FilterFull(s[1..], p);
      forall x | x in s ensures p(x) {
        if x != s[0] { assert x in s[1..]; }
      }
    }
  }

  /** Filtering keeps a strictly increasing sequence strictly increasing. */
  lemma {:induction false} FilterIncreasing(s: seq<nat>, p: nat -> bool)
    requires StrictlyIncreasing(s)
    ensures StrictlyIncreasing(Filter(s, p))
  {
    if s != [] {
      FilterIncreasing(s[1..], p);
      if p(s[0]) {
        var r := Filter(s, p);
        var rest := Filter(s[1..], p);
        assert r == [s[0]] + rest;
        forall b | 0 < b < |r| ensures s[0] < r[b] {
          assert r[b] == rest[b - 1];
          assert rest[b - 1] in rest;
          var j :| 0 <= j < |s[1..]| && s[1..][j] == rest[b - 1];
          assert s[j + 1] == r[b];
        }
      }
    }
  }

  /** The first element of a filtered sequence is the first element of the
      input that satisfies the predicate; `j` is its position in the input. */
  lemma {:induction false} FilterHead<T>(s: seq<T>, p: T -> bool) returns (j: nat)
    requires Filter(s, p) != []
    ensures j < |s| && s[j] == Filter(s, p)[0] && p(s[j])
    ensures forall i :: 0 <= i < j ==> !p(s[i])
  {
    if p(s[0]) {
      j := 0;
    } else {
      var j' := FilterHead(s[1..], p);
      j := j' + 1;
      assert s[j] == s[1..][j'];
      forall i | 0 <= i < j ensures !p(s[i]) {
        if i > 0 { assert s[i] == s[1..][i - 1]; }
      }
    }
  }

  // ---------------------------------------------------------------------
  // Lemmas about Concat

  lemma ConcatSnoc<T>(ss: seq<seq<T>>, i: nat)
    requires i < |ss|
    ensures Concat(ss[..i + 1]) == Concat(ss[..i]) + ss[i]
  {
    assert ss[..i + 1][..i] == ss[..i];
  }

  /** The lengths of the slices before slice `j` add up to its offset, and
      an offset never exceeds the whole concatenation. */
  lemma {:induction false} ConcatOffsetMono<T>(ss: seq<seq<T>>, i: nat, j: nat)
    requires i <= j <= |ss|
    ensures |Concat(ss[..i])| <= |Concat(ss[..j])|
    ensures i < j ==> |Concat(ss[..i])| + |ss[i]| <= |Concat(ss[..j])|
    decreases j - i
  {
    if i < j {
      ConcatSnoc(ss, i);
      ConcatOffsetMono(ss, i + 1, j);
    }
  }

  /** Element `t` of slice `j` sits in the concatenation at the offset of
      slice `j` plus `t`. */
  lemma {:induction false} ConcatAt<T>(ss: seq<seq<T>>, j: nat, t: nat)
    requires j < |ss| && t < |ss[j]|
    ensures |Concat(ss[..j])| + t < |Concat(ss)|
    ensures Concat(ss)[|Concat(ss[..j])| + t] == ss[j][t]
    decreases |ss|
  {
    var n := |ss| - 1;
    assert ss[..n + 1] == ss;
    ConcatSnoc(ss, n);
    if j < n {
      var init := ss[..n];
      assert init[..j] == ss[..j];
      ConcatAt(init, j, t);
      assert Concat(ss) == Concat(init) + ss[n];
    }
  }

  /** Every position of the concatenation belongs to some slice. */
  lemma {:induction false} ConcatCover<T>(ss: seq<seq<T>>, p: nat)
    requires p < |Concat(ss)|
    ensures exists j :: 0 <= j < |ss| && |Concat(ss[..j])| <= p < |Concat(ss[..j])| + |ss[j]|
    decreases |ss|
  {
    var n := |ss| - 1;
    assert ss[..n + 1] == ss;
    ConcatSnoc(ss, n);
    if p < |Concat(ss[..n])| {
      var init := ss[..n];
      ConcatCover(init, p);
      var j :| 0 <= j < |init| && |Concat(init[..j])| <= p < |Concat(init[..j])| + |init[j]|;
      assert init[..j] == ss[..j];
    }
  }

  /** Any element of the concatenation comes from one of the slices. */
  lemma ConcatMember<T>(ss: seq<seq<T>>, p: nat)
    requires p < |Concat(ss)|
    ensures exists j, t :: 0 <= j < |ss| && 0 <= t < |ss[j]| && Concat(ss)[p] == ss[j][t]
  {
    ConcatCover(ss, p);
    var j :| 0 <= j < |ss| && |Concat(ss[..j])| <= p < |Concat(ss[..j])| + |ss[j]|;
    ConcatAt(ss, j, p - |Concat(ss[..j])|);
  }

  /** The position ranges of the slices in their concatenation: slice `j`
      occupies the positions from its offset on, as many as it is long. */
  function Ranges<T>(ss: seq<seq<T>>): seq<seq<nat>>
  {
    seq(|ss|, j requires 0 <= j < |ss| => Interval(|Concat(ss[..j])|, |ss[j]|))
  }

  /** Two adjacent ranges form one. */
  lemma IntervalAppend(lo: nat, a: nat, b: nat)
    ensures Interval(lo, a) + Interval(lo + a, b) == Interval(lo, a + b)
  {
    var l, r, w := Interval(lo, a), Interval(lo + a, b), Interval(lo, a + b);
    forall t | 0 <= t < a + b ensures (l + r)[t] == w[t] {
      if t >= a { assert (l + r)[t] == r[t - a]; }
    }
  }

  /** The ranges of all slices are those of all but the last, then the
      last slice's range. */
  lemma RangesSnoc<T>(ss: seq<seq<T>>)
    requires ss != []
    ensures Ranges(ss) == Ranges(ss[..|ss| - 1]) + [Interval(|Concat(ss[..|ss| - 1])|, |ss[|ss| - 1]|)]
  {
    var n := |ss| - 1;
    var init := ss[..n];
    forall j | 0 <= j < n ensures Ranges(ss)[j] == Ranges(init)[j] {
      assert init[..j] == ss[..j];
    }
  }

  /** The ranges of the slices, one after another, are exactly the positions
      of the concatenation: contiguous, in slice order, without overlap and
      without gap. */
  lemma {:induction false} RangesTile<T>(ss: seq<seq<T>>)
    ensures Concat(Ranges(ss)) == Interval(0, |Concat(ss)|)
    decreases |ss|
  {
    if ss != [] {
      var n := |ss| - 1;
      var init := ss[..n];
      RangesTile(init);
      RangesSnoc(ss);
      var rs := Ranges(ss);
      assert rs[..n] == Ranges(init) && rs[n] == Interval(|Concat(init)|, |ss[n]|);
      assert Concat(rs) == Concat(Ranges(init)) + rs[n];
      assert |Concat(ss)| == |Concat(init)| + |ss[n]|;
      IntervalAppend(0, |Concat(init)|, |ss[n]|);
    }
  }
}
