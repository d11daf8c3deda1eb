/** The theory of edge lists: an increasing list of positions, read as the
    alternating starts and ends of address ranges, stands for a set of
    addresses (src/base/ranges.c). */
module EdgeSets {

  ghost predicate Increasing(e: seq<nat>) {
    forall i, j :: 0 <= i < j < |e| ==> e[i] < e[j]
  }

  /** The shape every list built by the library has. */
  ghost predicate Canonical(e: seq<nat>) {
    Increasing(e) && |e| % 2 == 0
  }

  /** How many leading edges lie strictly below `p`. */
  function Below(e: seq<nat>, p: nat): (k: nat)
    ensures k <= |e|
    ensures forall i :: 0 <= i < k ==> e[i] < p
    ensures k < |e| ==> p <= e[k]
  {
    if e == [] || p <= e[0] then 0 else 1 + Below(e[1..], p)
  }

  function Odd(n: nat): bool {
    n % 2 == 1
  }

  lemma OddAdd(m: nat, n: nat)
    ensures Odd(m + n) == (Odd(m) != Odd(n))
  {
  }

  /** The edge at `pos`, if the status after `n` edges has to change to
      `included` there. */
  function Change(included: bool, n: nat, pos: nat): (t: seq<nat>)
    ensures |t| == Needs(included, n)
    ensures t != [] ==> t[0] == pos
  {
    if included != Odd(n) then [pos] else []
  }

  function Needs(included: bool, n: nat): nat {
    if included != Odd(n) then 1 else 0
  }

  /** `x` is in the set when an odd number of edges has been passed. */
  ghost predicate Member(e: seq<nat>, x: nat) {
    Odd(Below(e, x + 1))
  }

  /** `e` with the edges from `a` up to `d` replaced by the edges a region with
      this status needs between them. */
  function Spliced(e: seq<nat>, a: nat, d: nat, start: nat, end: nat, included: bool): (r: seq<nat>)
    requires a <= d <= |e|
  {
    e[..a]
    + Change(included, a, start)
    + Change(included, d, end)
    + e[d..]
  }

  /** The edge list after forcing `[start, end)` to be in (or out of) the set. */
  function SetRegion(e: seq<nat>, start: nat, end: nat, included: bool): seq<nat> {
    var a := Below(e, start);
    Spliced(e, a, a + Below(e[a..], end + 1), start, end, included)
  }

  /** The ranges of an edge list, in order. */
  function Intervals(e: seq<nat>): (s: seq<(nat, nat)>)
    ensures |s| == |e| / 2
    ensures forall i :: 0 <= i < |s| ==> s[i] == (e[2 * i], e[2 * i + 1])
  {
    if |e| < 2 then [] else [(e[0], e[1])] + Intervals(e[2..])
  }

  lemma {:induction false} BelowIs(e: seq<nat>, p: nat, k: nat)
    requires k <= |e|
    requires forall i :: 0 <= i < k ==> e[i] < p
    requires k < |e| ==> p <= e[k]
    ensures Below(e, p) == k
  {
    if k > 0 {
      BelowIs(e[1..], p, k - 1);
    }
  }

  /** Element by element: `r` keeps `a` edges of `e`, has the start edge when
      `m == 1` and the end edge when `f == 1`, and keeps the edges from `d` on. */
  ghost predicate Shape(e: seq<nat>, r: seq<nat>, a: nat, m: nat, f: nat, d: nat, start: nat, end: nat) {
    && a <= d <= |e| && m <= 1 && f <= 1
    && |r| == a + m + f + |e| - d
    && (forall i {:trigger r[i]} :: 0 <= i < a ==> r[i] == e[i])
    && (m == 1 ==> r[a] == start)
    && (f == 1 ==> r[a + m] == end)
    && (forall i :: a + m + f <= i < |r| ==> r[i] == e[i - (a + m + f) + d])
  }

  lemma {:induction false} SplicedShape(e: seq<nat>, a: nat, d: nat, start: nat, end: nat, included: bool)
    requires a <= d <= |e|
    ensures Shape(e, Spliced(e, a, d, start, end, included), a,
                  Needs(included, a), Needs(included, d), d, start, end)
  {
  }

  /** `k` separates the edges below `p` from the others. */
  ghost predicate Splits(e: seq<nat>, p: nat, k: nat) {
    && k <= |e|
    && (forall i :: 0 <= i < k ==> e[i] < p)
    && (forall i :: k <= i < |e| ==> p <= e[i])
  }

  lemma {:induction false} SplitsOrder(e: seq<nat>, p: nat, k: nat, q: nat, l: nat)
    requires Splits(e, p, k) && Splits(e, q, l) && p <= q
    ensures k <= l
  {
    var _ := if l < |e| then e[l] else 0;
  }

  lemma {:induction false} ShapeIncreasing(
    e: seq<nat>, r: seq<nat>, a: nat, m: nat, f: nat, d: nat, start: nat, end: nat)
    requires Increasing(e) && start < end
    requires Shape(e, r, a, m, f, d, start, end)
    requires Splits(e, start, a) && Splits(e, end + 1, d)
    ensures Increasing(r)
  {
    forall i, j | 0 <= i < j < |r|
      ensures r[i] < r[j]
    {
      if a + m + f <= i {
      } else if a + m + f <= j {
        assert end < r[j];
      }
    }
  }

  lemma {:induction false} ShapeSplits(
    e: seq<nat>, r: seq<nat>, a: nat, m: nat, f: nat, d: nat, start: nat, end: nat, x: nat, k: nat)
    returns (l: nat)
    requires start < end && Shape(e, r, a, m, f, d, start, end)
    requires Splits(e, start, a) && Splits(e, end + 1, d) && Splits(e, x + 1, k)
    ensures Splits(r, x + 1, l)
    ensures l == if x < start then k else if x < end then a + m else a + m + f + k - d
  {
    if x < start {
      SplitsOrder(e, x + 1, k, start, a);
      l := k;
    } else if x < end {
      SplitsOrder(e, start, a, x + 1, k);
      l := a + m;
    } else {
      SplitsOrder(e, end + 1, d, x + 1, k);
      l := a + m + f + k - d;
    }
  }

  lemma {:induction false} BelowSplits(e: seq<nat>, p: nat)
    requires Increasing(e)
    ensures Splits(e, p, Below(e, p))
  {
  }

  lemma {:induction false} SuffixSplits(e: seq<nat>, a: nat, p: nat, k: nat)
    requires a <= |e| && Splits(e[a..], p, k)
    requires forall i :: 0 <= i < a ==> e[i] < p
    ensures Splits(e, p, a + k)
  {
    assert forall i :: a <= i < |e| ==> e[i] == e[a..][i - a];
  }

  lemma {:induction false} SuffixBelowIs(e: seq<nat>, a: nat, p: nat, k: nat)
    requires a + k <= |e|
    requires forall j :: a <= j < a + k ==> e[j] < p
    requires a + k < |e| ==> p <= e[a + k]
    ensures Below(e[a..], p) == k
  {
    var s := e[a..];
    assert forall i :: 0 <= i < k ==> s[i] < p;
    BelowIs(s, p, k);
  }

  /** The two counts of `SetRegion`, recognised by what they separate. */
  lemma {:induction false} SetRegionIs(e: seq<nat>, start: nat, end: nat, included: bool, a: nat, k: nat)
    requires a + k <= |e|
    requires forall j :: 0 <= j < a ==> e[j] < start
    requires a < |e| ==> start <= e[a]
    requires forall j :: a <= j < a + k ==> e[j] <= end
    requires a + k < |e| ==> end < e[a + k]
    ensures SetRegion(e, start, end, included) == Spliced(e, a, a + k, start, end, included)
  {
    assert Below(e, start) == a by {
      BelowIs(e, start, a);
    }
    assert Below(e[a..], end + 1) == k by {
      SuffixBelowIs(e, a, end + 1, k);
    }
  }

  lemma {:induction false} RegionSplits(e: seq<nat>, start: nat, end: nat) returns (a: nat, d: nat)
    requires Increasing(e) && start < end
    ensures a <= d && Splits(e, start, a) && Splits(e, end + 1, d)
    ensures a == Below(e, start) && d == a + Below(e[a..], end + 1)
  {
    a := Below(e, start);
    BelowSplits(e, start);
    BelowSplits(e[a..], end + 1);
    d := a + Below(e[a..], end + 1);
    SuffixSplits(e, a, end + 1, d - a);
  }

  lemma RegionParity(a: nat, d: nat, k: nat, included: bool)
    requires d <= k
    ensures Odd(a + Needs(included, a)) == included
    ensures Odd(a + Needs(included, a) + Needs(included, d) + k - d) == Odd(k)
  {
  }

  lemma {:induction false} ShapeParity(
    e: seq<nat>, r: seq<nat>, a: nat, d: nat, start: nat, end: nat, included: bool, x: nat, k: nat)
    returns (l: nat)
    requires start < end && a <= d
    requires Shape(e, r, a, Needs(included, a), Needs(included, d), d, start, end)
    requires Splits(e, start, a) && Splits(e, end + 1, d) && Splits(e, x + 1, k)
    ensures Splits(r, x + 1, l)
    ensures Odd(l) <==> if start <= x < end then included else Odd(k)
  {
    l := ShapeSplits(e, r, a, Needs(included, a), Needs(included, d), d, start, end, x, k);
    if end <= x {
      SplitsOrder(e, end + 1, d, x + 1, k);
      RegionParity(a, d, k, included);
    } else {
      RegionParity(a, d, d, included);
    }
  }

  lemma {:induction false} ShapeMember(
    e: seq<nat>, r: seq<nat>, a: nat, d: nat, start: nat, end: nat, included: bool, x: nat)
    requires Increasing(e) && start < end && a <= d
    requires Shape(e, r, a, Needs(included, a), Needs(included, d), d, start, end)
    requires Splits(e, start, a) && Splits(e, end + 1, d)
    ensures Member(r, x) <==> if start <= x < end then included else Member(e, x)
  {
    BelowSplits(e, x + 1);
    var l := ShapeParity(e, r, a, d, start, end, included, x, Below(e, x + 1));
    BelowIs(r, x + 1, l);
  }

  lemma {:induction false} SplicedIsSetUpdate(e: seq<nat>, a: nat, d: nat, start: nat, end: nat, included: bool)
    requires Canonical(e) && start < end && a <= d
    requires Splits(e, start, a) && Splits(e, end + 1, d)
    ensures Canonical(Spliced(e, a, d, start, end, included))
    ensures forall x: nat ::
              Member(Spliced(e, a, d, start, end, included), x) <==>
              if start <= x < end then included else Member(e, x)
  {
    var r := Spliced(e, a, d, start, end, included);
    SplicedShape(e, a, d, start, end, included);
    ShapeIncreasing(e, r, a, Needs(included, a), Needs(included, d), d, start, end);
    RegionParity(a, d, |e|, included);
    forall x: nat
      ensures Member(r, x) <==> if start <= x < end then included else Member(e, x)
    {
      ShapeMember(e, r, a, d, start, end, included, x);
    }
  }

  /** Forcing a region keeps the list canonical and changes membership inside
      the region only. */
  lemma {:induction false} SetRegionIsSetUpdate(e: seq<nat>, start: nat, end: nat, included: bool)
    requires Canonical(e) && start < end
    ensures Canonical(SetRegion(e, start, end, included))
    ensures forall x: nat ::
              Member(SetRegion(e, start, end, included), x) <==>
              if start <= x < end then included else Member(e, x)
  {
    var a, d := RegionSplits(e, start, end);
    assert SetRegion(e, start, end, included) == Spliced(e, a, d, start, end, included);
    SplicedIsSetUpdate(e, a, d, start, end, included);
  }

  /** A region whose end precedes its start is outside the promise: the list
      then stays canonical exactly when nothing had to change, that is when the
      address just below `start` already has the requested status. */
  lemma {:induction false} ReversedRegionExactly(e: seq<nat>, start: nat, end: nat, included: bool)
    requires Canonical(e) && end < start
    ensures Canonical(SetRegion(e, start, end, included)) <==> included == Odd(Below(e, start))
    ensures included == Odd(Below(e, start)) ==> SetRegion(e, start, end, included) == e
  {
    var r := SetRegion(e, start, end, included);
    var a := Below(e, start);
    assert Below(e[a..], end + 1) == 0;
    if included == Odd(a) {
      assert r == e;
    } else {
      assert r[a] == start && r[a + 1] == end;
    }
  }

  /** Why the source asserts that a region is not empty: without that, an empty one
      would leave the list canonical exactly when the address at `p` or the one
      just below it already has the requested status; otherwise `p` would
      appear twice. */
  lemma {:induction false} EmptyRegionExactly(e: seq<nat>, p: nat, included: bool)
    requires Canonical(e)
    ensures Canonical(SetRegion(e, p, p, included)) <==> included == Odd(Below(e, p)) || included == Member(e, p)
    ensures included == Odd(Below(e, p)) || included == Member(e, p) ==> SetRegion(e, p, p, included) == e
  {
    var a := Below(e, p);
    BelowSplits(e, p);
    var k := if a < |e| && e[a] == p then 1 else 0;
    SetRegionIs(e, p, p, included, a, k);
    BelowIs(e, p + 1, a + k);
    if k == 1 {
      SplicedAtEdge(e, a, p, included);
    } else {
      SplicedTwice(e, a, p, included);
    }
  }

  lemma {:induction false} SplicedAtEdge(e: seq<nat>, a: nat, p: nat, included: bool)
    requires a < |e| && e[a] == p
    ensures Spliced(e, a, a + 1, p, p, included) == e
  {
    OddAdd(a, 1);
    assert e == e[..a] + [p] + e[a + 1..];
    assert e[..a] + [] == e[..a] && e[..a] + [p] + [] == e[..a] + [p];
  }

  lemma {:induction false} SplicedTwice(e: seq<nat>, a: nat, p: nat, included: bool)
    requires a <= |e|
    ensures var r := Spliced(e, a, a, p, p, included);
            if included == Odd(a) then r == e else |r| == |e| + 2 && r[a] == r[a + 1] == p
  {
    if included == Odd(a) {
      assert e[..a] + [] + [] + e[a..] == e;
    }
  }

  ghost predicate InSome(s: seq<(nat, nat)>, x: nat) {
    exists i :: 0 <= i < |s| && s[i].0 <= x < s[i].1
  }

  lemma InSomeExtend(s: seq<(nat, nat)>, i: nat, x: nat)
    requires i < |s|
    ensures InSome(s[..i + 1], x) <==> InSome(s[..i], x) || s[i].0 <= x < s[i].1
  {
    assert forall j :: 0 <= j < i ==> s[..i + 1][j] == s[..i][j];
    assert s[..i + 1][i] == s[i];
  }

  lemma {:induction false} OddIffInSome(e: seq<nat>, s: seq<(nat, nat)>, x: nat, k: nat)
    requires |e| == 2 * |s| && forall i :: 0 <= i < |s| ==> s[i] == (e[2 * i], e[2 * i + 1])
    requires Splits(e, x + 1, k)
    ensures Odd(k) <==> InSome(s, x)
  {
    if Odd(k) {
      var i := k / 2;
      assert k == 2 * i + 1;
      assert s[i].0 <= x < s[i].1;
    }
    if InSome(s, x) {
      var i :| 0 <= i < |s| && s[i].0 <= x < s[i].1;
      assert e[2 * i] < x + 1 <= e[2 * i + 1];
      assert k == 2 * i + 1;
    }
  }

  /** Non-empty, in order, and with a gap between neighbours. */
  ghost predicate Separated(s: seq<(nat, nat)>) {
    && (forall i :: 0 <= i < |s| ==> s[i].0 < s[i].1)
    && (forall i, j :: 0 <= i < j < |s| ==> s[i].1 < s[j].0)
  }

  /** The intervals of a canonical list are exactly the maximal ranges of its
      set. */
  lemma {:induction false} IntervalsAreMaximal(e: seq<nat>)
    requires Canonical(e)
    ensures Separated(Intervals(e))
    ensures forall x: nat :: Member(e, x) <==> InSome(Intervals(e), x)
  {
    var s := Intervals(e);
    assert forall i :: 0 <= i < |s| ==> s[i] == (e[2 * i], e[2 * i + 1]);
    forall x: nat
      ensures Member(e, x) <==> InSome(s, x)
    {
      BelowSplits(e, x + 1);
      OddIffInSome(e, s, x, Below(e, x + 1));
    }
  }

  /** The address at the end of a range is not in the set. */
  lemma {:induction false} IntervalEndIsOut(e: seq<nat>, i: nat)
    requires Canonical(e) && i < |Intervals(e)|
    ensures !Member(e, Intervals(e)[i].1)
  {
    BelowIs(e, e[2 * i + 1] + 1, 2 * i + 2);
  }

  /** A run of addresses inside the set lies in one maximal range. */
  lemma {:induction false} RunInOneInterval(e: seq<nat>, a: nat, size: nat) returns (i: nat)
    requires Canonical(e) && size > 0
    requires forall x :: a <= x < a + size ==> Member(e, x)
    ensures i < |Intervals(e)| && Intervals(e)[i].0 <= a && a + size <= Intervals(e)[i].1
  {
    IntervalsAreMaximal(e);
    var s := Intervals(e);
    assert Member(e, a);
    i :| 0 <= i < |s| && s[i].0 <= a < s[i].1;
    IntervalEndIsOut(e, i);
  }

  /** Canonical lists are canonical: two of them with the same members are the
      same list. */
  lemma {:induction false} CanonicalIsUnique(e: seq<nat>, f: seq<nat>)
    requires Canonical(e) && Canonical(f)
    requires forall x: nat :: Member(e, x) <==> Member(f, x)
    ensures e == f
  {
    if e != f {
      var k := FirstDifference(e, f);
      assert e[..k] == f[..k];
      // One of the lists has an edge at p where the other has not.
      if k < |e| && (k == |f| || e[k] < f[k]) {
        EdgeFlips(e, f, k);
      } else {
        EdgeFlips(f, e, k);
      }
      assert false;
    }
  }

  lemma {:induction false} EdgeFlips(e: seq<nat>, f: seq<nat>, k: nat)
    requires Canonical(e) && Canonical(f)
    requires k < |e| && k <= |f| && e[..k] == f[..k]
    requires k < |f| ==> e[k] < f[k]
    ensures Member(e, e[k]) != Member(f, e[k])
  {
    assert forall i :: 0 <= i < k ==> f[i] == e[..k][i];
    BelowIs(e, e[k] + 1, k + 1);
    BelowIs(f, e[k] + 1, k);
  }

  lemma {:induction false} FirstDifference(e: seq<nat>, f: seq<nat>) returns (k: nat)
    requires e != f
    ensures k <= |e| && k <= |f| && e[..k] == f[..k]
    ensures k < |e| || k < |f|
    ensures k < |e| && k < |f| ==> e[k] != f[k]
  {
    if e == [] || f == [] || e[0] != f[0] {
      k := 0;
    } else {
      assert e == [e[0]] + e[1..] && f == [f[0]] + f[1..];
      k := FirstDifference(e[1..], f[1..]);
      assert e[..k + 1] == [e[0]] + e[1..][..k];
      assert f[..k + 1] == [f[0]] + f[1..][..k];
      k := k + 1;
    }
  }
}
