/** The linked list of edges (src/base/ranges.c): nodes are inserted and
    unlinked in place. */
module Ranges {
  import opened EdgeSets

  class Edge {
    var next: Edge?
    var pos: nat

    constructor (pos: nat, next: Edge?)
      ensures this.pos == pos && this.next == next
    {
      this.pos, this.next := pos, next;
    }
  }

  /** `s` without the `k` elements from `p` on. */
  ghost function Cut<T>(s: seq<T>, p: nat, k: nat): seq<T>
    requires p + k <= |s|
  {
    s[..p] + s[p + k..]
  }

  /** `s` with `t` put in front of position `p`. */
  ghost function Put<T>(s: seq<T>, p: nat, t: seq<T>): seq<T>
    requires p <= |s|
  {
    s[..p] + t + s[p..]
  }

  lemma CutMore<T>(s: seq<T>, p: nat, k: nat)
    requires p + k < |s|
    ensures Cut(s, p, k)[p] == s[p + k]
    ensures Cut(Cut(s, p, k), p, 1) == Cut(s, p, k + 1)
  {
  }

  /** Put the start edge if needed, cut the obscured edges, put the end edge if
      needed. */
  lemma PutCutPut(e: seq<nat>, a: nat, t: seq<nat>, k: nat, u: seq<nat>)
    requires a + k <= |e|
    ensures Put(Cut(Put(e, a, t), a + |t|, k), a + |t|, u) == e[..a] + t + u + e[a + k..]
  {
  }

  /** The dropped edges lie behind the edge just put. */
  lemma DroppedBehindPut(e: seq<nat>, a: nat, t: seq<nat>, k: nat, end: nat)
    requires a <= |e| && a + |t| + k <= |Put(e, a, t)|
    requires forall j :: a + |t| <= j < a + |t| + k ==> Put(e, a, t)[j] <= end
    requires a + |t| + k < |Put(e, a, t)| ==> end < Put(e, a, t)[a + |t| + k]
    ensures a + k <= |e| && (forall j :: a <= j < a + k ==> e[j] <= end)
    ensures a + k < |e| ==> end < e[a + k]
  {
    var p := Put(e, a, t);
    assert forall j {:trigger e[j]} :: a <= j < |e| ==> p[j + |t|] == e[j];
  }

  class Ranges {
    const head: Edge
    /** All nodes, the sentinel `head` first. */
    ghost var nodes: seq<Edge>
    /** The positions of the nodes after the sentinel. */
    ghost var edges: seq<nat>
    ghost var repr: set<Edge>

    ghost predicate Valid()
      reads this, repr
    {
      && |nodes| == |edges| + 1
      && nodes[0] == head
      && (forall i :: 0 <= i < |nodes| ==> nodes[i] in repr)
      && (forall i {:trigger nodes[i].next} :: 0 <= i < |edges| ==> nodes[i].next == nodes[i + 1])
      && nodes[|edges|].next == null
      && (forall i {:trigger nodes[i].pos} :: 1 <= i < |nodes| ==> nodes[i].pos == edges[i - 1])
      && (forall i, j :: 0 <= i < j < |nodes| ==> nodes[i] != nodes[j])
    }

    constructor ()
      ensures Valid() && edges == [] && fresh(repr)
    {
      head := new Edge(0, null);
      new;
      nodes, edges, repr := [head], [], {head};
    }

    method InsertBetween(before: Edge, after: Edge?, pos: nat, ghost i: nat) returns (edge: Edge)
      requires Valid() && i < |nodes| && before == nodes[i] && after == before.next
      modifies this, before
      ensures Valid() && fresh(repr - old(repr))
      ensures i + 1 < |nodes| && nodes[i + 1] == edge && edge.next == after
      ensures edges == Put(old(edges), i, [pos])
    {
      edge := new Edge(pos, after);
      before.next := edge;
      repr := repr + {edge};
      nodes := Put(nodes, i + 1, [edge]);
      edges := Put(edges, i, [pos]);
    }

    /** "Add the edge between prev and cur, if needed"; yields the new prev. */
    method InsertIf(needed: bool, before: Edge, after: Edge?, pos: nat, ghost i: nat, ghost t: seq<nat>)
      returns (prev: Edge)
      requires Valid() && i < |nodes| && before == nodes[i] && after == before.next
      requires t == if needed then [pos] else []
      modifies this, before
      ensures Valid() && fresh(repr - old(repr))
      ensures edges == Put(old(edges), i, t)
      ensures i + |t| < |nodes| && nodes[i + |t|] == prev && prev.next == after
    {
      prev := before;
      if needed {
        prev := InsertBetween(before, after, pos, i);
      }
    }

    method UnlinkAfter(prev: Edge, ghost i: nat)
      requires Valid() && i + 1 < |nodes| && prev == nodes[i]
      modifies this, prev
      ensures Valid() && repr == old(repr)
      ensures i < |nodes| && nodes[i] == prev && prev.next == old(nodes[i + 1].next)
      ensures edges == Cut(old(edges), i, 1)
    {
      assert prev.next == nodes[i + 1];
      prev.next := prev.next.next;
      nodes := Cut(nodes, i + 1, 1);
      edges := Cut(edges, i, 1);
    }

    /** First loop: pass every edge before `start`. */
    method SkipBelow(start: nat) returns (prev: Edge, cur: Edge?, included: bool, ghost a: nat)
      requires Valid()
      ensures a < |nodes| && prev == nodes[a] && cur == prev.next && included == Odd(a)
      ensures forall j :: 0 <= j < a ==> edges[j] < start
      ensures a < |edges| ==> start <= edges[a]
    {
      prev, cur, included, a := head, head.next, false, 0;
      while cur != null && cur.pos < start
        invariant a < |nodes| && prev == nodes[a] && cur == prev.next
        invariant included == Odd(a)
        invariant forall j :: 0 <= j < a ==> edges[j] < start
        decreases |edges| - a
      {
        assert cur == nodes[a + 1];
        prev, cur := cur, cur.next;
        included := !included;
        a := a + 1;
      }
      assert cur != null ==> cur == nodes[a + 1] && cur.pos == edges[a];
    }

    /** Second loop: unlink every edge up to and including `end`. */
    method DropThrough(prev: Edge, end: nat, wasIncluded: bool, ghost p: nat)
      returns (cur: Edge?, included: bool, ghost k: nat)
      requires Valid() && p < |nodes| && prev == nodes[p]
      modifies this, prev
      ensures Valid() && repr == old(repr)
      ensures p + k <= |old(edges)| && edges == Cut(old(edges), p, k)
      ensures p < |nodes| && nodes[p] == prev && cur == prev.next
      ensures included == (wasIncluded != Odd(k))
      ensures forall j :: p <= j < p + k ==> old(edges)[j] <= end
      ensures p + k < |old(edges)| ==> end < old(edges)[p + k]
    {
      cur, included, k := prev.next, wasIncluded, 0;
      ghost var e := edges;
      while cur != null && cur.pos <= end
        invariant Valid() && repr == old(repr) && p + k <= |e|
        invariant edges == Cut(e, p, k)
        invariant p < |nodes| && prev == nodes[p] && cur == prev.next
        invariant included == (wasIncluded != Odd(k))
        invariant forall j :: p <= j < p + k ==> e[j] <= end
        decreases |e| - k
      {
        assert cur == nodes[p + 1] && cur.pos == edges[p];
        CutMore(e, p, k);
        cur := cur.next;
        UnlinkAfter(prev, p);
        included := !included;
        k := k + 1;
      }
      if cur != null {
        assert cur == nodes[p + 1] && cur.pos == edges[p];
        CutMore(e, p, k);
      }
    }

    /** The body of the set operation, with the two edge counts it used. */
    method Rewrite(start: nat, end: nat, newIncluded: bool) returns (ghost a: nat, ghost k: nat)
      requires Valid()
      modifies this, repr
      ensures Valid() && fresh(repr - old(repr))
      ensures a + k <= |old(edges)|
      ensures forall j :: 0 <= j < a ==> old(edges)[j] < start
      ensures a < |old(edges)| ==> start <= old(edges)[a]
      ensures forall j :: a <= j < a + k ==> old(edges)[j] <= end
      ensures a + k < |old(edges)| ==> end < old(edges)[a + k]
      ensures var t, u := Change(newIncluded, a, start), Change(newIncluded, a + k, end);
              edges == Put(Cut(Put(old(edges), a, t), a + |t|, k), a + |t|, u)
    {
      var prev, cur, included;
      prev, cur, included, a := SkipBelow(start);
      ghost var t := Change(newIncluded, a, start);
      prev := InsertIf(newIncluded != included, prev, cur, start, a, t);
      cur, included, k := DropThrough(prev, end, included, a + |t|);
      DroppedBehindPut(old(edges), a, t, k, end);
      OddAdd(a, k);
      var _ := InsertIf(included != newIncluded, prev, cur, end, a + |t|, Change(newIncluded, a + k, end));
    }

    /** The set operation every client goes through; `start != end` is what the
        source asserts. */
    method SetRegionTo(start: nat, end: nat, newIncluded: bool)
      requires Valid() && start != end
      modifies this, repr
      ensures Valid() && fresh(repr - old(repr))
      ensures edges == SetRegion(old(edges), start, end, newIncluded)
    {
      ghost var a, k := Rewrite(start, end, newIncluded);
      ghost var e := old(edges);
      PutCutPut(e, a, Change(newIncluded, a, start), k, Change(newIncluded, a + k, end));
      SetRegionIs(e, start, end, newIncluded, a, k);
    }

    /** Add a range: set union. */
    method Add(start: nat, end: nat)
      requires Valid() && start != end
      modifies this, repr
      ensures Valid() && fresh(repr - old(repr))
      ensures edges == SetRegion(old(edges), start, end, true)
      ensures Canonical(old(edges)) && start < end ==>
                Canonical(edges) &&
                forall x: nat :: Member(edges, x) <==> start <= x < end || Member(old(edges), x)
    {
      SetRegionTo(start, end, true);
      if Canonical(old(edges)) && start < end {
        SetRegionIsSetUpdate(old(edges), start, end, true);
      }
    }

    /** Subtract a range: set difference. */
    method Sub(start: nat, end: nat)
      requires Valid() && start != end
      modifies this, repr
      ensures Valid() && fresh(repr - old(repr))
      ensures edges == SetRegion(old(edges), start, end, false)
      ensures Canonical(old(edges)) && start < end ==>
                Canonical(edges) &&
                forall x: nat :: Member(edges, x) <==> !(start <= x < end) && Member(old(edges), x)
    {
      SetRegionTo(start, end, false);
      if Canonical(old(edges)) && start < end {
        SetRegionIsSetUpdate(old(edges), start, end, false);
      }
    }

    /** The (start, end) pairs the callback is run on, in order; `odd` when the
        walk stopped at an edge without a partner. */
    method ForEach() returns (calls: seq<(nat, nat)>, odd: bool)
      requires Valid()
      ensures calls == Intervals(edges) && odd == Odd(|edges|)
    {
      calls, odd := [], false;
      var cur := head.next;
      ghost var i := 0;
      while cur != null
        invariant i == |calls| && 2 * i <= |edges|
        invariant cur == nodes[2 * i].next
        invariant forall j :: 0 <= j < i ==> calls[j] == (edges[2 * j], edges[2 * j + 1])
        decreases |edges| - 2 * i
      {
        assert cur == nodes[2 * i + 1];
        if cur.next == null {
          assert |edges| == 2 * i + 1;
          assert calls == Intervals(edges);
          odd := true;
          return;
        }
        assert cur.next == nodes[2 * i + 2];
        calls := calls + [(cur.pos, cur.next.pos)];
        cur := cur.next.next;
        i := i + 1;
      }
      assert |edges| == 2 * i;
      assert calls == Intervals(edges);
    }

    /** Subtract a collection of ranges from this one. */
    method SubFrom(sub: Ranges)
      requires Valid() && sub.Valid() && this != sub && repr !! sub.repr
      requires Canonical(edges) && Canonical(sub.edges)
      modifies this, repr
      ensures Valid() && fresh(repr - old(repr)) && Canonical(edges)
      ensures forall x: nat :: Member(edges, x) <==> Member(old(edges), x) && !Member(sub.edges, x)
    {
      var calls, odd := sub.ForEach();
      IntervalsAreMaximal(sub.edges);
      for i := 0 to |calls|
        invariant Valid() && fresh(repr - old(repr)) && Canonical(edges)
        invariant sub.edges == old(sub.edges)
        invariant forall x: nat :: Member(edges, x) <==> Member(old(edges), x) && !InSome(calls[..i], x)
      {
        ghost var before := edges;
        Sub(calls[i].0, calls[i].1);
        forall x: nat
          ensures InSome(calls[..i + 1], x) <==> InSome(calls[..i], x) || calls[i].0 <= x < calls[i].1
        {
          InSomeExtend(calls, i, x);
        }
      }
      assert calls[..|calls|] == calls;
    }
  }
}
