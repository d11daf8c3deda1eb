/** The memory map handed to the kernel (src/boot/dt_util.c): split the machine's
    memory into aligned RAM and reserved padding, then emit the RAM as `reg`
    entries whose sizes fit their cells. */
module DtMemory {
  import opened Basics
  import opened EdgeSets
  import R = Ranges

  const MEMORY_ALIGNMENT: nat := 0x10_0000

  function AlignDown(x: nat): (r: nat)
    ensures r <= x < r + MEMORY_ALIGNMENT && r % MEMORY_ALIGNMENT == 0
  {
    x / MEMORY_ALIGNMENT * MEMORY_ALIGNMENT
  }

  /** Rounds up, in 64 bits. */
  function AlignUp(x: nat): (r: nat)
    ensures r % MEMORY_ALIGNMENT == 0
    ensures x + MEMORY_ALIGNMENT <= U64 ==> x <= r < x + MEMORY_ALIGNMENT
  {
    AlignDown((x + MEMORY_ALIGNMENT - 1) % U64)
  }

  // ---- aligned RAM and padding

  /** `x` is in the aligned core of one of the ranges. */
  ghost predicate InCore(s: seq<(nat, nat)>, x: nat) {
    exists i :: 0 <= i < |s| && AlignUp(s[i].0) <= x < AlignDown(s[i].1)
  }

  /** `x` is in a range that has an aligned core, but not in that core. */
  ghost predicate InPadding(s: seq<(nat, nat)>, x: nat) {
    exists i :: 0 <= i < |s| && IsPadding(s[i], x)
  }

  ghost predicate IsPadding(r: (nat, nat), x: nat) {
    && AlignUp(r.0) < AlignDown(r.1)
    && r.0 <= x < r.1
    && !(AlignUp(r.0) <= x < AlignDown(r.1))
  }

  ghost predicate Bounded(s: seq<(nat, nat)>) {
    forall i :: 0 <= i < |s| ==> s[i].1 + MEMORY_ALIGNMENT <= U64
  }

  /** Every address of the aligned MiB around `x` is in the set. */
  ghost predicate WholeBlock(e: seq<nat>, x: nat) {
    forall y :: AlignDown(x) <= y < AlignDown(x) + MEMORY_ALIGNMENT ==> Member(e, y)
  }

  lemma CoreBlock(lo: nat, hi: nat, x: nat)
    requires lo + MEMORY_ALIGNMENT <= U64
    ensures AlignUp(lo) <= x < AlignDown(hi) <==>
            lo <= AlignDown(x) && AlignDown(x) + MEMORY_ALIGNMENT <= hi
  {
  }

  /** The aligned cores are exactly the whole available MiB blocks. */
  lemma {:induction false} CoreIsWholeBlocks(e: seq<nat>, x: nat)
    requires Canonical(e) && Bounded(Intervals(e))
    ensures InCore(Intervals(e), x) <==> WholeBlock(e, x)
  {
    if InCore(Intervals(e), x) {
      CoreIsWhole(e, x);
    }
    if WholeBlock(e, x) {
      WholeIsCore(e, x);
    }
  }

  lemma {:induction false} CoreIsWhole(e: seq<nat>, x: nat)
    requires Canonical(e) && Bounded(Intervals(e)) && InCore(Intervals(e), x)
    ensures WholeBlock(e, x)
  {
    var s := Intervals(e);
    IntervalsAreMaximal(e);
    var i :| 0 <= i < |s| && AlignUp(s[i].0) <= x < AlignDown(s[i].1);
    CoreBlock(s[i].0, s[i].1, x);
    forall y | AlignDown(x) <= y < AlignDown(x) + MEMORY_ALIGNMENT
      ensures Member(e, y)
    {
      assert s[i].0 <= y < s[i].1;
    }
  }

  lemma {:induction false} WholeIsCore(e: seq<nat>, x: nat)
    requires Canonical(e) && Bounded(Intervals(e)) && WholeBlock(e, x)
    ensures InCore(Intervals(e), x)
  {
    var s := Intervals(e);
    IntervalsAreMaximal(e);
    var i := RunInOneInterval(e, AlignDown(x), MEMORY_ALIGNMENT);
    CoreBlock(s[i].0, s[i].1, x);
  }

  /** An available range with a whole aligned MiB is covered by its core and its
      padding, and both lie inside it. */
  lemma {:induction false} CoreAndPaddingCover(e: seq<nat>, x: nat)
    requires Canonical(e) && Bounded(Intervals(e))
    ensures !(InCore(Intervals(e), x) && InPadding(Intervals(e), x))
    ensures InCore(Intervals(e), x) || InPadding(Intervals(e), x) <==> InRangeWithBlock(e, x)
  {
    IntervalsAreMaximal(e);
    CoverSeparated(Intervals(e), x);
  }

  lemma {:induction false} CoverSeparated(s: seq<(nat, nat)>, x: nat)
    requires Separated(s) && Bounded(s)
    ensures !(InCore(s, x) && InPadding(s, x))
    ensures InCore(s, x) || InPadding(s, x) <==>
            exists i :: 0 <= i < |s| && s[i].0 <= x < s[i].1 && AlignUp(s[i].0) < AlignDown(s[i].1)
  {
    if i :| 0 <= i < |s| && s[i].0 <= x < s[i].1 && AlignUp(s[i].0) < AlignDown(s[i].1) {
      assert IsPadding(s[i], x) || AlignUp(s[i].0) <= x < AlignDown(s[i].1);
    }
  }

  ghost predicate InRangeWithBlock(e: seq<nat>, x: nat) {
    var s := Intervals(e);
    exists i :: 0 <= i < |s| && s[i].0 <= x < s[i].1 && AlignUp(s[i].0) < AlignDown(s[i].1)
  }

  ghost predicate Aligned(e: seq<nat>) {
    forall i :: 0 <= i < |e| ==> e[i] % MEMORY_ALIGNMENT == 0
  }

  lemma {:induction false} SetRegionAligned(e: seq<nat>, start: nat, end: nat, included: bool)
    requires Aligned(e) && start % MEMORY_ALIGNMENT == 0 && end % MEMORY_ALIGNMENT == 0
    ensures Aligned(SetRegion(e, start, end, included))
  {
  }

  /** `if (start < end) ranges_add(...)`. */
  method AddNonEmpty(r: R.Ranges, start: nat, end: nat)
    requires r.Valid() && Canonical(r.edges)
    modifies r, r.repr
    ensures r.Valid() && fresh(r.repr - old(r.repr)) && Canonical(r.edges)
    ensures r.edges == if start < end then SetRegion(old(r.edges), start, end, true) else old(r.edges)
    ensures forall x: nat :: Member(r.edges, x) <==> Member(old(r.edges), x) || start <= x < end
  {
    if start < end {
      r.Add(start, end);
    }
  }

  lemma PaddingIsBothSides(start: nat, end: nat, x: nat)
    requires end + MEMORY_ALIGNMENT <= U64 && start <= end
    ensures IsPadding((start, end), x) <==>
            AlignUp(start) < AlignDown(end) && (start <= x < AlignUp(start) || AlignDown(end) <= x < end)
  {
  }

  /** One available range: its core becomes memory, the rest reserved. */
  method AlignRamRange(mem: R.Ranges, reserved: R.Ranges, start: nat, end: nat)
    requires mem.Valid() && reserved.Valid() && mem != reserved && mem.repr !! reserved.repr
    requires Canonical(mem.edges) && Canonical(reserved.edges) && Aligned(mem.edges)
    requires start < end && end + MEMORY_ALIGNMENT <= U64
    modifies mem, mem.repr, reserved, reserved.repr
    ensures mem.Valid() && reserved.Valid() && mem.repr !! reserved.repr
    ensures fresh(mem.repr - old(mem.repr)) && fresh(reserved.repr - old(reserved.repr))
    ensures Canonical(mem.edges) && Canonical(reserved.edges) && Aligned(mem.edges)
    ensures forall x: nat :: Member(mem.edges, x) <==>
              Member(old(mem.edges), x) || AlignUp(start) <= x < AlignDown(end)
    ensures forall x: nat :: Member(reserved.edges, x) <==>
              Member(old(reserved.edges), x) || IsPadding((start, end), x)
  {
    forall x: nat {
      PaddingIsBothSides(start, end, x);
    }
    var newStart, newEnd := AlignUp(start), AlignDown(end);
    if newStart >= newEnd {
      return;
    }
    AddNonEmpty(reserved, start, newStart);
    SetRegionAligned(mem.edges, newStart, newEnd, true);
    AddNonEmpty(mem, newStart, newEnd);
    AddNonEmpty(reserved, newEnd, end);
  }

  // ---- the whole partition

  datatype MemKind = Ram | Table | Other
  datatype MemRange = MemRange(base: nat, size: nat, kind: MemKind)

  /** What the source demands of the firmware's memory table: non-empty ranges
      (ranges_add asserts it) whose ends, rounded up, have 64-bit addresses. */
  ghost predicate TableOk(m: seq<MemRange>) {
    forall i :: 0 <= i < |m| ==> m[i].size > 0 && m[i].base + m[i].size + MEMORY_ALIGNMENT <= U64
  }

  /** `x` is in a table entry of one of these kinds. */
  ghost predicate Within(m: seq<MemRange>, want: set<MemKind>, x: nat) {
    exists i :: 0 <= i < |m| && m[i].kind in want && m[i].base <= x < m[i].base + m[i].size
  }

  lemma WithinExtend(m: seq<MemRange>, i: nat, want: set<MemKind>, x: nat)
    requires i < |m|
    ensures Within(m[..i + 1], want, x) <==>
            Within(m[..i], want, x) || (m[i].kind in want && m[i].base <= x < m[i].base + m[i].size)
  {
    assert forall j :: 0 <= j < i ==> m[..i + 1][j] == m[..i][j];
    assert m[..i + 1][i] == m[i];
  }

  /** The union of the entries of these kinds, as `dt_update_memory` collects
      available (all kinds), reserved (not RAM) and cbmem (tables). */
  method Collect(m: seq<MemRange>, want: set<MemKind>) returns (r: R.Ranges)
    requires TableOk(m)
    ensures fresh(r) && fresh(r.repr) && r.Valid() && Canonical(r.edges)
    ensures forall x: nat :: Member(r.edges, x) <==> Within(m, want, x)
  {
    r := new R.Ranges();
    for i := 0 to |m|
      invariant fresh(r) && fresh(r.repr) && r.Valid() && Canonical(r.edges)
      invariant forall x: nat :: Member(r.edges, x) <==> Within(m[..i], want, x)
    {
      if m[i].kind in want {
        r.Add(m[i].base, m[i].base + m[i].size);
      }
      forall x: nat {
        WithinExtend(m, i, want, x);
      }
    }
    assert m[..|m|] == m;
  }

  lemma {:induction false} BoundedByTable(m: seq<MemRange>, e: seq<nat>, want: set<MemKind>)
    requires TableOk(m) && Canonical(e) && forall x: nat :: Member(e, x) <==> Within(m, want, x)
    ensures Bounded(Intervals(e))
  {
    var s := Intervals(e);
    IntervalsAreMaximal(e);
    forall i | 0 <= i < |s|
      ensures s[i].1 + MEMORY_ALIGNMENT <= U64
    {
      assert s[i].0 <= s[i].1 - 1 < s[i].1;
      assert Member(e, s[i].1 - 1);
    }
  }

  /** `mem` holds the cores and `res` what was in `base` and the paddings. */
  ghost predicate Sorted(s: seq<(nat, nat)>, mem: seq<nat>, base: seq<nat>, res: seq<nat>) {
    && (forall x: nat :: Member(mem, x) <==> InCore(s, x))
    && (forall x: nat :: Member(res, x) <==> Member(base, x) || InPadding(s, x))
  }

  lemma {:induction false} SortedExtend(
    s: seq<(nat, nat)>, i: nat, base: seq<nat>, mem: seq<nat>, res: seq<nat>, mem': seq<nat>, res': seq<nat>)
    requires i < |s| && Sorted(s[..i], mem, base, res)
    requires forall x: nat :: Member(mem', x) <==> Member(mem, x) || AlignUp(s[i].0) <= x < AlignDown(s[i].1)
    requires forall x: nat :: Member(res', x) <==> Member(res, x) || IsPadding(s[i], x)
    ensures Sorted(s[..i + 1], mem', base, res')
  {
    forall x: nat
      ensures InPadding(s[..i + 1], x) <==> InPadding(s[..i], x) || IsPadding(s[i], x)
      ensures InCore(s[..i + 1], x) <==> InCore(s[..i], x) || AlignUp(s[i].0) <= x < AlignDown(s[i].1)
    {
      assert forall j :: 0 <= j < i ==> s[..i + 1][j] == s[..i][j];
      assert s[..i + 1][i] == s[i];
    }
  }

  method AlignAll(available: R.Ranges, reserved: R.Ranges) returns (mem: R.Ranges)
    requires available.Valid() && reserved.Valid() && available != reserved && available.repr !! reserved.repr
    requires Canonical(available.edges) && Canonical(reserved.edges) && Bounded(Intervals(available.edges))
    modifies reserved, reserved.repr
    ensures fresh(mem) && fresh(mem.repr) && mem.Valid() && reserved.Valid() && mem.repr !! reserved.repr
    ensures fresh(reserved.repr - old(reserved.repr))
    ensures Canonical(mem.edges) && Canonical(reserved.edges) && Aligned(mem.edges)
    ensures Sorted(Intervals(available.edges), mem.edges, old(reserved.edges), reserved.edges)
  {
    mem := new R.Ranges();
    var calls, _ := available.ForEach();
    IntervalsAreMaximal(available.edges);
    for i := 0 to |calls|
      invariant fresh(mem) && fresh(mem.repr) && mem.Valid() && reserved.Valid()
      invariant mem.repr !! reserved.repr && fresh(reserved.repr - old(reserved.repr))
      invariant Canonical(mem.edges) && Canonical(reserved.edges) && Aligned(mem.edges)
      invariant Sorted(calls[..i], mem.edges, old(reserved.edges), reserved.edges)
    {
      ghost var m, r := mem.edges, reserved.edges;
      AlignRamRange(mem, reserved, calls[i].0, calls[i].1);
      SortedExtend(calls, i, old(reserved.edges), m, r, mem.edges, reserved.edges);
    }
    assert calls[..|calls|] == calls;
  }

  /** Take the tables out of the reserved ranges and the protected VM firmware out
      of the tables. */
  method CarveOut(reserved: R.Ranges, cbmem: R.Ranges, pvmfw: nat, pvmfwSize: nat)
    requires reserved.Valid() && cbmem.Valid() && reserved != cbmem && reserved.repr !! cbmem.repr
    requires Canonical(reserved.edges) && Canonical(cbmem.edges)
    modifies reserved, reserved.repr, cbmem, cbmem.repr
    ensures reserved.Valid() && cbmem.Valid() && Canonical(reserved.edges) && Canonical(cbmem.edges)
    ensures forall x: nat :: Member(reserved.edges, x) <==>
              Member(old(reserved.edges), x) && !Member(old(cbmem.edges), x)
    ensures forall x: nat :: Member(cbmem.edges, x) <==>
              Member(old(cbmem.edges), x) && !(pvmfw <= x < pvmfw + pvmfwSize)
  {
    reserved.SubFrom(cbmem);
    if pvmfwSize != 0 {
      cbmem.Sub(pvmfw, pvmfw + pvmfwSize);
    }
  }

  /** The range algebra of `dt_update_memory`. */
  method Partition(m: seq<MemRange>, pvmfw: nat, pvmfwSize: nat)
    returns (mem: R.Ranges, reserved: R.Ranges, cbmem: R.Ranges, ghost available: seq<nat>)
    requires TableOk(m)
    ensures mem.Valid() && reserved.Valid() && cbmem.Valid()
    ensures Canonical(mem.edges) && Canonical(reserved.edges) && Canonical(cbmem.edges)
    ensures Canonical(available) && forall x: nat :: Member(available, x) <==> Within(m, {Ram, Table, Other}, x)
    ensures Aligned(mem.edges) && forall x: nat :: Member(mem.edges, x) <==> WholeBlock(available, x)
    ensures forall x: nat :: Member(reserved.edges, x) <==>
              (Within(m, {Table, Other}, x) || InPadding(Intervals(available), x)) && !Within(m, {Table}, x)
    ensures forall x: nat :: Member(cbmem.edges, x) <==>
              Within(m, {Table}, x) && !(pvmfw <= x < pvmfw + pvmfwSize)
  {
    var avail := Collect(m, {Ram, Table, Other});
    reserved := Collect(m, {Table, Other});
    cbmem := Collect(m, {Table});
    available := avail.edges;
    BoundedByTable(m, available, {Ram, Table, Other});
    mem := AlignAll(avail, reserved);
    ghost var memEdges := mem.edges;
    assert forall x: nat :: Member(memEdges, x) <==> WholeBlock(available, x) by {
      forall x: nat {
        CoreIsWholeBlocks(available, x);
      }
    }
    CarveOut(reserved, cbmem, pvmfw, pvmfwSize);
    assert mem.edges == memEdges;
  }

  // ---- the `reg` property

  /** Half of what `#size-cells` cells can hold; other cell counts would shift
      out of a 64-bit word. */
  function MaxRange(sizeCells: nat): (m: nat)
    requires 1 <= sizeCells <= 2
    ensures m > 0
  {
    if sizeCells == 1 then 0x8000_0000 else 0x8000_0000_0000_0000
  }

  /** ALIGN_UP(size, max) / max: the number of entries the source counts for one
      range, in 64 bits. */
  function Counted(size: nat, max: nat): nat
    requires max > 0
  {
    (size + max - 1) % U64 / max
  }

  /** The entries written for one range. */
  function Entries(start: nat, size: nat, max: nat): seq<(nat, nat)>
    requires max > 0
    decreases size
  {
    if size == 0 then [] else
    var n := if size < max then size else max;
    [(start, n)] + Entries(start + n, size - n, max)
  }

  function AllEntries(s: seq<(nat, nat)>, max: nat): seq<(nat, nat)>
    requires max > 0 && forall i :: 0 <= i < |s| ==> s[i].0 <= s[i].1
  {
    if s == [] then [] else Entries(s[0].0, s[0].1 - s[0].0, max) + AllEntries(s[1..], max)
  }

  function AllCounted(s: seq<(nat, nat)>, max: nat): nat
    requires max > 0 && forall i :: 0 <= i < |s| ==> s[i].0 <= s[i].1
  {
    if s == [] then 0 else Counted(s[0].1 - s[0].0, max) + AllCounted(s[1..], max)
  }

  lemma {:induction false} EntriesLength(start: nat, size: nat, max: nat)
    requires max == 0x8000_0000 || max == 0x8000_0000_0000_0000
    ensures |Entries(start, size, max)| == (size + max - 1) / max
    decreases size
  {
    if size > max {
      EntriesLength(start + max, size - max, max);
    } else if size > 0 {
      assert Entries(start + size, 0, max) == [];
    }
  }

  /** The counted and the written number of entries agree exactly when rounding
      the size up does not leave 64 bits. */
  lemma {:induction false} CountAgreesExactly(start: nat, size: nat, sizeCells: nat)
    requires 1 <= sizeCells <= 2 && 0 < size < U64
    ensures Counted(size, MaxRange(sizeCells)) == |Entries(start, size, MaxRange(sizeCells))| <==>
            size + MaxRange(sizeCells) <= U64
  {
    EntriesLength(start, size, MaxRange(sizeCells));
  }

  /** Consecutive, non-empty, no larger than `max`, from `start` to `end`. */
  ghost predicate Tiles(t: seq<(nat, nat)>, start: nat, end: nat, max: nat) {
    if t == [] then start == end
    else t[0].0 == start && 0 < t[0].1 <= max && start + t[0].1 <= end && Tiles(t[1..], start + t[0].1, end, max)
  }

  lemma {:induction false} EntriesTile(start: nat, size: nat, max: nat)
    requires max > 0
    ensures Tiles(Entries(start, size, max), start, start + size, max)
    decreases size
  {
    if size > 0 {
      var n := if size < max then size else max;
      EntriesTile(start + n, size - n, max);
    }
  }

  /** What `cells` cells of 32 bits can count. */
  function CellLimit(cells: nat): nat {
    if cells == 0 then 1 else 0x1_0000_0000 * CellLimit(cells - 1)
  }

  lemma MaxIsHalf(sizeCells: nat)
    requires 1 <= sizeCells <= 2
    ensures 2 * MaxRange(sizeCells) == CellLimit(sizeCells)
  {
    assert CellLimit(1) == 0x1_0000_0000;
  }

  /** Sizes at most `max`, and all but the last one exactly that. */
  ghost predicate Full(t: seq<(nat, nat)>, max: nat) {
    && (forall i :: 0 <= i < |t| ==> 0 < t[i].1 <= max)
    && (forall i :: 0 <= i < |t| - 1 ==> t[i].1 == max)
  }

  lemma FullCons(start: nat, n: nat, rest: seq<(nat, nat)>, max: nat)
    requires Full(rest, max) && 0 < n <= max && (rest != [] ==> n == max)
    ensures Full([(start, n)] + rest, max)
  {
    var t := [(start, n)] + rest;
    assert forall i :: 0 < i < |t| ==> t[i] == rest[i - 1];
  }

  lemma {:induction false} EntriesAreFull(start: nat, size: nat, max: nat)
    requires max > 0
    ensures Full(Entries(start, size, max), max)
    decreases size
  {
    if size > 0 {
      var n := if size < max then size else max;
      EntriesAreFull(start + n, size - n, max);
      FullCons(start, n, Entries(start + n, size - n, max), max);
    }
  }

  /** Why ranges are split: every size fits its cells, and all but the last entry of a
      range are as large as half of what the cells can count. */
  lemma {:induction false} EntriesFillCells(start: nat, size: nat, sizeCells: nat)
    requires 1 <= sizeCells <= 2
    ensures var t := Entries(start, size, MaxRange(sizeCells));
            FitCells(t, sizeCells) && forall i :: 0 <= i < |t| - 1 ==> 2 * t[i].1 == CellLimit(sizeCells)
  {
    MaxIsHalf(sizeCells);
    EntriesAreFull(start, size, MaxRange(sizeCells));
  }

  /** Every size can be written into so many cells. */
  ghost predicate FitCells(t: seq<(nat, nat)>, cells: nat) {
    forall i :: 0 <= i < |t| ==> 0 < t[i].1 < CellLimit(cells)
  }

  lemma FitConcat(a: seq<(nat, nat)>, b: seq<(nat, nat)>, cells: nat)
    requires FitCells(a, cells) && FitCells(b, cells)
    ensures FitCells(a + b, cells)
  {
    forall i | 0 <= i < |a + b|
      ensures 0 < (a + b)[i].1 < CellLimit(cells)
    {
      assert (a + b)[i] == if i < |a| then a[i] else b[i - |a|];
    }
  }

  lemma {:induction false} AllEntriesFit(s: seq<(nat, nat)>, sizeCells: nat)
    requires 1 <= sizeCells <= 2 && forall i :: 0 <= i < |s| ==> s[i].0 <= s[i].1
    ensures FitCells(AllEntries(s, MaxRange(sizeCells)), sizeCells)
  {
    if s != [] {
      EntriesFillCells(s[0].0, s[0].1 - s[0].0, sizeCells);
      AllEntriesFit(s[1..], sizeCells);
      FitConcat(Entries(s[0].0, s[0].1 - s[0].0, MaxRange(sizeCells)), AllEntries(s[1..], MaxRange(sizeCells)), sizeCells);
    }
  }

  /** `x` is in one of the (address, size) entries. */
  ghost predicate InEntry(t: seq<(nat, nat)>, x: nat) {
    exists i :: 0 <= i < |t| && t[i].0 <= x < t[i].0 + t[i].1
  }

  lemma InEntrySplit(t: seq<(nat, nat)>, u: seq<(nat, nat)>, x: nat)
    ensures InEntry(t + u, x) <==> InEntry(t, x) || InEntry(u, x)
  {
    if InEntry(t, x) {
      var i :| 0 <= i < |t| && t[i].0 <= x < t[i].0 + t[i].1;
      assert (t + u)[i] == t[i];
    }
    if InEntry(u, x) {
      var i :| 0 <= i < |u| && u[i].0 <= x < u[i].0 + u[i].1;
      assert (t + u)[|t| + i] == u[i];
    }
  }

  lemma {:induction false} TilesCover(t: seq<(nat, nat)>, start: nat, end: nat, max: nat, x: nat)
    requires Tiles(t, start, end, max)
    ensures start <= end
    ensures InEntry(t, x) <==> start <= x < end
  {
    if t != [] {
      TilesCover(t[1..], start + t[0].1, end, max, x);
      InEntrySplit([t[0]], t[1..], x);
      assert t == [t[0]] + t[1..];
      assert InEntry([t[0]], x) <==> [t[0]][0].0 <= x < [t[0]][0].0 + [t[0]][0].1;
    }
  }

  /** The emitted entries cover exactly the RAM set. */
  lemma {:induction false} RegCoversMemory(e: seq<nat>, max: nat, x: nat)
    requires Canonical(e) && max > 0
    ensures forall i :: 0 <= i < |Intervals(e)| ==> Intervals(e)[i].0 <= Intervals(e)[i].1
    ensures InEntry(AllEntries(Intervals(e), max), x) <==> Member(e, x)
  {
    IntervalsAreMaximal(e);
    AllEntriesCover(Intervals(e), max, x);
  }

  lemma {:induction false} AllEntriesCover(s: seq<(nat, nat)>, max: nat, x: nat)
    requires max > 0 && forall i :: 0 <= i < |s| ==> s[i].0 <= s[i].1
    ensures InEntry(AllEntries(s, max), x) <==> InSome(s, x)
  {
    if s != [] {
      var size := s[0].1 - s[0].0;
      EntriesTile(s[0].0, size, max);
      TilesCover(Entries(s[0].0, size, max), s[0].0, s[0].1, max, x);
      InEntrySplit(Entries(s[0].0, size, max), AllEntries(s[1..], max), x);
      AllEntriesCover(s[1..], max, x);
      InSomeExtendFront(s, x);
    }
  }

  lemma InSomeExtendFront(s: seq<(nat, nat)>, x: nat)
    requires s != []
    ensures InSome(s, x) <==> s[0].0 <= x < s[0].1 || InSome(s[1..], x)
  {
    if InSome(s[1..], x) {
      var i :| 0 <= i < |s[1..]| && s[1..][i].0 <= x < s[1..][i].1;
      assert s[i + 1] == s[1..][i];
    }
    if i :| 0 < i < |s| && s[i].0 <= x < s[i].1 {
      assert s[1..][i - 1] == s[i];
    }
  }

  /** Rounding every size up to a multiple of the maximum stays within 64 bits. */
  ghost predicate RoundsUp(s: seq<(nat, nat)>, max: nat) {
    forall i :: 0 <= i < |s| ==> s[i].1 - s[i].0 + max <= U64
  }

  ghost predicate Addresses(s: seq<(nat, nat)>) {
    forall i :: 0 <= i < |s| ==> s[i].0 < s[i].1 < U64
  }

  lemma {:induction false} CountIsAtMost(start: nat, size: nat, sizeCells: nat)
    requires 1 <= sizeCells <= 2
    ensures Counted(size, MaxRange(sizeCells)) <= |Entries(start, size, MaxRange(sizeCells))|
  {
    EntriesLength(start, size, MaxRange(sizeCells));
  }

  lemma RoundsUpFirst(s: seq<(nat, nat)>, max: nat)
    requires s != []
    ensures RoundsUp(s, max) <==> s[0].1 - s[0].0 + max <= U64 && RoundsUp(s[1..], max)
  {
    if s[0].1 - s[0].0 + max <= U64 && RoundsUp(s[1..], max) {
      forall i | 0 <= i < |s|
        ensures s[i].1 - s[i].0 + max <= U64
      {
        assert i > 0 ==> s[i] == s[1..][i - 1];
      }
    }
  }

  /** Never more entries are counted than written, and as many exactly when all sizes
      round up within 64 bits. */
  lemma {:induction false} AllCountedExactly(s: seq<(nat, nat)>, sizeCells: nat)
    requires 1 <= sizeCells <= 2 && Addresses(s)
    ensures AllCounted(s, MaxRange(sizeCells)) <= |AllEntries(s, MaxRange(sizeCells))|
    ensures AllCounted(s, MaxRange(sizeCells)) == |AllEntries(s, MaxRange(sizeCells))| <==>
            RoundsUp(s, MaxRange(sizeCells))
  {
    if s != [] {
      CountIsAtMost(s[0].0, s[0].1 - s[0].0, sizeCells);
      CountAgreesExactly(s[0].0, s[0].1 - s[0].0, sizeCells);
      AllCountedExactly(s[1..], sizeCells);
      RoundsUpFirst(s, MaxRange(sizeCells));
    }
  }

  /** The callback that writes one range: `data` is what was written before. */
  method UpdateMemProperty(data: seq<(nat, nat)>, start: nat, end: nat, sizeCells: nat)
    returns (written: seq<(nat, nat)>)
    requires 1 <= sizeCells <= 2 && start <= end
    ensures written == data + Entries(start, end - start, MaxRange(sizeCells))
    ensures forall i :: |data| <= i < |written| ==> 0 < written[i].1 < CellLimit(sizeCells)
    ensures forall i :: |data| <= i < |written| - 1 ==> 2 * written[i].1 == CellLimit(sizeCells)
  {
    EntriesFillCells(start, end - start, sizeCells);
    written := data;
    var cur: nat, fullSize: nat := start, end - start;
    while fullSize != 0
      invariant cur + fullSize == end
      invariant written + Entries(cur, fullSize, MaxRange(sizeCells)) ==
                data + Entries(start, end - start, MaxRange(sizeCells))
    {
      var maxSize := MaxRange(sizeCells);
      var size := if maxSize < fullSize then maxSize else fullSize;
      written := written + [(cur, size)];
      cur := cur + size;
      fullSize := fullSize - size;
    }
  }

  method CountEntries(calls: seq<(nat, nat)>, sizeCells: nat) returns (count: nat)
    requires 1 <= sizeCells <= 2 && forall i :: 0 <= i < |calls| ==> calls[i].0 <= calls[i].1
    ensures count == AllCounted(calls, MaxRange(sizeCells)) % U32
  {
    count := 0;
    ghost var total: nat := 0;
    for i := 0 to |calls|
      invariant total + AllCounted(calls[i..], MaxRange(sizeCells)) == AllCounted(calls, MaxRange(sizeCells))
      invariant count == total % U32
    {
      assert calls[i..][1..] == calls[i + 1..];
      var n := Counted(calls[i].1 - calls[i].0, MaxRange(sizeCells));
      ModAdd(total, n);
      count := (count + n) % U32;
      total := total + n;
    }
  }

  method WriteEntries(calls: seq<(nat, nat)>, sizeCells: nat) returns (written: seq<(nat, nat)>)
    requires 1 <= sizeCells <= 2 && forall i :: 0 <= i < |calls| ==> calls[i].0 <= calls[i].1
    ensures written == AllEntries(calls, MaxRange(sizeCells))
  {
    written := [];
    for i := 0 to |calls|
      invariant written + AllEntries(calls[i..], MaxRange(sizeCells)) == AllEntries(calls, MaxRange(sizeCells))
    {
      assert calls[i..][1..] == calls[i + 1..];
      ghost var before := written;
      written := UpdateMemProperty(written, calls[i].0, calls[i].1, sizeCells);
      Assoc(before, Entries(calls[i].0, calls[i].1 - calls[i].0, MaxRange(sizeCells)),
            AllEntries(calls[i + 1..], MaxRange(sizeCells)));
    }
  }

  /** Count, allocate, write. `length` is the byte length allocated from the
      32-bit count, `written` the entries put there. */
  method EmitReg(mem: R.Ranges, addrCells: nat, sizeCells: nat)
    returns (length: nat, written: seq<(nat, nat)>)
    requires mem.Valid() && Canonical(mem.edges) && 1 <= sizeCells <= 2
    ensures forall i :: 0 <= i < |Intervals(mem.edges)| ==> Intervals(mem.edges)[i].0 <= Intervals(mem.edges)[i].1
    ensures written == AllEntries(Intervals(mem.edges), MaxRange(sizeCells))
    ensures FitCells(written, sizeCells)
    ensures length == AllCounted(Intervals(mem.edges), MaxRange(sizeCells)) % U32 * (addrCells + sizeCells) % U32 * 4
  {
    var calls, _ := mem.ForEach();
    IntervalsAreMaximal(mem.edges);
    var count := CountEntries(calls, sizeCells);
    length := count * (addrCells + sizeCells) % U32 * 4;
    written := WriteEntries(calls, sizeCells);
    AllEntriesFit(calls, sizeCells);
  }

  lemma ModAdd(a: nat, b: nat)
    ensures (a % U32 + b) % U32 == (a + b) % U32
  {
  }

  /** The final assertion of `dt_update_memory`: the space allocated is the space
      written exactly when every size rounds up within 64 bits and the number of
      cells fits the 32-bit arithmetic it is computed in. */
  lemma {:induction false} AllocatedIsWritten(e: seq<nat>, addrCells: nat, sizeCells: nat)
    requires Canonical(e) && 1 <= sizeCells <= 2 && Addresses(Intervals(e))
    ensures AllCounted(Intervals(e), MaxRange(sizeCells)) % U32 * (addrCells + sizeCells) % U32 * 4 ==
            |AllEntries(Intervals(e), MaxRange(sizeCells))| * (addrCells + sizeCells) * 4 <==>
            && RoundsUp(Intervals(e), MaxRange(sizeCells))
            && |AllEntries(Intervals(e), MaxRange(sizeCells))| * (addrCells + sizeCells) < U32
  {
    AllCountedExactly(Intervals(e), sizeCells);
    LengthExactly(AllCounted(Intervals(e), MaxRange(sizeCells)), |AllEntries(Intervals(e), MaxRange(sizeCells))|,
                  addrCells + sizeCells);
  }

  /** The length computed from a count `a` in 32 bits is that of `n` entries exactly
      when the count is right and the product fits. */
  lemma {:induction false} LengthExactly(a: nat, n: nat, c: nat)
    requires a <= n && c > 0
    ensures a % U32 * c % U32 * 4 == n * c * 4 <==> n * c < U32 && a == n
  {
    if n * c < U32 {
      ProductGrows(a, n, c);
      assert a % U32 == a && a * c % U32 == a * c;
    }
  }

  lemma ProductGrows(a: nat, n: nat, c: nat)
    requires a <= n && c > 0
    ensures n <= n * c && a * c <= n * c && (a < n ==> a * c < n * c)
  {
    assert n * c == a * c + (n - a) * c;
  }
}
