/** Physical KASLR (src/arch/arm/boot64.c): count the places the kernel image
    fits, then walk the same ranges again to the selected one. */
module Kaslr {
  import opened Basics
  import opened EdgeSets
  import R = Ranges

  const KERNEL_ALIGNMENT: nat := 0x20_0000
  const FOUR_GIB: nat := 0x1_0000_0000

  // ---- the arithmetic of the source, with its 64- and 32-bit wrap-around

  function AlignDown(x: nat): (r: nat)
    ensures r <= x < r + KERNEL_ALIGNMENT && r % KERNEL_ALIGNMENT == 0
  {
    x / KERNEL_ALIGNMENT * KERNEL_ALIGNMENT
  }

  function Kstart(start: nat, loadOffset: nat): nat {
    var k := (AlignDown(start) + loadOffset) % U64;
    if k < start then (k + KERNEL_ALIGNMENT) % U64 else k
  }

  /** Slot count and first slot of one range. */
  function KaslrRange(start: nat, end: nat, imageSize: nat, loadOffset: nat): (nat, nat) {
    var kstart := Kstart(start, loadOffset);
    if (kstart + imageSize) % U64 > end then (0, kstart) else
    var last := (AlignDown((end - imageSize - loadOffset) % U64) + loadOffset) % U64;
    (((last - kstart) % U64 / KERNEL_ALIGNMENT + 1) % U32, kstart)
  }

  // ---- what it is meant to compute

  /** The image may be placed at `a` in `[start, end)`. */
  ghost predicate Fits(start: nat, end: nat, size: nat, off: nat, a: nat) {
    a % KERNEL_ALIGNMENT == off && start <= a && a + size <= end
  }

  /** The first address from `start` on with the right offset. */
  function First(start: nat, off: nat): nat
    requires off < KERNEL_ALIGNMENT
  {
    start + (off - start) % KERNEL_ALIGNMENT
  }

  function SlotsIn(start: nat, end: nat, size: nat, off: nat): nat
    requires off < KERNEL_ALIGNMENT
  {
    var first := First(start, off);
    if first + size > end then 0 else (end - size - first) / KERNEL_ALIGNMENT + 1
  }

  /** The no-overflow condition: a slot just above the range, with the image in
      it, still has 64-bit addresses. */
  ghost predicate Representable(end: nat, size: nat) {
    end + KERNEL_ALIGNMENT + size <= U64
  }

  lemma FirstIsLeast(start: nat, off: nat, a: nat)
    requires off < KERNEL_ALIGNMENT && start <= a && a % KERNEL_ALIGNMENT == off
    ensures First(start, off) % KERNEL_ALIGNMENT == off
    ensures start <= First(start, off) <= a && (a - First(start, off)) % KERNEL_ALIGNMENT == 0
  {
  }

  lemma FirstAligned(start: nat, off: nat)
    requires off < KERNEL_ALIGNMENT
    ensures First(start, off) % KERNEL_ALIGNMENT == off && First(start, off) < start + KERNEL_ALIGNMENT
  {
  }

  lemma KstartIsFirst(start: nat, off: nat)
    requires off < KERNEL_ALIGNMENT && start + KERNEL_ALIGNMENT <= U64
    ensures Kstart(start, off) == First(start, off)
  {
  }

  /** A load offset of a whole alignment unit or more: the source's first slot is
      then the first one only when the range starts above the offset's residue. */
  lemma KstartExactly(start: nat, off: nat)
    requires start + off + KERNEL_ALIGNMENT <= U64
    ensures Kstart(start, off) == First(start, off % KERNEL_ALIGNMENT) <==>
            off < KERNEL_ALIGNMENT ||
            (off < 2 * KERNEL_ALIGNMENT && off % KERNEL_ALIGNMENT < start % KERNEL_ALIGNMENT)
  {
    var b, r := AlignDown(start), off % KERNEL_ALIGNMENT;
    assert First(start, r) == if b + r < start then b + r + KERNEL_ALIGNMENT else b + r by {
      KstartIsFirst(start, r);
    }
  }

  /** Counting from the aligned-down last base gives the same quotient. */
  lemma SameQuotient(y: nat, p: nat)
    requires p * KERNEL_ALIGNMENT <= y
    ensures AlignDown(y) >= p * KERNEL_ALIGNMENT
    ensures (AlignDown(y) - p * KERNEL_ALIGNMENT) / KERNEL_ALIGNMENT == (y - p * KERNEL_ALIGNMENT) / KERNEL_ALIGNMENT
  {
  }

  /** The last candidate, and how many there are up to it. */
  lemma LastIs(first: nat, end: nat, size: nat, off: nat)
    requires off < KERNEL_ALIGNMENT && first % KERNEL_ALIGNMENT == off && first + size <= end < U64
    ensures off <= first && (end - size - off) % U64 == end - size - off
    ensures var last := AlignDown(end - size - off) + off;
            first <= last < U64 && (last - first) / KERNEL_ALIGNMENT == (end - size - first) / KERNEL_ALIGNMENT
  {
    var p, y := first / KERNEL_ALIGNMENT, end - size - off;
    assert first == p * KERNEL_ALIGNMENT + off;
    SameQuotient(y, p);
  }

  lemma Below64(n: nat)
    requires n < U64
    ensures n % U64 == n
  {
  }

  lemma KaslrRangeIs(start: nat, end: nat, size: nat, off: nat)
    requires off < KERNEL_ALIGNMENT && start <= end && Representable(end, size)
    ensures KaslrRange(start, end, size, off) == (SlotsIn(start, end, size, off) % U32, First(start, off))
  {
    KstartIsFirst(start, off);
    FirstAligned(start, off);
    var first := First(start, off);
    Below64(first + size);
    if first + size <= end {
      LastIs(first, end, size, off);
      var last := AlignDown(end - size - off) + off;
      Below64(last);
      Below64(last - first);
    }
  }

  // ---- all ranges of an edge list

  /** The image placed at `a` lies in available memory with the right offset. */
  ghost predicate Placement(e: seq<nat>, size: nat, off: nat, a: nat) {
    a % KERNEL_ALIGNMENT == off && forall x :: a <= x < a + size ==> Member(e, x)
  }

  function Total(s: seq<(nat, nat)>, size: nat, off: nat): nat
    requires off < KERNEL_ALIGNMENT
  {
    if s == [] then 0 else SlotsIn(s[0].0, s[0].1, size, off) + Total(s[1..], size, off)
  }

  /** The address of slot `k`, counting through the ranges in order. */
  function Slot(s: seq<(nat, nat)>, size: nat, off: nat, k: nat): nat
    requires off < KERNEL_ALIGNMENT && k < Total(s, size, off)
  {
    var n := SlotsIn(s[0].0, s[0].1, size, off);
    if k < n then First(s[0].0, off) + k * KERNEL_ALIGNMENT else Slot(s[1..], size, off, k - n)
  }

  ghost predicate IsSlot(s: seq<(nat, nat)>, size: nat, off: nat, a: nat)
    requires off < KERNEL_ALIGNMENT
  {
    exists k: nat :: k < Total(s, size, off) && Slot(s, size, off, k) == a
  }

  lemma SlotFits(start: nat, end: nat, size: nat, off: nat, k: nat)
    requires off < KERNEL_ALIGNMENT && k < SlotsIn(start, end, size, off)
    ensures Fits(start, end, size, off, First(start, off) + k * KERNEL_ALIGNMENT)
  {
    FirstAligned(start, off);
  }

  lemma FittingIsSlot(start: nat, end: nat, size: nat, off: nat, a: nat) returns (k: nat)
    requires off < KERNEL_ALIGNMENT && Fits(start, end, size, off, a)
    ensures k < SlotsIn(start, end, size, off) && a == First(start, off) + k * KERNEL_ALIGNMENT
  {
    FirstIsLeast(start, off, a);
    k := (a - First(start, off)) / KERNEL_ALIGNMENT;
  }

  lemma {:induction false} SlotInRange(s: seq<(nat, nat)>, size: nat, off: nat, k: nat) returns (i: nat)
    requires off < KERNEL_ALIGNMENT && k < Total(s, size, off)
    ensures i < |s| && Fits(s[i].0, s[i].1, size, off, Slot(s, size, off, k))
  {
    var n := SlotsIn(s[0].0, s[0].1, size, off);
    if k < n {
      SlotFits(s[0].0, s[0].1, size, off, k);
      i := 0;
    } else {
      i := SlotInRange(s[1..], size, off, k - n);
      i := i + 1;
    }
  }

  lemma {:induction false} FittingInRangeIsSlot(s: seq<(nat, nat)>, size: nat, off: nat, i: nat, a: nat) returns (k: nat)
    requires off < KERNEL_ALIGNMENT && i < |s| && Fits(s[i].0, s[i].1, size, off, a)
    ensures k < Total(s, size, off) && Slot(s, size, off, k) == a
  {
    if i == 0 {
      k := FittingIsSlot(s[0].0, s[0].1, size, off, a);
    } else {
      k := FittingInRangeIsSlot(s[1..], size, off, i - 1, a);
      k := k + SlotsIn(s[0].0, s[0].1, size, off);
    }
  }

  lemma {:induction false} SlotsIncrease(s: seq<(nat, nat)>, size: nat, off: nat, j: nat, k: nat)
    requires off < KERNEL_ALIGNMENT && Separated(s) && j < k < Total(s, size, off)
    ensures Slot(s, size, off, j) < Slot(s, size, off, k)
  {
    var n := SlotsIn(s[0].0, s[0].1, size, off);
    if n <= j {
      SlotsIncrease(s[1..], size, off, j - n, k - n);
    } else if n <= k {
      SlotFits(s[0].0, s[0].1, size, off, j);
      var i := SlotInRange(s[1..], size, off, k - n);
    }
  }

  /** Slot numbers are a bijection onto the placements: every number below the
      total names a placement, larger numbers name larger addresses, and every
      placement has a number. */
  lemma {:induction false} SlotsArePlacements(e: seq<nat>, size: nat, off: nat)
    requires Canonical(e) && off < KERNEL_ALIGNMENT && size > 0
    ensures forall k :: 0 <= k < Total(Intervals(e), size, off) ==>
                        Placement(e, size, off, Slot(Intervals(e), size, off, k))
    ensures forall j, k :: 0 <= j < k < Total(Intervals(e), size, off) ==>
                        Slot(Intervals(e), size, off, j) < Slot(Intervals(e), size, off, k)
    ensures forall a: nat :: Placement(e, size, off, a) ==> IsSlot(Intervals(e), size, off, a)
  {
    var s := Intervals(e);
    IntervalsAreMaximal(e);
    forall k | 0 <= k < Total(s, size, off)
      ensures Placement(e, size, off, Slot(s, size, off, k))
    {
      var i := SlotInRange(s, size, off, k);
      var a := Slot(s, size, off, k);
      forall x | a <= x < a + size
        ensures Member(e, x)
      {
        assert s[i].0 <= x < s[i].1;
      }
    }
    forall j, k | 0 <= j < k < Total(s, size, off)
      ensures Slot(s, size, off, j) < Slot(s, size, off, k)
    {
      SlotsIncrease(s, size, off, j, k);
    }
    forall a: nat | Placement(e, size, off, a)
      ensures IsSlot(s, size, off, a)
    {
      var i := RunInOneInterval(e, a, size);
      var k := FittingInRangeIsSlot(s, size, off, i, a);
    }
  }

  // ---- the walk over the ranges

  /** Context shared by the two callbacks. */
  class KaslrContext {
    const imageSize: nat
    const loadOffset: nat
    var totalSlots: nat
    var selectedSlot: nat
    var resultAddr: nat

    constructor (imageSize: nat, loadOffset: nat)
      ensures this.imageSize == imageSize && this.loadOffset == loadOffset
      ensures totalSlots == 0 && selectedSlot == 0 && resultAddr == 0
    {
      this.imageSize, this.loadOffset := imageSize, loadOffset;
      totalSlots, selectedSlot, resultAddr := 0, 0, 0;
    }

    method CountSlots(start: nat, end: nat)
      modifies this`totalSlots
      ensures totalSlots == (old(totalSlots) + KaslrRange(start, end, imageSize, loadOffset).0) % U32
    {
      var (n, _) := KaslrRange(start, end, imageSize, loadOffset);
      totalSlots := (totalSlots + n) % U32;
    }

    method PickSlot(start: nat, end: nat)
      modifies this`selectedSlot, this`resultAddr
      ensures var (n, first) := KaslrRange(start, end, imageSize, loadOffset);
              if old(resultAddr) != 0 then resultAddr == old(resultAddr) && selectedSlot == old(selectedSlot)
              else if old(selectedSlot) < n then
                resultAddr == (first + old(selectedSlot) * KERNEL_ALIGNMENT) % U64 && selectedSlot == old(selectedSlot)
              else resultAddr == 0 && selectedSlot == old(selectedSlot) - n
    {
      if resultAddr != 0 {
        return;
      }
      var (slotsInRange, kstart) := KaslrRange(start, end, imageSize, loadOffset);
      if selectedSlot < slotsInRange {
        resultAddr := (kstart + selectedSlot * KERNEL_ALIGNMENT) % U64;
      } else {
        selectedSlot := selectedSlot - slotsInRange;
      }
    }
  }

  /** Ranges for which none of the fixed-width computations overflows. */
  ghost predicate Sized(s: seq<(nat, nat)>, size: nat, off: nat) {
    && off < KERNEL_ALIGNMENT
    && (forall i :: 0 <= i < |s| ==> s[i].0 <= s[i].1 && Representable(s[i].1, size))
    && Total(s, size, off) < U32
  }

  /** What the second traversal returns, with 0 standing for "not found yet". */
  function Picked(s: seq<(nat, nat)>, size: nat, off: nat, selected: nat): nat
    requires off < KERNEL_ALIGNMENT
  {
    if s == [] then 0 else
    var n := SlotsIn(s[0].0, s[0].1, size, off);
    if n <= selected then Picked(s[1..], size, off, selected - n) else
    var a := First(s[0].0, off) + selected * KERNEL_ALIGNMENT;
    if a != 0 then a else Picked(s[1..], size, off, selected)
  }

  /** Because 0 means "not found", the traversal finds the selected slot exactly
      when that slot is not address 0, or no slot follows it. */
  lemma {:induction false} PickedIsSlot(s: seq<(nat, nat)>, size: nat, off: nat, k: nat)
    requires off < KERNEL_ALIGNMENT && Separated(s) && k < Total(s, size, off)
    ensures Picked(s, size, off, k) == Slot(s, size, off, k) <==>
            Slot(s, size, off, k) != 0 || Total(s[1..], size, off) == 0
  {
    var n := SlotsIn(s[0].0, s[0].1, size, off);
    if n <= k {
      PositiveSlots(s[1..], size, off, k - n);
      assert forall i :: 0 < i < |s| ==> s[0].1 < s[i].0;
      PickedPositive(s[1..], size, off, k - n);
    } else if First(s[0].0, off) + k * KERNEL_ALIGNMENT == 0 {
      if 0 < Total(s[1..], size, off) {
        PickedPositive(s[1..], size, off, 0);
        PositiveSlots(s[1..], size, off, 0);
      } else {
        PickedNothing(s[1..], size, off, k);
      }
    }
  }

  lemma {:induction false} PositiveSlots(s: seq<(nat, nat)>, size: nat, off: nat, k: nat)
    requires off < KERNEL_ALIGNMENT && k < Total(s, size, off)
    requires forall i :: 0 <= i < |s| ==> 0 < s[i].0
    ensures 0 < Slot(s, size, off, k)
  {
    var i := SlotInRange(s, size, off, k);
  }

  lemma {:induction false} PickedPositive(s: seq<(nat, nat)>, size: nat, off: nat, k: nat)
    requires off < KERNEL_ALIGNMENT && k < Total(s, size, off)
    requires forall i :: 0 <= i < |s| ==> 0 < s[i].0
    ensures Picked(s, size, off, k) == Slot(s, size, off, k)
  {
    var n := SlotsIn(s[0].0, s[0].1, size, off);
    if n <= k {
      PickedPositive(s[1..], size, off, k - n);
    }
  }

  lemma {:induction false} PickedNothing(s: seq<(nat, nat)>, size: nat, off: nat, k: nat)
    requires off < KERNEL_ALIGNMENT && Total(s, size, off) == 0
    ensures Picked(s, size, off, k) == 0
  {
    if s != [] {
      PickedNothing(s[1..], size, off, k);
    }
  }

  lemma {:induction false} SuffixTotal(s: seq<(nat, nat)>, size: nat, off: nat, i: nat)
    requires off < KERNEL_ALIGNMENT && i < |s|
    ensures Total(s[i..], size, off) == SlotsIn(s[i].0, s[i].1, size, off) + Total(s[i + 1..], size, off)
    ensures Total(s[i..], size, off) <= Total(s, size, off)
  {
    assert s[i..][1..] == s[i + 1..];
    if i > 0 {
      assert s[1..][i - 1..] == s[i..];
      SuffixTotal(s[1..], size, off, i - 1);
    } else {
      assert s[0..] == s;
    }
  }

  lemma SmallRange(start: nat, end: nat, size: nat, off: nat)
    requires off < KERNEL_ALIGNMENT && start <= end && Representable(end, size)
    requires SlotsIn(start, end, size, off) < U32
    ensures KaslrRange(start, end, size, off) == (SlotsIn(start, end, size, off), First(start, off))
  {
    var n := SlotsIn(start, end, size, off);
    assert KaslrRange(start, end, size, off) == (n % U32, First(start, off)) by {
      KaslrRangeIs(start, end, size, off);
    }
    SmallWord(n);
  }

  lemma SmallWord(n: nat)
    requires n < U32
    ensures n % U32 == n
  {
  }

  lemma {:induction false} SizedRange(s: seq<(nat, nat)>, size: nat, off: nat, i: nat)
    requires Sized(s, size, off) && i < |s|
    ensures KaslrRange(s[i].0, s[i].1, size, off) == (SlotsIn(s[i].0, s[i].1, size, off), First(s[i].0, off))
  {
    assert SlotsIn(s[i].0, s[i].1, size, off) < U32 by {
      SuffixTotal(s, size, off, i);
    }
    SmallRange(s[i].0, s[i].1, size, off);
  }

  // ---- the two traversals, in fixed width

  /** What the first traversal counts. */
  function Counted(s: seq<(nat, nat)>, size: nat, off: nat): (n: nat)
    ensures n < U32
  {
    if s == [] then 0 else (KaslrRange(s[0].0, s[0].1, size, off).0 + Counted(s[1..], size, off)) % U32
  }

  /** What the second one finds, looking for slot `selected`. */
  function Walked(s: seq<(nat, nat)>, size: nat, off: nat, selected: nat): nat {
    if s == [] then 0 else
    var (n, first) := KaslrRange(s[0].0, s[0].1, size, off);
    if n <= selected then Walked(s[1..], size, off, selected - n) else
    var a := (first + selected * KERNEL_ALIGNMENT) % U64;
    if a != 0 then a else Walked(s[1..], size, off, selected)
  }

  ghost predicate AllRepresentable(s: seq<(nat, nat)>, size: nat) {
    forall i :: 0 <= i < |s| ==> s[i].0 <= s[i].1 && Representable(s[i].1, size)
  }

  lemma ModAdd(a: nat, b: nat)
    ensures (a % U32 + b % U32) % U32 == (a + b) % U32
  {
  }

  lemma {:induction false} CountedIs(s: seq<(nat, nat)>, size: nat, off: nat)
    requires off < KERNEL_ALIGNMENT && AllRepresentable(s, size)
    ensures Counted(s, size, off) == Total(s, size, off) % U32
  {
    if s != [] {
      KaslrRangeIs(s[0].0, s[0].1, size, off);
      CountedIs(s[1..], size, off);
      ModAdd(SlotsIn(s[0].0, s[0].1, size, off), Total(s[1..], size, off));
    }
  }

  /** The first traversal counts all slots exactly when they fit 32 bits. */
  lemma {:induction false} CountedExactly(s: seq<(nat, nat)>, size: nat, off: nat)
    requires off < KERNEL_ALIGNMENT && AllRepresentable(s, size)
    ensures Counted(s, size, off) == Total(s, size, off) <==> Total(s, size, off) < U32
  {
    CountedIs(s, size, off);
    WordExactly(Total(s, size, off), Counted(s, size, off));
  }

  lemma WordExactly(n: nat, m: nat)
    requires m == n % U32
    ensures m == n <==> n < U32
  {
  }

  lemma {:induction false} SizedRest(s: seq<(nat, nat)>, size: nat, off: nat)
    requires Sized(s, size, off) && s != []
    ensures Sized(s[1..], size, off)
  {
  }

  /** The second traversal is the walk over the mathematical slots. */
  lemma {:induction false} WalkedIs(s: seq<(nat, nat)>, size: nat, off: nat, k: nat)
    requires Sized(s, size, off)
    ensures Walked(s, size, off, k) == Picked(s, size, off, k)
  {
    if s != [] {
      SizedRest(s, size, off);
      SizedRange(s, size, off, 0);
      var n := SlotsIn(s[0].0, s[0].1, size, off);
      if n <= k {
        WalkedIs(s[1..], size, off, k - n);
      } else {
        SlotFits(s[0].0, s[0].1, size, off, k);
        Below64(First(s[0].0, off) + k * KERNEL_ALIGNMENT);
        WalkedIs(s[1..], size, off, k);
      }
    }
  }

  method CountAll(ctx: KaslrContext, calls: seq<(nat, nat)>)
    requires ctx.totalSlots == 0
    modifies ctx`totalSlots
    ensures ctx.totalSlots == Counted(calls, ctx.imageSize, ctx.loadOffset)
  {
    ghost var size, off := ctx.imageSize, ctx.loadOffset;
    ghost var all, rest := Counted(calls, size, off), Counted(calls, size, off);
    assert calls[0..] == calls;
    SmallWord(all);
    for i := 0 to |calls|
      invariant ctx.totalSlots < U32 && rest == Counted(calls[i..], size, off)
      invariant (ctx.totalSlots + rest) % U32 == all
    {
      ghost var t := ctx.totalSlots;
      ctx.CountSlots(calls[i].0, calls[i].1);
      rest := CountStep(calls, size, off, i, t, rest, ctx.totalSlots);
    }
    assert rest == 0;
    SmallWord(ctx.totalSlots);
  }

  lemma {:induction false} CountStep(s: seq<(nat, nat)>, size: nat, off: nat, i: nat, t: nat, rest: nat, t': nat)
    returns (rest': nat)
    requires i < |s| && rest == Counted(s[i..], size, off)
    requires t' == (t + KaslrRange(s[i].0, s[i].1, size, off).0) % U32
    ensures rest' == Counted(s[i + 1..], size, off) && (t + rest) % U32 == (t' + rest') % U32
  {
    assert s[i..][1..] == s[i + 1..];
    rest' := Counted(s[i + 1..], size, off);
    ModRegroup(t, KaslrRange(s[i].0, s[i].1, size, off).0, rest');
  }

  lemma ModRegroup(t: nat, n: nat, c: nat)
    ensures (t + (n + c) % U32) % U32 == ((t + n) % U32 + c) % U32
  {
  }

  method PickAll(ctx: KaslrContext, calls: seq<(nat, nat)>)
    requires ctx.resultAddr == 0
    modifies ctx`selectedSlot, ctx`resultAddr
    ensures ctx.resultAddr == Walked(calls, ctx.imageSize, ctx.loadOffset, old(ctx.selectedSlot))
  {
    ghost var size, off := ctx.imageSize, ctx.loadOffset;
    ghost var k := ctx.selectedSlot;
    assert calls[0..] == calls;
    for i := 0 to |calls|
      invariant Walked(calls, size, off, k) ==
                if ctx.resultAddr != 0 then ctx.resultAddr else Walked(calls[i..], size, off, ctx.selectedSlot)
    {
      assert calls[i..][1..] == calls[i + 1..];
      ctx.PickSlot(calls[i].0, calls[i].1);
    }
  }

  /** The address chosen from the ranges: 0 when nothing is counted, otherwise what
      the second traversal finds for the drawn number. */
  function Chosen(s: seq<(nat, nat)>, size: nat, off: nat, seed: nat, skip: bool): nat {
    var n := Counted(s, size, off);
    if n == 0 then 0 else Walked(s, size, off, if skip then 0 else Draw(seed, n))
  }

  /** Where the kernel goes: 0 when nothing fits, otherwise the selected slot of
      the memory that is available, not reserved and outside the danger zone. */
  method GetKernelRelocRandomAddr(
    available: R.Ranges, reserved: R.Ranges, minStart: nat, physKaslr: nat, skipPhysKaslr: bool,
    imageSize: nat, loadOffset: nat) returns (addr: nat)
    requires available.Valid() && reserved.Valid() && available != reserved && available.repr !! reserved.repr
    requires Canonical(available.edges) && Canonical(reserved.edges)
    requires minStart < FOUR_GIB
    modifies available, available.repr
    ensures available.Valid() && Canonical(available.edges)
    ensures forall x: nat :: Member(available.edges, x) <==>
              Member(old(available.edges), x) && !Member(old(reserved.edges), x) && !(minStart <= x < FOUR_GIB)
    ensures addr == Chosen(Intervals(available.edges), imageSize, loadOffset, physKaslr, skipPhysKaslr)
  {
    available.SubFrom(reserved);
    available.Sub(minStart, FOUR_GIB);
    var ctx := new KaslrContext(imageSize, loadOffset);
    var calls, _ := available.ForEach();
    CountAll(ctx, calls);
    if ctx.totalSlots == 0 {
      return 0;
    }
    ctx.selectedSlot := if skipPhysKaslr then 0 else Draw(physKaslr, ctx.totalSlots);
    PickAll(ctx, calls);
    addr := ctx.resultAddr;
  }

  /** Within 64-bit addresses and 32-bit counts, and with no placement at address 0:
      the chosen address is a placement whenever there is one, and 0 otherwise. */
  lemma {:induction false} ChoiceIsPlacement(e: seq<nat>, size: nat, off: nat, seed: nat, skip: bool)
    requires Canonical(e) && size > 0 && Sized(Intervals(e), size, off) && !Placement(e, size, off, 0)
    ensures var a := Chosen(Intervals(e), size, off, seed, skip);
            if a == 0 then forall x: nat :: !Placement(e, size, off, x) else Placement(e, size, off, a)
  {
    var s := Intervals(e);
    CountedExactly(s, size, off);
    SlotsArePlacements(e, size, off);
    PickedIsSlotEverywhere(e, size, off);
    var n := Total(s, size, off);
    if n > 0 {
      var k := if skip then 0 else Draw(seed, n);
      WalkedIs(s, size, off, k);
      assert Placement(e, size, off, Slot(s, size, off, k));
    }
  }

  /** The slot number drawn from a seed. */
  function Draw(seed: nat, n: nat): (k: nat)
    requires n > 0
    ensures k < n && (seed < n ==> k == seed)
  {
    seed % n
  }

  /** Some 16-bit seed makes the code choose `a`. */
  ghost predicate Reached(s: seq<(nat, nat)>, size: nat, off: nat, a: nat) {
    exists seed: nat :: seed < 0x1_0000 && Chosen(s, size, off, seed, false) == a
  }

  /** What the code chooses is the drawn slot. */
  lemma {:induction false} ChosenIsSlot(e: seq<nat>, size: nat, off: nat, seed: nat)
    requires Canonical(e) && size > 0 && Sized(Intervals(e), size, off) && !Placement(e, size, off, 0)
    requires Total(Intervals(e), size, off) > 0
    ensures var n := Total(Intervals(e), size, off);
            Chosen(Intervals(e), size, off, seed, false) == Slot(Intervals(e), size, off, Draw(seed, n))
  {
    var n := Total(Intervals(e), size, off);
    CountedExactly(Intervals(e), size, off);
    WalkedIs(Intervals(e), size, off, Draw(seed, n));
    PickedIsSlotEverywhere(e, size, off);
  }

  lemma {:induction false} PickedIsSlotEverywhere(e: seq<nat>, size: nat, off: nat)
    requires Canonical(e) && off < KERNEL_ALIGNMENT && size > 0 && !Placement(e, size, off, 0)
    ensures forall k: nat :: k < Total(Intervals(e), size, off) ==>
              Picked(Intervals(e), size, off, k) == Slot(Intervals(e), size, off, k)
  {
    SlotsArePlacements(e, size, off);
    IntervalsAreMaximal(e);
    forall k: nat | k < Total(Intervals(e), size, off)
      ensures Picked(Intervals(e), size, off, k) == Slot(Intervals(e), size, off, k)
    {
      PickedIsSlot(Intervals(e), size, off, k);
    }
  }

  /** The 16-bit seed makes the code reach every placement exactly when there are at
      most 65536 of them. */
  lemma {:induction false} SeedReachesAll(e: seq<nat>, size: nat, off: nat)
    requires Canonical(e) && size > 0 && Sized(Intervals(e), size, off) && !Placement(e, size, off, 0)
    ensures (forall a: nat :: Placement(e, size, off, a) ==> Reached(Intervals(e), size, off, a)) <==>
            Total(Intervals(e), size, off) <= 0x1_0000
  {
    var s := Intervals(e);
    var n := Total(s, size, off);
    SlotsArePlacements(e, size, off);
    if n <= 0x1_0000 {
      forall a: nat | Placement(e, size, off, a)
        ensures Reached(s, size, off, a)
      {
        assert IsSlot(s, size, off, a);
        var k: nat :| k < n && Slot(s, size, off, k) == a;
        ChosenIsSlot(e, size, off, k);
        assert Chosen(s, size, off, k, false) == a;
      }
    } else {
      LastIsUnreached(e, size, off);
    }
  }

  lemma {:induction false} LastIsUnreached(e: seq<nat>, size: nat, off: nat)
    requires Canonical(e) && size > 0 && Sized(Intervals(e), size, off) && !Placement(e, size, off, 0)
    requires Total(Intervals(e), size, off) > 0x1_0000
    ensures var a := Slot(Intervals(e), size, off, 0x1_0000);
            Placement(e, size, off, a) && !Reached(Intervals(e), size, off, a)
  {
    var s := Intervals(e);
    SlotsArePlacements(e, size, off);
    forall seed: nat | seed < 0x1_0000
      ensures Chosen(s, size, off, seed, false) != Slot(s, size, off, 0x1_0000)
    {
      ChosenIsSlot(e, size, off, seed);
      assert Slot(s, size, off, seed) < Slot(s, size, off, 0x1_0000);
    }
  }

  /** Without a random choice the kernel goes to the lowest placement. */
  lemma {:induction false} SkipTakesLowest(e: seq<nat>, size: nat, off: nat, seed: nat)
    requires Canonical(e) && size > 0 && Sized(Intervals(e), size, off) && !Placement(e, size, off, 0)
    requires Total(Intervals(e), size, off) > 0
    ensures var a := Chosen(Intervals(e), size, off, seed, true);
            Placement(e, size, off, a) && forall x: nat :: Placement(e, size, off, x) ==> a <= x
  {
    var s := Intervals(e);
    CountedExactly(s, size, off);
    WalkedIs(s, size, off, 0);
    PickedIsSlotEverywhere(e, size, off);
    SlotsArePlacements(e, size, off);
    forall x: nat | Placement(e, size, off, x)
      ensures Slot(s, size, off, 0) <= x
    {
      assert IsSlot(s, size, off, x);
    }
  }

  /** With one, a higher seed below the number of placements gives a higher address, and
      seeds repeat behind that number. */
  lemma {:induction false} SeedCounts(e: seq<nat>, size: nat, off: nat, seed: nat, other: nat)
    requires Canonical(e) && size > 0 && Sized(Intervals(e), size, off) && !Placement(e, size, off, 0)
    ensures var s, n := Intervals(e), Total(Intervals(e), size, off);
            && (seed < other < n ==> Chosen(s, size, off, seed, false) < Chosen(s, size, off, other, false))
            && Chosen(s, size, off, seed + n, false) == Chosen(s, size, off, seed, false)
  {
    var n := Total(Intervals(e), size, off);
    if n > 0 {
      ChosenIsSlot(e, size, off, seed);
      ChosenIsSlot(e, size, off, other);
      ChosenIsSlot(e, size, off, seed + n);
      SlotsArePlacements(e, size, off);
      AddPeriod(seed, n);
    }
  }
}
