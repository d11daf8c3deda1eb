/** The fastboot log (src/fastboot/log.c): a ring that keeps the last bytes
    printed, read back by slices and by iterators. */
module LogRing {
  import opened Basics

  /** A ring position, for offsets that pass the end at most once. */
  function Wrap(i: nat, size: nat): (r: nat)
    requires i < 2 * size
    ensures r < size
  {
    if i < size then i else i - size
  }

  /** Where the byte written `j` bytes before the newest one is kept. */
  function Place(idx: nat, j: nat, size: nat): (r: nat)
    requires idx < size && j < size
    ensures r < size
  {
    Wrap(idx + (size - 1 - j), size)
  }

  /** The number of the oldest byte still kept. */
  function Oldest(total: nat, size: nat): nat {
    if total < size then 0 else total - size
  }

  /** Ring contents, write index and history agree: the byte `j` before the end of
      the history is `j` before the write index. */
  ghost predicate Agrees(buf: seq<byte>, idx: nat, history: seq<byte>) {
    && idx < |buf| && (|history| < |buf| ==> idx == |history|)
    && (forall j {:trigger Place(idx, j, |buf|)} :: 0 <= j < Min(|history|, |buf|) ==>
          buf[Place(idx, j, |buf|)] == history[|history| - 1 - j])
  }

  /** `after` is `before` with `w` written from `idx` on, around the end. */
  ghost predicate Overwritten(before: seq<byte>, after: seq<byte>, idx: nat, w: seq<byte>) {
    && |after| == |before| && idx < |before| && |w| <= |before|
    && (forall i {:trigger w[i]} :: 0 <= i < |w| ==> after[Wrap(idx + i, |before|)] == w[i])
    && (forall p {:trigger after[p]} :: 0 <= p < |before| && !Covers(idx, |w|, p, |before|) ==> after[p] == before[p])
  }

  /** Position `p` is one of the `n` positions from `idx` on. */
  predicate Covers(idx: nat, n: nat, p: nat, size: nat) {
    idx <= p < idx + n || idx <= p + size < idx + n
  }

  /** The byte `j` before the end after writing `w`. */
  lemma PlaceAfter(idx: nat, n: nat, j: nat, size: nat)
    requires idx < size && n <= size && j < size
    ensures j < n ==> Place(Wrap(idx + n, size), j, size) == Wrap(idx + (n - 1 - j), size)
    ensures n <= j ==>
              Place(Wrap(idx + n, size), j, size) == Place(idx, j - n, size) &&
              !Covers(idx, n, Place(idx, j - n, size), size)
  {
  }

  /** A byte just written, and one written earlier, as counted from the new end. */
  lemma {:induction false} NewByte(before: seq<byte>, after: seq<byte>, idx: nat, w: seq<byte>, j: nat)
    requires Overwritten(before, after, idx, w) && j < |w|
    ensures after[Place(Wrap(idx + |w|, |before|), j, |before|)] == w[|w| - 1 - j]
  {
    PlaceAfter(idx, |w|, j, |before|);
    var i := |w| - 1 - j;
    assert after[Wrap(idx + i, |before|)] == w[i];
  }

  lemma {:induction false} OldByte(before: seq<byte>, after: seq<byte>, idx: nat, w: seq<byte>, j: nat)
    requires Overwritten(before, after, idx, w) && |w| <= j < |before|
    ensures after[Place(Wrap(idx + |w|, |before|), j, |before|)] == before[Place(idx, j - |w|, |before|)]
  {
    PlaceAfter(idx, |w|, j, |before|);
    var p := Place(idx, j - |w|, |before|);
    assert after[p] == before[p];
  }

  lemma TailOfConcat(history: seq<byte>, s: seq<byte>, w: seq<byte>, j: nat)
    requires j < |history + s| && |w| <= |s| && w == s[|s| - |w|..]
    ensures j < |w| ==> (history + s)[|history + s| - 1 - j] == w[|w| - 1 - j]
    ensures |s| <= j ==> (history + s)[|history + s| - 1 - j] == history[|history| - 1 - (j - |s|)]
  {
  }

  lemma {:induction false} ByteAfterWrite(
    before: seq<byte>, after: seq<byte>, idx: nat, history: seq<byte>, s: seq<byte>, w: seq<byte>, j: nat)
    requires Agrees(before, idx, history) && Overwritten(before, after, idx, w)
    requires |w| == Min(|s|, |before|) && w == s[|s| - |w|..] && j < Min(|history + s|, |before|)
    ensures after[Place(Wrap(idx + |w|, |before|), j, |before|)] == (history + s)[|history + s| - 1 - j]
  {
    TailOfConcat(history, s, w, j);
    if j < |w| {
      NewByte(before, after, idx, w, j);
    } else {
      OldByte(before, after, idx, w, j);
      var i := j - |w|;
      assert before[Place(idx, i, |before|)] == history[|history| - 1 - i];
    }
  }

  /** Writing the last bytes of what was printed keeps the agreement. */
  lemma {:induction false} WriteKeepsAgreement(
    before: seq<byte>, after: seq<byte>, idx: nat, history: seq<byte>, s: seq<byte>, w: seq<byte>)
    requires Agrees(before, idx, history) && Overwritten(before, after, idx, w)
    requires |w| == Min(|s|, |before|) && w == s[|s| - |w|..]
    ensures Agrees(after, Wrap(idx + |w|, |before|), history + s)
  {
    var size, h, idx' := |before|, history + s, Wrap(idx + |w|, |before|);
    forall j {:trigger Place(idx', j, size)} | 0 <= j < Min(|h|, size)
      ensures after[Place(idx', j, size)] == h[|h| - 1 - j]
    {
      ByteAfterWrite(before, after, idx, history, s, w, j);
    }
  }

  /** The bytes `[start, end)` of the history, read from the ring. */
  lemma {:induction false} ByteInRing(buf: seq<byte>, idx: nat, history: seq<byte>, k: nat)
    requires Agrees(buf, idx, history) && Oldest(|history|, |buf|) <= k < |history|
    ensures buf[Iter(idx, |history|, |buf|, k)] == history[k]
  {
    var j := |history| - 1 - k;
    assert Place(idx, j, |buf|) == Iter(idx, |history|, |buf|, k);
  }

  /** The ring position of byte number `k` of the history. */
  function Iter(idx: nat, total: nat, size: nat, k: nat): (i: nat)
    requires idx < size && (total < size ==> idx == total) && Oldest(total, size) <= k < total
    ensures i < size
  {
    if total < size then k else Wrap(idx + (k - Oldest(total, size)), size)
  }

  lemma IterInjective(idx: nat, total: nat, size: nat, k: nat, l: nat)
    requires idx < size && (total < size ==> idx == total)
    requires Oldest(total, size) <= k < total && Oldest(total, size) <= l < total
    ensures Iter(idx, total, size, k) == Iter(idx, total, size, l) ==> k == l
  {
  }

  /** The remainder of an offset that passes the end at most once. */
  lemma ModIsWrap(i: nat, size: nat)
    requires i < 2 * size
    ensures i % size == Wrap(i, size)
  {
    var q, r := (if i < size then 0 else 1), Wrap(i, size);
    var d := q - i / size;
    assert d * size == q * size - (i / size) * size;
    assert d * size == i % size - r;
    MultipleBelow(d, size);
  }

  /** Moving to the next ring position moves to the next byte, and reaches the
      write index exactly at the end. */
  lemma NextIter(idx: nat, total: nat, size: nat, k: nat)
    requires idx < size && (total < size ==> idx == total) && Oldest(total, size) <= k < total
    ensures var next := Wrap(Iter(idx, total, size, k) + 1, size);
            if k + 1 == total then next == idx else next != idx && next == Iter(idx, total, size, k + 1)
  {
  }

  /** Moving back is refused exactly at the oldest byte. */
  lemma PreviousIter(idx: nat, total: nat, size: nat, k: nat)
    requires idx < size && (total < size ==> idx == total) && Oldest(total, size) <= k < total
    ensures var i := Iter(idx, total, size, k);
            var next := Wrap(i + size - 1, size);
            if k == Oldest(total, size) then i == idx || next >= total
            else i != idx && next < total && next == Iter(idx, total, size, k - 1)
  {
  }

  /** The slice continues at the start of the ring. */
  predicate GoesAround(idx: nat, total: nat, size: nat, start: nat, num: nat)
    requires Oldest(total, size) <= start
  {
    size <= total && idx + (start - Oldest(total, size)) < size < idx + (start - Oldest(total, size)) + num
  }

  /** What that means: some byte of the slice lies in front of its first one. */
  lemma GoesAroundExactly(idx: nat, total: nat, size: nat, start: nat, num: nat)
    requires idx < size && (total < size ==> idx == total) && Oldest(total, size) <= start && 0 < num <= total - start
    ensures GoesAround(idx, total, size, start, num) <==>
            exists k {:trigger Iter(idx, total, size, k)} ::
              start < k < start + num && Iter(idx, total, size, k) < Iter(idx, total, size, start)
  {
    var last := start + num - 1;
    if GoesAround(idx, total, size, start, num) {
      assert Iter(idx, total, size, last) < Iter(idx, total, size, start);
    }
  }

  lemma TwoSlices(h: seq<byte>, start: nat, m: nat, n: nat)
    requires m <= n && start + n <= |h|
    ensures h[start..start + m] + h[start + m..start + m + (n - m)] == h[start..start + n]
  {
  }

  class FastbootLog {
    const buf: array<byte>
    var idx: nat
    var totalLen: nat
    /** Everything printed so far. */
    ghost var history: seq<byte>

    ghost predicate Valid()
      reads this, buf
    {
      totalLen == |history| && Agrees(buf[..], idx, history)
    }

    constructor (buf: array<byte>)
      requires buf.Length > 0
      ensures Valid() && history == [] && this.buf == buf
    {
      this.buf := buf;
      idx, totalLen, history := 0, 0, [];
    }

    /** The two memcpys of the writer: up to the end of the ring, then from its
        start. */
    method CopyAround(w: seq<byte>)
      requires idx < buf.Length && |w| <= buf.Length
      modifies this`idx, buf
      ensures Overwritten(old(buf[..]), buf[..], old(idx), w)
      ensures idx == Wrap(old(idx) + |w|, buf.Length)
    {
      var toCopy := Min(buf.Length - idx, |w|);
      forall i | 0 <= i < toCopy {
        buf[idx + i] := w[i];
      }
      idx := idx + toCopy;
      if idx >= buf.Length {
        forall i | 0 <= i < |w| - toCopy {
          buf[i] := w[toCopy + i];
        }
        idx := |w| - toCopy;
      }
    }

    method Write(s: seq<byte>)
      requires Valid()
      modifies this, buf
      ensures Valid() && history == old(history) + s
      ensures idx == Wrap(old(idx) + Min(|s|, buf.Length), buf.Length)
    {
      totalLen := totalLen + |s|;
      var w := s;
      if |s| > buf.Length {
        w := s[|s| - buf.Length..];
      }
      ghost var before, at := buf[..], idx;
      CopyAround(w);
      WriteKeepsAgreement(before, buf[..], at, history, s, w);
      history := history + s;
    }

    method WriteAll(messages: seq<seq<byte>>)
      requires Valid()
      modifies this, buf
      ensures Valid() && history == old(history) + Printed(messages)
    {
      for i := 0 to |messages|
        invariant Valid() && history == old(history) + Printed(messages[..i])
      {
        PrintedLast(messages[..i], messages[i]);
        assert messages[..i + 1] == messages[..i] + [messages[i]];
        Write(messages[i]);
      }
      assert messages[..|messages|] == messages;
    }

    method GetTotal() returns (n: nat)
      requires Valid()
      ensures n == |history|
    {
      n := totalLen;
    }

    method GetOldest() returns (n: nat)
      requires Valid()
      ensures n == Oldest(|history|, buf.Length)
    {
      n := if totalLen < buf.Length then 0 else totalLen - buf.Length;
    }

    /** A slice of the history that does not go around the end of the ring. */
    method ReadStraight(at: nat, n: nat, ghost start: nat) returns (out: seq<byte>)
      requires Valid() && Oldest(|history|, buf.Length) <= start && start + n <= |history|
      requires at + n <= buf.Length && (n == 0 || at == Iter(idx, |history|, buf.Length, start))
      ensures out == history[start..start + n]
    {
      out := buf[at..at + n];
      assert out == buf[..][at..at + n];
      SliceIs(buf[..], idx, history, start, n, at);
    }

    /** A slice that does: both parts copied together. */
    method ReadAround(at: nat, right: nat, n: nat, ghost start: nat) returns (out: seq<byte>)
      requires Valid() && Oldest(|history|, buf.Length) <= start && start + n <= |history|
      requires buf.Length <= |history| && at + right == buf.Length && right <= n <= right + idx
      requires start < |history| && at == Iter(idx, |history|, buf.Length, start)
      ensures out == history[start..start + n]
    {
      out := ReadStraight(at, right, start);
      var rest := ReadStraight(0, n - right, start + right);
      TwoSlices(history, start, right, n);
      out := out + rest;
    }

    /** The requested slice, shortened to what there is; NULL when the start is not
        kept, or when the slice goes around the end and no copy can be allocated. */
    method GetBuf(start: nat, num: nat, canAllocate: bool) returns (r: Option<seq<byte>>)
      requires Valid()
      ensures r.Some? <==>
                && Oldest(|history|, buf.Length) <= start < |history|
                && (GoesAround(idx, |history|, buf.Length, start, num) ==> canAllocate)
      ensures r.Some? ==> r.value == history[start..start + Min(num, |history| - start)]
    {
      var size := buf.Length;
      var oldest := GetOldest();
      if start < oldest || start >= totalLen {
        return None;
      }
      var out: seq<byte>;
      if idx == totalLen {
        out := ReadStraight(start, Min(totalLen - start, num), start);
        return Some(out);
      }
      var offset := start - oldest;
      if idx + offset >= size {
        ModIsWrap(idx + offset, size);
        out := ReadStraight((idx + offset) % size, Min(totalLen - start, num), start);
        return Some(out);
      }
      var right := size - idx - offset;
      if right >= num {
        out := ReadStraight(idx + offset, num, start);
        return Some(out);
      }
      var n := Min(right + idx, num);
      if !canAllocate {
        return None;
      }
      out := ReadAround(idx + offset, right, n, start);
      return Some(out);
    }

    /** The iterator for a byte number; None for UINT64_MAX. */
    method GetIter(k: nat) returns (i: Option<nat>)
      requires Valid()
      ensures i == if Oldest(|history|, buf.Length) <= k < |history|
                   then Some(Iter(idx, |history|, buf.Length, k)) else None
    {
      var oldest := GetOldest();
      if k < oldest || k >= totalLen {
        return None;
      }
      if idx == totalLen {
        return Some(k);
      }
      var n := idx + k - oldest;
      ModIsWrap(n, buf.Length);
      return Some(n % buf.Length);
    }

    method IncIter(i: nat, ghost k: nat) returns (ok: bool, next: nat)
      requires Valid() && Oldest(|history|, buf.Length) <= k < |history|
      requires i == Iter(idx, |history|, buf.Length, k)
      ensures ok == (k + 1 < |history|)
      ensures next == Iter(idx, |history|, buf.Length, if ok then k + 1 else k)
    {
      ModIsWrap(i + 1, buf.Length);
      NextIter(idx, totalLen, buf.Length, k);
      next := (i + 1) % buf.Length;
      if next == idx {
        return false, i;
      }
      return true, next;
    }

    method DecIter(i: nat, ghost k: nat) returns (ok: bool, next: nat)
      requires Valid() && Oldest(|history|, buf.Length) <= k < |history|
      requires i == Iter(idx, |history|, buf.Length, k)
      ensures ok == (Oldest(|history|, buf.Length) < k)
      ensures next == Iter(idx, |history|, buf.Length, if ok then k - 1 else k)
    {
      ModIsWrap(i + buf.Length - 1, buf.Length);
      PreviousIter(idx, totalLen, buf.Length, k);
      next := (i + buf.Length - 1) % buf.Length;
      if i == idx || next >= totalLen {
        return false, i;
      }
      return true, next;
    }

    method GetByteAtIter(i: nat, ghost k: nat) returns (b: byte)
      requires Valid() && Oldest(|history|, buf.Length) <= k < |history|
      requires i == Iter(idx, |history|, buf.Length, k)
      ensures b == history[k]
    {
      ByteInRing(buf[..], idx, history, k);
      b := buf[i];
    }

    /** Walking forward from any kept byte reads the rest of the history. */
    method ReadForward(start: nat) returns (out: seq<byte>)
      requires Valid() && Oldest(|history|, buf.Length) <= start < |history|
      ensures out == history[start..]
    {
      var it := GetIter(start);
      var i, more := it.value, true;
      ghost var k := start;
      out := [];
      while more
        invariant start <= k && (if more then k < |history| else k == |history|)
        invariant more ==> i == Iter(idx, |history|, buf.Length, k)
        invariant out == history[start..k]
        decreases |history| - k
      {
        var b := GetByteAtIter(i, k);
        more, i := IncIter(i, k);
        out := out + [b];
        k := k + 1;
      }
    }

    /** Walking back from any kept byte reads down to the oldest one kept. */
    method ReadBackward(start: nat) returns (out: seq<byte>)
      requires Valid() && Oldest(|history|, buf.Length) <= start < |history|
      ensures |out| == start + 1 - Oldest(|history|, buf.Length)
      ensures forall n :: 0 <= n < |out| ==> out[n] == history[start - n]
    {
      var it := GetIter(start);
      var i, more := it.value, true;
      ghost var k: int := start;
      ghost var last := Oldest(|history|, buf.Length);
      out := [];
      while more
        invariant |out| == start - k && k <= start && (if more then last <= k else k == last - 1)
        invariant more ==> i == Iter(idx, |history|, buf.Length, k)
        invariant forall n :: 0 <= n < |out| ==> out[n] == history[start - n]
        decreases k + 1 - last
      {
        var b := GetByteAtIter(i, k);
        more, i := DecIter(i, k);
        out := out + [b];
        k := k - 1;
      }
    }
  }

  /** `n` bytes of the ring from position `at` are `n` bytes of the history, when
      the run does not pass the end. */
  lemma {:induction false} SliceIs(buf: seq<byte>, idx: nat, history: seq<byte>, start: nat, n: nat, at: nat)
    requires Agrees(buf, idx, history) && Oldest(|history|, |buf|) <= start && start + n <= |history|
    requires n == 0 || at == Iter(idx, |history|, |buf|, start)
    requires at + n <= |buf|
    ensures buf[at..at + n] == history[start..start + n]
  {
    var b, h := buf[at..at + n], history[start..start + n];
    forall i | 0 <= i < n
      ensures b[i] == h[i]
    {
      assert Iter(idx, |history|, |buf|, start + i) == at + i;
      ByteInRing(buf, idx, history, start + i);
    }
  }

  /** Undoing a step of an iterator: back after forward, forward after back. */
  lemma IterSteps(idx: nat, total: nat, size: nat, k: nat)
    requires idx < size && (total < size ==> idx == total) && Oldest(total, size) <= k < total
    ensures k + 1 < total ==> Wrap(Wrap(Iter(idx, total, size, k) + 1, size) + size - 1, size) == Iter(idx, total, size, k)
    ensures Oldest(total, size) < k ==> Wrap(Wrap(Iter(idx, total, size, k) + size - 1, size) + 1, size) == Iter(idx, total, size, k)
  {
  }

  /** All messages one after the other. */
  function Printed(messages: seq<seq<byte>>): seq<byte> {
    if messages == [] then [] else messages[0] + Printed(messages[1..])
  }

  lemma {:induction false} PrintedLast(messages: seq<seq<byte>>, m: seq<byte>)
    ensures Printed(messages + [m]) == Printed(messages) + m
  {
    if messages == [] {
      assert messages + [m] == [m] && [m][1..] == [];
      assert m + [] == [] + m;
    } else {
      assert (messages + [m])[1..] == messages[1..] + [m];
      PrintedLast(messages[1..], m);
    }
  }
}
