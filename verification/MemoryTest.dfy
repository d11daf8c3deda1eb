/** The RAM test (src/diag/memory.c): one chunk per call, with four nested loops
    flattened into saved state. */
module MemoryTest {
  import opened Basics
  import opened EdgeSets

  const CHUNK_SIZE: nat := 0x200_0000
  const PATTERN_BYTES: nat := 0x1000

  // ---- the nested loops, as a list of jobs

  datatype Job = Job(pattern: nat, op: nat, start: nat, end: nat)

  /** for each chunk in a memory range */
  function Chunks(lo: nat, hi: nat): seq<(nat, nat)>
    requires lo <= hi
    decreases hi - lo
  {
    if lo == hi then [] else
    var e := Min(hi, lo + CHUNK_SIZE);
    [(lo, e)] + Chunks(e, hi)
  }

  /** for each memory range */
  function AllChunks(rs: seq<(nat, nat)>): seq<(nat, nat)>
    requires Separated(rs)
  {
    if rs == [] then [] else Chunks(rs[0].0, rs[0].1) + AllChunks(rs[1..])
  }

  function Jobs(p: nat, op: nat, cs: seq<(nat, nat)>): (js: seq<Job>)
    ensures |js| == |cs|
  {
    seq(|cs|, i requires 0 <= i < |cs| => Job(p, op, cs[i].0, cs[i].1))
  }

  /** for each pattern from `p` on, for each operation (write, then check) */
  function Schedule(n: nat, cs: seq<(nat, nat)>, p: nat): seq<Job>
    requires p <= n
    decreases n - p
  {
    if p == n then [] else Jobs(p, 0, cs) + Jobs(p, 1, cs) + Schedule(n, cs, p + 1)
  }

  ghost predicate InOrder(cs: seq<(nat, nat)>) {
    && (forall i :: 0 <= i < |cs| ==> cs[i].0 < cs[i].1)
    && (forall i, j :: 0 <= i < j < |cs| ==> cs[i].1 <= cs[j].0)
  }

  lemma {:induction false} ChunksTile(lo: nat, hi: nat)
    requires lo <= hi
    ensures InOrder(Chunks(lo, hi)) && Bytes(Chunks(lo, hi)) == hi - lo && Within(Chunks(lo, hi), lo, hi)
    ensures forall i :: 0 <= i < |Chunks(lo, hi)| ==> Chunks(lo, hi)[i].1 - Chunks(lo, hi)[i].0 <= CHUNK_SIZE
    decreases hi - lo
  {
    if lo < hi {
      var e := Min(hi, lo + CHUNK_SIZE);
      ChunksTile(e, hi);
      assert Chunks(lo, hi)[1..] == Chunks(e, hi);
    }
  }

  function Bytes(cs: seq<(nat, nat)>): int {
    if cs == [] then 0 else cs[0].1 - cs[0].0 + Bytes(cs[1..])
  }

  lemma {:induction false} BytesConcat(a: seq<(nat, nat)>, b: seq<(nat, nat)>)
    ensures Bytes(a + b) == Bytes(a) + Bytes(b)
  {
    if a == [] {
      assert a + b == b;
    } else {
      assert (a + b)[1..] == a[1..] + b;
      BytesConcat(a[1..], b);
    }
  }

  ghost predicate Within(cs: seq<(nat, nat)>, lo: nat, hi: nat) {
    forall i :: 0 <= i < |cs| ==> lo <= cs[i].0 && cs[i].1 <= hi
  }

  lemma {:induction false} InOrderConcat(a: seq<(nat, nat)>, b: seq<(nat, nat)>, lo: nat, hi: nat)
    requires InOrder(a) && InOrder(b) && Within(a, lo, hi) && forall j :: 0 <= j < |b| ==> hi <= b[j].0
    ensures InOrder(a + b)
  {
    var s := a + b;
    forall i, j | 0 <= i < j < |s|
      ensures s[i].1 <= s[j].0
    {
      if i < |a| <= j {
        assert s[i] == a[i] && s[j] == b[j - |a|];
      }
    }
  }

  ghost predicate InsideOne(rs: seq<(nat, nat)>, c: (nat, nat)) {
    exists k :: 0 <= k < |rs| && rs[k].0 <= c.0 && c.1 <= rs[k].1
  }

  lemma {:induction false} InsideRest(rs: seq<(nat, nat)>, c: (nat, nat))
    requires Separated(rs) && rs != [] && InsideOne(rs[1..], c)
    ensures InsideOne(rs, c) && rs[0].1 <= c.0
  {
    var k :| 0 <= k < |rs[1..]| && rs[1..][k].0 <= c.0 && c.1 <= rs[1..][k].1;
    assert rs[k + 1] == rs[1..][k];
  }

  ghost predicate AllInside(rs: seq<(nat, nat)>, cs: seq<(nat, nat)>) {
    forall i :: 0 <= i < |cs| ==> InsideOne(rs, cs[i])
  }

  lemma {:induction false} InsideConcat(rs: seq<(nat, nat)>, a: seq<(nat, nat)>, b: seq<(nat, nat)>)
    requires Separated(rs) && rs != [] && Within(a, rs[0].0, rs[0].1) && AllInside(rs[1..], b)
    ensures AllInside(rs, a + b) && forall j :: 0 <= j < |b| ==> rs[0].1 <= b[j].0
  {
    forall j | 0 <= j < |b|
      ensures InsideOne(rs, b[j]) && rs[0].1 <= b[j].0
    {
      InsideRest(rs, b[j]);
    }
  }

  /** The chunks of all ranges are disjoint, in order, inside the ranges, and hold
      as many bytes. */
  lemma {:induction false} AllChunksTile(rs: seq<(nat, nat)>)
    requires Separated(rs)
    ensures InOrder(AllChunks(rs)) && Bytes(AllChunks(rs)) == Bytes(rs) && AllInside(rs, AllChunks(rs))
  {
    if rs != [] {
      var a, b := Chunks(rs[0].0, rs[0].1), AllChunks(rs[1..]);
      ChunksTile(rs[0].0, rs[0].1);
      AllChunksTile(rs[1..]);
      BytesConcat(a, b);
      InsideConcat(rs, a, b);
      InOrderConcat(a, b, rs[0].0, rs[0].1);
    }
  }

  lemma {:induction false} ScheduleRange(n: nat, cs: seq<(nat, nat)>, p: nat, i: nat)
    requires p <= n && i < |Schedule(n, cs, p)|
    ensures p <= Schedule(n, cs, p)[i].pattern < n && Schedule(n, cs, p)[i].op <= 1
    ensures (Schedule(n, cs, p)[i].start, Schedule(n, cs, p)[i].end) in cs
    decreases n - p
  {
    if 2 * |cs| <= i {
      ScheduleRange(n, cs, p + 1, i - 2 * |cs|);
    } else {
      var k := if i < |cs| then i else i - |cs|;
      assert cs[k] in cs;
    }
  }

  /** Every check comes after the write of the same pattern to the same chunk. */
  lemma {:induction false} CheckFollowsWrite(n: nat, cs: seq<(nat, nat)>, p: nat, i: nat) returns (m: nat)
    requires p <= n && i < |Schedule(n, cs, p)| && Schedule(n, cs, p)[i].op == 1
    ensures m < i && Schedule(n, cs, p)[m] == Schedule(n, cs, p)[i].(op := 0)
    decreases n - p
  {
    if 2 * |cs| <= i {
      m := CheckFollowsWrite(n, cs, p + 1, i - 2 * |cs|);
      m := m + 2 * |cs|;
    } else {
      m := i - |cs|;
    }
  }

  /** Two writes of the same pattern never touch the same address. */
  lemma {:induction false} WritesAreDisjoint(n: nat, cs: seq<(nat, nat)>, p: nat, i: nat, j: nat)
    requires p <= n && InOrder(cs) && i < j < |Schedule(n, cs, p)|
    requires Schedule(n, cs, p)[i].op == Schedule(n, cs, p)[j].op == 0
    requires Schedule(n, cs, p)[i].pattern == Schedule(n, cs, p)[j].pattern
    ensures Schedule(n, cs, p)[i].end <= Schedule(n, cs, p)[j].start
    decreases n - p
  {
    if 2 * |cs| <= i {
      WritesAreDisjoint(n, cs, p + 1, i - 2 * |cs|, j - 2 * |cs|);
    } else if 2 * |cs| <= j {
      ScheduleRange(n, cs, p + 1, j - 2 * |cs|);
    }
  }

  function JobBytes(js: seq<Job>): int {
    if js == [] then 0 else js[0].end - js[0].start + JobBytes(js[1..])
  }

  lemma {:induction false} JobBytesConcat(a: seq<Job>, b: seq<Job>)
    ensures JobBytes(a + b) == JobBytes(a) + JobBytes(b)
  {
    if a == [] {
      assert a + b == b;
    } else {
      assert (a + b)[1..] == a[1..] + b;
      JobBytesConcat(a[1..], b);
    }
  }

  lemma {:induction false} JobsBytes(p: nat, op: nat, cs: seq<(nat, nat)>)
    ensures JobBytes(Jobs(p, op, cs)) == Bytes(cs)
  {
    if cs != [] {
      assert Jobs(p, op, cs)[1..] == Jobs(p, op, cs[1..]);
      JobsBytes(p, op, cs[1..]);
    }
  }

  /** Each pattern processes every byte twice. */
  lemma {:induction false} ScheduleBytes(n: nat, cs: seq<(nat, nat)>, p: nat)
    requires p <= n
    ensures JobBytes(Schedule(n, cs, p)) == (n - p) * (2 * Bytes(cs))
    decreases n - p
  {
    if p < n {
      ScheduleBytes(n, cs, p + 1);
      JobsBytes(p, 0, cs);
      JobsBytes(p, 1, cs);
      JobBytesConcat(Jobs(p, 0, cs), Jobs(p, 1, cs));
      JobBytesConcat(Jobs(p, 0, cs) + Jobs(p, 1, cs), Schedule(n, cs, p + 1));
      assert (n - p) * (2 * Bytes(cs)) == (n - (p + 1)) * (2 * Bytes(cs)) + 2 * Bytes(cs);
    }
  }

  // ---- the saved loop state

  /** The loop variables of the flattened loops. Operation 2 is the NULL that
      ends the operation table. */
  datatype Cursor = Cursor(running: bool, pattern: nat, op: nat, range: nat, chunk: nat)

  ghost predicate CursorOk(n: nat, rs: seq<(nat, nat)>, c: Cursor) {
    && Separated(rs) && c.pattern < n
    && (c.running ==> c.op < 2 && c.range < |rs| && rs[c.range].0 <= c.chunk < rs[c.range].1)
  }

  /** The jobs after the current chunk list of operation `op` of pattern `p`. */
  function AfterOp(n: nat, cs: seq<(nat, nat)>, p: nat, op: nat): seq<Job>
    requires p < n
  {
    if op == 0 then Jobs(p, 1, cs) + Schedule(n, cs, p + 1) else Schedule(n, cs, p + 1)
  }

  /** The jobs from the place `lo` in the current range on. */
  function From(n: nat, rs: seq<(nat, nat)>, c: Cursor, lo: nat): seq<Job>
    requires Separated(rs) && c.pattern < n && c.range < |rs| && lo <= rs[c.range].1
  {
    Jobs(c.pattern, c.op, Chunks(lo, rs[c.range].1) + AllChunks(rs[c.range + 1..]))
    + AfterOp(n, AllChunks(rs), c.pattern, c.op)
  }

  /** The jobs of the nested loops that are still to come. */
  function Remaining(n: nat, rs: seq<(nat, nat)>, c: Cursor): seq<Job>
    requires CursorOk(n, rs, c)
  {
    if !c.running then [] else From(n, rs, c, c.chunk)
  }

  function NextPattern(n: nat, rs: seq<(nat, nat)>, c: Cursor): Cursor
    requires rs != []
  {
    if c.pattern + 1 == n then Cursor(false, c.pattern, 2, 0, rs[0].0)
    else Cursor(c.running, c.pattern + 1, 0, 0, rs[0].0)
  }

  function NextOperation(n: nat, rs: seq<(nat, nat)>, c: Cursor): Cursor
    requires rs != []
  {
    if c.op + 1 == 2 then NextPattern(n, rs, c) else Cursor(c.running, c.pattern, c.op + 1, 0, rs[0].0)
  }

  function NextRange(n: nat, rs: seq<(nat, nat)>, c: Cursor): Cursor
    requires c.range < |rs|
  {
    if c.range + 1 == |rs| then NextOperation(n, rs, c)
    else c.(range := c.range + 1, chunk := rs[c.range + 1].0)
  }

  function ChunkEnd(rs: seq<(nat, nat)>, c: Cursor): nat
    requires c.range < |rs|
  {
    Min(rs[c.range].1, c.chunk + CHUNK_SIZE)
  }

  function NextChunk(n: nat, rs: seq<(nat, nat)>, c: Cursor): Cursor
    requires c.range < |rs|
  {
    var e := ChunkEnd(rs, c);
    if e == rs[c.range].1 then NextRange(n, rs, c) else c.(chunk := e)
  }

  lemma {:induction false} AtFirstRange(n: nat, rs: seq<(nat, nat)>, p: nat, op: nat)
    requires Separated(rs) && rs != [] && p < n && op < 2
    ensures Remaining(n, rs, Cursor(true, p, op, 0, rs[0].0)) ==
            Jobs(p, op, AllChunks(rs)) + AfterOp(n, AllChunks(rs), p, op)
  {
  }

  lemma {:induction false} StartOfPattern(n: nat, cs: seq<(nat, nat)>, p: nat)
    requires p < n
    ensures Jobs(p, 0, cs) + AfterOp(n, cs, p, 0) == Schedule(n, cs, p)
  {
  }

  /** At the start the whole schedule remains. */
  lemma {:induction false} StartRemaining(n: nat, rs: seq<(nat, nat)>)
    requires Separated(rs) && rs != [] && 0 < n
    ensures Remaining(n, rs, Cursor(true, 0, 0, 0, rs[0].0)) == Schedule(n, AllChunks(rs), 0)
  {
    AtFirstRange(n, rs, 0, 0);
    StartOfPattern(n, AllChunks(rs), 0);
  }

  lemma {:induction false} NextOperationRemaining(n: nat, rs: seq<(nat, nat)>, c: Cursor)
    requires Separated(rs) && rs != [] && c.running && c.pattern < n && c.op < 2
    ensures CursorOk(n, rs, NextOperation(n, rs, c))
    ensures Remaining(n, rs, NextOperation(n, rs, c)) == AfterOp(n, AllChunks(rs), c.pattern, c.op)
  {
    if c.op == 0 {
      ToChecks(n, rs, c.pattern);
    } else if c.pattern + 1 < n {
      ToNextPattern(n, rs, c.pattern);
    } else {
      NothingAfter(n, AllChunks(rs), c.pattern);
    }
  }

  lemma {:induction false} ToChecks(n: nat, rs: seq<(nat, nat)>, p: nat)
    requires Separated(rs) && rs != [] && p < n
    ensures Remaining(n, rs, Cursor(true, p, 1, 0, rs[0].0)) == AfterOp(n, AllChunks(rs), p, 0)
  {
    AtFirstRange(n, rs, p, 1);
    AfterChecks(n, AllChunks(rs), p);
  }

  lemma {:induction false} ToNextPattern(n: nat, rs: seq<(nat, nat)>, p: nat)
    requires Separated(rs) && rs != [] && p + 1 < n
    ensures Remaining(n, rs, Cursor(true, p + 1, 0, 0, rs[0].0)) == AfterOp(n, AllChunks(rs), p, 1)
  {
    AtFirstRange(n, rs, p + 1, 0);
    StartOfPattern(n, AllChunks(rs), p + 1);
  }

  lemma {:induction false} NothingAfter(n: nat, cs: seq<(nat, nat)>, p: nat)
    requires p + 1 == n
    ensures AfterOp(n, cs, p, 1) == []
  {
  }

  lemma AfterChecks(n: nat, cs: seq<(nat, nat)>, p: nat)
    requires p < n
    ensures Jobs(p, 1, cs) + AfterOp(n, cs, p, 1) == AfterOp(n, cs, p, 0)
  {
  }

  lemma {:induction false} FirstChunk(p: nat, op: nat, lo: nat, hi: nat, rest: seq<(nat, nat)>, tail: seq<Job>)
    requires lo < hi
    ensures var e := Min(hi, lo + CHUNK_SIZE);
            Jobs(p, op, Chunks(lo, hi) + rest) + tail ==
            [Job(p, op, lo, e)] + (Jobs(p, op, Chunks(e, hi) + rest) + tail)
  {
  }

  lemma {:induction false} NextRangeRemaining(n: nat, rs: seq<(nat, nat)>, c: Cursor)
    requires Separated(rs) && c.running && c.pattern < n && c.op < 2 && c.range < |rs|
    ensures CursorOk(n, rs, NextRange(n, rs, c))
    ensures Remaining(n, rs, NextRange(n, rs, c)) ==
            Jobs(c.pattern, c.op, AllChunks(rs[c.range + 1..])) + AfterOp(n, AllChunks(rs), c.pattern, c.op)
  {
    if c.range + 1 == |rs| {
      assert Jobs(c.pattern, c.op, AllChunks(rs[c.range + 1..])) == [];
      NextOperationRemaining(n, rs, c);
    } else {
      AllChunksAt(rs, c.range + 1);
    }
  }

  lemma {:induction false} AllChunksAt(rs: seq<(nat, nat)>, r: nat)
    requires Separated(rs) && r < |rs|
    ensures AllChunks(rs[r..]) == Chunks(rs[r].0, rs[r].1) + AllChunks(rs[r + 1..])
  {
    assert rs[r..][1..] == rs[r + 1..];
  }

  lemma {:induction false} AtRangeEnd(n: nat, rs: seq<(nat, nat)>, c: Cursor)
    requires Separated(rs) && c.pattern < n && c.range < |rs|
    ensures From(n, rs, c, rs[c.range].1) ==
            Jobs(c.pattern, c.op, AllChunks(rs[c.range + 1..])) + AfterOp(n, AllChunks(rs), c.pattern, c.op)
  {
    var hi, rest := rs[c.range].1, AllChunks(rs[c.range + 1..]);
    assert Chunks(hi, hi) + rest == rest;
  }

  lemma {:induction false} NextChunkFrom(n: nat, rs: seq<(nat, nat)>, c: Cursor)
    requires CursorOk(n, rs, c) && c.running
    ensures CursorOk(n, rs, NextChunk(n, rs, c))
    ensures Remaining(n, rs, NextChunk(n, rs, c)) == From(n, rs, c, ChunkEnd(rs, c))
  {
    if ChunkEnd(rs, c) == rs[c.range].1 {
      NextRangeRemaining(n, rs, c);
      AtRangeEnd(n, rs, c);
    }
  }

  lemma {:induction false} FromFirst(n: nat, rs: seq<(nat, nat)>, c: Cursor)
    requires Separated(rs) && c.pattern < n && c.range < |rs| && c.chunk < rs[c.range].1
    ensures From(n, rs, c, c.chunk) ==
            [Job(c.pattern, c.op, c.chunk, ChunkEnd(rs, c))] + From(n, rs, c, ChunkEnd(rs, c))
  {
    FirstChunk(c.pattern, c.op, c.chunk, rs[c.range].1, AllChunks(rs[c.range + 1..]),
               AfterOp(n, AllChunks(rs), c.pattern, c.op));
  }

  /** Advancing the saved state is exactly one iteration of the nested loops. */
  lemma {:induction false} NextChunkRemaining(n: nat, rs: seq<(nat, nat)>, c: Cursor)
    requires CursorOk(n, rs, c) && c.running
    ensures CursorOk(n, rs, NextChunk(n, rs, c))
    ensures Remaining(n, rs, c) ==
            [Job(c.pattern, c.op, c.chunk, ChunkEnd(rs, c))] + Remaining(n, rs, NextChunk(n, rs, c))
  {
    NextChunkFrom(n, rs, c);
    FromFirst(n, rs, c);
  }

  lemma {:induction false} NextChunkOk(n: nat, rs: seq<(nat, nat)>, c: Cursor)
    requires CursorOk(n, rs, c) && c.running
    ensures CursorOk(n, rs, NextChunk(n, rs, c))
  {
    NextChunkRemaining(n, rs, c);
  }

  // ---- the flattened machine

  datatype TestResult = TestSuccess | TestFailed

  /** The chunk `[start, end)` of `ram` repeats the pattern cache from its start. */
  ghost predicate Holds(ram: seq<byte>, start: nat, end: nat, cache: seq<byte>)
    requires |cache| == PATTERN_BYTES
  {
    end <= |ram| && forall x :: start <= x < end ==> ram[x] == cache[(x - start) % PATTERN_BYTES]
  }

  /** The pattern cache for a pattern: its bytes, repeated cyclically. */
  ghost function CacheOf(pattern: seq<byte>): (c: seq<byte>)
    requires pattern != []
    ensures |c| == PATTERN_BYTES
  {
    seq(PATTERN_BYTES, i requires 0 <= i => pattern[i % |pattern|])
  }

  /** The cache starts with the pattern and goes on as before after each length of it. */
  lemma {:induction false} CacheRepeats(pattern: seq<byte>, i: nat)
    requires pattern != [] && i < PATTERN_BYTES
    ensures i < |pattern| ==> CacheOf(pattern)[i] == pattern[i]
    ensures i + |pattern| < PATTERN_BYTES ==> CacheOf(pattern)[i + |pattern|] == CacheOf(pattern)[i]
  {
    AddPeriod(i, |pattern|);
    if i < |pattern| {
      SmallRemainder(i, |pattern|);
    }
  }

  method Cyclic(src: seq<byte>, dst: array<byte>)
    requires src != [] && dst.Length == PATTERN_BYTES
    modifies dst
    ensures dst[..] == CacheOf(src)
  {
    for pos := 0 to dst.Length
      invariant forall i :: 0 <= i < pos ==> dst[i] == src[i % |src|]
    {
      dst[pos] := src[pos % |src|];
    }
  }

  /** memcpy the cache over the chunk, cache-sized piece by piece. */
  method OpWrite(ram: array<byte>, start: nat, size: nat, cache: array<byte>)
    requires start + size <= ram.Length && cache.Length == PATTERN_BYTES && ram != cache
    modifies ram
    ensures Holds(ram[..], start, start + size, cache[..])
    ensures forall x :: 0 <= x < ram.Length && !(start <= x < start + size) ==> ram[x] == old(ram[x])
  {
    var pos := 0;
    while pos < size
      invariant 0 <= pos <= size && (pos < size ==> pos % PATTERN_BYTES == 0)
      invariant forall x :: start <= x < start + pos ==> ram[x] == cache[(x - start) % PATTERN_BYTES]
      invariant forall x :: 0 <= x < ram.Length && !(start <= x < start + pos) ==> ram[x] == old(ram[x])
    {
      var curSize := Min(size - pos, PATTERN_BYTES);
      forall i | 0 <= i < curSize {
        ram[start + pos + i] := cache[i];
      }
      forall x | start + pos <= x < start + pos + curSize
        ensures ram[x] == cache[(x - start) % PATTERN_BYTES]
      {
        assert ram[start + pos + (x - start - pos)] == cache[x - start - pos];
      }
      pos := pos + curSize;
    }
  }

  lemma PlaceInPiece(pos: nat, i: nat)
    requires pos % PATTERN_BYTES == 0 && i < PATTERN_BYTES
    ensures (pos + i) % PATTERN_BYTES == i
  {
  }

  lemma HoldsAt(ram: seq<byte>, start: nat, end: nat, cache: seq<byte>, pos: nat, i: nat)
    requires |cache| == PATTERN_BYTES && i < PATTERN_BYTES && pos % PATTERN_BYTES == 0
    requires Holds(ram, start, end, cache) && start + pos + i < end
    ensures ram[start + pos + i] == cache[i]
  {
    var x := start + pos + i;
    PlaceInPiece(pos, i);
    assert x - start == pos + i;
  }

  lemma PieceDiffers(ram: seq<byte>, start: nat, pos: nat, n: nat, end: nat, cache: seq<byte>)
    requires |cache| == PATTERN_BYTES && n <= PATTERN_BYTES && pos % PATTERN_BYTES == 0
    requires start + pos + n <= end <= |ram| && ram[start + pos..start + pos + n] != cache[..n]
    ensures !Holds(ram, start, end, cache)
  {
    if Holds(ram, start, end, cache) {
      forall i | 0 <= i < n
        ensures ram[start + pos..start + pos + n][i] == cache[..n][i]
      {
        HoldsAt(ram, start, end, cache, pos, i);
      }
      assert false;
    }
  }

  /** memcmp the cache with the chunk, piece by piece. */
  method OpReadAndCheck(ram: array<byte>, start: nat, size: nat, cache: array<byte>) returns (ok: bool)
    requires start + size <= ram.Length && cache.Length == PATTERN_BYTES
    ensures ok <==> Holds(ram[..], start, start + size, cache[..])
  {
    var pos := 0;
    ghost var mem := ram[..];
    while pos < size
      invariant 0 <= pos <= size && (pos < size ==> pos % PATTERN_BYTES == 0)
      invariant Holds(mem, start, start + pos, cache[..])
    {
      var curSize := Min(size - pos, PATTERN_BYTES);
      assert ram[start + pos..start + pos + curSize] == mem[start + pos..start + pos + curSize];
      assert cache[..curSize] == cache[..][..curSize];
      if ram[start + pos..start + pos + curSize] != cache[..curSize] {
        PieceDiffers(mem, start, pos, curSize, start + size, cache[..]);
        return false;
      }
      HoldsMore(mem, start, pos, curSize, cache[..]);
      pos := pos + curSize;
    }
    return true;
  }

  lemma HoldsMore(ram: seq<byte>, start: nat, pos: nat, n: nat, cache: seq<byte>)
    requires |cache| == PATTERN_BYTES && pos % PATTERN_BYTES == 0 && start + pos + n <= |ram| && n <= PATTERN_BYTES
    requires Holds(ram, start, start + pos, cache) && ram[start + pos..start + pos + n] == cache[..n]
    ensures Holds(ram, start, start + pos + n, cache)
  {
    forall x | start + pos <= x < start + pos + n
      ensures ram[x] == cache[(x - start) % PATTERN_BYTES]
    {
      var i := x - start - pos;
      assert ram[start + pos..start + pos + n][i] == cache[..n][i];
      PlaceInPiece(pos, i);
      assert x - start == pos + i;
    }
  }

  // ---- windows

  /** A chunk is not always mapped in one piece: the operation is then called on one
      window after the other, and starts the pattern again in each. */
  type Cut = (nat, nat) -> seq<(nat, nat)>

  /** Non-empty windows, one behind the other, from `a` to `b`. */
  ghost predicate Tiled(ws: seq<(nat, nat)>, a: nat, b: nat)
    decreases ws
  {
    if ws == [] then a == b else ws[0].0 == a && a < ws[0].1 <= b && Tiled(ws[1..], ws[0].1, b)
  }

  ghost predicate Cuts(cut: Cut) {
    forall a, b {:trigger cut(a, b)} :: a <= b ==> Tiled(cut(a, b), a, b)
  }

  ghost predicate AllHold(ram: seq<byte>, ws: seq<(nat, nat)>, cache: seq<byte>)
    requires |cache| == PATTERN_BYTES
  {
    forall i :: 0 <= i < |ws| ==> Holds(ram, ws[i].0, ws[i].1, cache)
  }

  /** Every window of the chunk repeats the pattern from its own start. */
  ghost predicate HoldsIn(cut: Cut, ram: seq<byte>, start: nat, end: nat, cache: seq<byte>)
    requires |cache| == PATTERN_BYTES
  {
    AllHold(ram, cut(start, end), cache)
  }

  lemma {:induction false} TiledInside(ws: seq<(nat, nat)>, a: nat, b: nat, i: nat)
    requires Tiled(ws, a, b) && i < |ws|
    ensures a <= ws[i].0 < ws[i].1 <= b
    decreases ws
  {
    TiledForward(ws, a, b);
    if i > 0 {
      TiledInside(ws[1..], ws[0].1, b, i - 1);
    }
  }

  lemma {:induction false} TiledForward(ws: seq<(nat, nat)>, a: nat, b: nat)
    requires Tiled(ws, a, b)
    ensures a <= b
  {
  }

  const FOUR_GIB: nat := 0x1_0000_0000
  const LARGE_PAGE: nat := 0x20_0000

  /** The windows of a 32-bit x86 build: all below 4 GiB at once, then one 2 MiB page
      at a time. */
  function PageWindows(a: nat, b: nat): seq<(nat, nat)>
    decreases b - a
  {
    if b <= a then [] else
    var e := if a < FOUR_GIB then Min(FOUR_GIB, b) else Min(a - a % LARGE_PAGE + LARGE_PAGE, b);
    [(a, e)] + PageWindows(e, b)
  }

  lemma {:induction false} PagesAreTiled(a: nat, b: nat)
    requires a <= b
    ensures Tiled(PageWindows(a, b), a, b)
    decreases b - a
  {
    if a < b {
      var e := if a < FOUR_GIB then Min(FOUR_GIB, b) else Min(a - a % LARGE_PAGE + LARGE_PAGE, b);
      PagesAreTiled(e, b);
      assert PageWindows(a, b)[1..] == PageWindows(e, b);
    }
  }

  /** The one window of a 64-bit build. */
  function OneWindow(a: nat, b: nat): seq<(nat, nat)> {
    if a < b then [(a, b)] else []
  }

  /** Both ways of mapping memory are such cuts. */
  lemma {:induction false} MapsAreCuts()
    ensures Cuts(PageWindows) && Cuts(OneWindow)
  {
    forall a: nat, b: nat | a <= b
      ensures Tiled(PageWindows(a, b), a, b) && Tiled(OneWindow(a, b), a, b)
    {
      PagesAreTiled(a, b);
      assert a < b ==> OneWindow(a, b)[1..] == [];
    }
  }

  lemma StillHolds(ram: seq<byte>, ram': seq<byte>, start: nat, end: nat, cache: seq<byte>)
    requires |cache| == PATTERN_BYTES && Holds(ram, start, end, cache) && |ram'| == |ram|
    requires forall x :: start <= x < end ==> ram'[x] == ram[x]
    ensures Holds(ram', start, end, cache)
  {
  }

  /** arch_phys_map with the write operation. */
  method WriteChunk(ram: array<byte>, cut: Cut, start: nat, end: nat, cache: array<byte>)
    requires Cuts(cut) && start <= end <= ram.Length && cache.Length == PATTERN_BYTES && ram != cache
    modifies ram
    ensures HoldsIn(cut, ram[..], start, end, cache[..])
    ensures forall x :: 0 <= x < ram.Length && !(start <= x < end) ==> ram[x] == old(ram[x])
  {
    var ws, at := cut(start, end), start;
    ghost var data := cache[..];
    for i := 0 to |ws|
      invariant start <= at && Tiled(ws[i..], at, end) && (forall j :: 0 <= j < i ==> ws[j].1 <= at)
      invariant AllHold(ram[..], ws[..i], data)
      invariant forall x :: 0 <= x < ram.Length && !(start <= x < at) ==> ram[x] == old(ram[x])
    {
      assert ws[i..][0] == ws[i] && ws[i..][1..] == ws[i + 1..];
      TiledForward(ws[i + 1..], ws[i].1, end);
      ghost var before := ram[..];
      OpWrite(ram, at, ws[i].1 - at, cache);
      NextWindow(before, ram[..], ws, i, data);
      at := ws[i].1;
    }
    assert ws[..|ws|] == ws;
  }

  lemma {:induction false} NextWindow(ram: seq<byte>, ram': seq<byte>, ws: seq<(nat, nat)>, i: nat, data: seq<byte>)
    requires i < |ws| && |data| == PATTERN_BYTES && AllHold(ram, ws[..i], data) && |ram'| == |ram|
    requires forall j :: 0 <= j < i ==> ws[j].1 <= ws[i].0
    requires forall x :: 0 <= x < |ram| && !(ws[i].0 <= x < ws[i].1) ==> ram'[x] == ram[x]
    requires Holds(ram', ws[i].0, ws[i].1, data)
    ensures AllHold(ram', ws[..i + 1], data)
  {
    forall j | 0 <= j < i
      ensures Holds(ram', ws[j].0, ws[j].1, data)
    {
      assert ws[..i][j] == ws[j];
      StillHolds(ram, ram', ws[j].0, ws[j].1, data);
    }
  }

  /** arch_phys_map with the check: it fails when any window does. */
  method CheckChunk(ram: array<byte>, cut: Cut, start: nat, end: nat, cache: array<byte>) returns (ok: bool)
    requires Cuts(cut) && start <= end <= ram.Length && cache.Length == PATTERN_BYTES
    ensures ok <==> HoldsIn(cut, ram[..], start, end, cache[..])
  {
    var ws, at := cut(start, end), start;
    ok := true;
    for i := 0 to |ws|
      invariant Tiled(ws[i..], at, end) && (ok <==> AllHold(ram[..], ws[..i], cache[..]))
    {
      assert ws[i..][0] == ws[i] && ws[i..][1..] == ws[i + 1..];
      TiledForward(ws[i + 1..], ws[i].1, end);
      var held := OpReadAndCheck(ram, at, ws[i].1 - at, cache);
      MoreWindows(ram[..], ws, i, cache[..]);
      ok := ok && held;
      at := ws[i].1;
    }
    assert ws[..|ws|] == ws;
  }

  lemma MoreWindows(ram: seq<byte>, ws: seq<(nat, nat)>, i: nat, data: seq<byte>)
    requires i < |ws| && |data| == PATTERN_BYTES
    ensures AllHold(ram, ws[..i + 1], data) <==> AllHold(ram, ws[..i], data) && Holds(ram, ws[i].0, ws[i].1, data)
  {
    assert forall j :: 0 <= j < i ==> ws[..i + 1][j] == ws[..i][j];
    assert ws[..i + 1][i] == ws[i];
  }

  class State {
    const patterns: seq<seq<byte>>
    const ranges: seq<(nat, nat)>
    const ram: array<byte>
    /** How arch_phys_map cuts a chunk into the windows it maps. */
    const cut: Cut
    /** The pattern cache of the single operation data. */
    const cache: array<byte>
    var isRunning: bool
    var patternCur: nat
    var op: nat
    var rangeCur: nat
    var chunkSt: nat
    var result: TestResult
    var numBytesProcessed: nat

    ghost predicate Config() {
      && |patterns| > 0 && (forall i :: 0 <= i < |patterns| ==> patterns[i] != [])
      && |ranges| > 0 && Separated(ranges)
      && (forall i :: 0 <= i < |ranges| ==> ranges[i].1 <= ram.Length)
      && cache.Length == PATTERN_BYTES && ram != cache && Cuts(cut)
    }

    ghost function Cur(): Cursor
      reads this
    {
      Cursor(isRunning, patternCur, op, rangeCur, chunkSt)
    }

    ghost predicate Valid()
      reads this, cache
    {
      Config() && CursorOk(|patterns|, ranges, Cur()) && (isRunning ==> cache[..] == CacheOf(patterns[patternCur]))
    }

    /** memory_test_init, after the patterns and ranges have been collected. */
    constructor (patterns: seq<seq<byte>>, ranges: seq<(nat, nat)>, ram: array<byte>, cut: Cut)
      requires Cuts(cut)
      requires |patterns| > 0 && (forall i :: 0 <= i < |patterns| ==> patterns[i] != [])
      requires |ranges| > 0 && Separated(ranges) && (forall i :: 0 <= i < |ranges| ==> ranges[i].1 <= ram.Length)
      ensures this.patterns == patterns && this.ranges == ranges && this.ram == ram && this.cut == cut && fresh(cache)
      ensures Valid() && Cur() == Cursor(true, 0, 0, 0, ranges[0].0)
      ensures result == TestSuccess && numBytesProcessed == 0
    {
      this.patterns, this.ranges, this.ram, this.cut := patterns, ranges, ram, cut;
      cache := new byte[PATTERN_BYTES];
      result := TestSuccess;
      patternCur, op := 0, 0;
      rangeCur, chunkSt := 0, ranges[0].0;
      numBytesProcessed := 0;
      isRunning := true;
      new;
      Cyclic(patterns[0], cache);
    }

    method ResetChunk()
      requires rangeCur < |ranges|
      modifies this`chunkSt
      ensures chunkSt == ranges[rangeCur].0
    {
      chunkSt := ranges[rangeCur].0;
    }

    method ResetRange()
      requires 0 < |ranges|
      modifies this`rangeCur, this`chunkSt
      ensures rangeCur == 0 && chunkSt == ranges[0].0
    {
      rangeCur := 0;
      ResetChunk();
    }

    method GoNextPattern()
      requires Config() && patternCur < |patterns| && op == 2
      modifies this`isRunning, this`patternCur, this`op, this`rangeCur, this`chunkSt, cache
      ensures var c := NextPattern(|patterns|, ranges, old(Cur()));
              && isRunning == c.running && patternCur == c.pattern && op == c.op
              && patternCur < |patterns| && (isRunning ==> cache[..] == CacheOf(patterns[patternCur]))
    {
      if patternCur + 1 == |patterns| {
        isRunning := false;
        return;
      }
      patternCur := patternCur + 1;
      Cyclic(patterns[patternCur], cache);
      op := 0;
      ResetRange();
    }

    method GoNextOperation()
      requires Config() && patternCur < |patterns| && op < 2
      requires cache[..] == CacheOf(patterns[patternCur])
      modifies this`isRunning, this`patternCur, this`op, this`rangeCur, this`chunkSt, cache
      ensures Cur() == NextOperation(|patterns|, ranges, old(Cur()))
      ensures patternCur < |patterns| && (isRunning ==> cache[..] == CacheOf(patterns[patternCur]))
    {
      op := op + 1;
      if op == 2 {
        GoNextPattern();
      }
      ResetRange();
    }

    method GoNextRange()
      requires Config() && patternCur < |patterns| && op < 2 && rangeCur < |ranges|
      requires cache[..] == CacheOf(patterns[patternCur])
      modifies this`isRunning, this`patternCur, this`op, this`rangeCur, this`chunkSt, cache
      ensures Cur() == NextRange(|patterns|, ranges, old(Cur()))
      ensures patternCur < |patterns| && (isRunning ==> cache[..] == CacheOf(patterns[patternCur]))
    {
      rangeCur := rangeCur + 1;
      if rangeCur == |ranges| {
        GoNextOperation();
      }
      ResetChunk();
    }

    method GoNextChunk()
      requires Valid() && isRunning
      modifies this`isRunning, this`patternCur, this`op, this`rangeCur, this`chunkSt, cache
      ensures Valid() && Cur() == NextChunk(|patterns|, ranges, old(Cur()))
    {
      NextChunkOk(|patterns|, ranges, Cur());
      chunkSt := Min(ranges[rangeCur].1, chunkSt + CHUNK_SIZE);
      if chunkSt == ranges[rangeCur].1 {
        GoNextRange();
      }
    }

    /** memory_test_run_step: one chunk of one operation. */
    method RunStep()
      requires Valid()
      modifies this, ram, cache
      ensures Valid()
      ensures !old(isRunning) ==> Cur() == old(Cur()) && result == old(result) && ram[..] == old(ram[..])
      ensures old(isRunning) ==>
                var c, data := old(Cur()), old(cache[..]);
                var start, end := c.chunk, ChunkEnd(ranges, c);
                && start <= end && numBytesProcessed == old(numBytesProcessed) + (end - start)
                && result == (if c.op == 1 && !HoldsIn(cut, old(ram[..]), start, end, data) then TestFailed else old(result))
                && (if result == TestSuccess then Cur() == NextChunk(|patterns|, ranges, c) else !isRunning)
                && (c.op == 0 ==> HoldsIn(cut, ram[..], start, end, data))
                && (forall x :: 0 <= x < ram.Length && !(c.op == 0 && start <= x < end) ==> ram[x] == old(ram[x]))
    {
      if !isRunning {
        return;
      }
      var start := chunkSt;
      var end := Min(ranges[rangeCur].1, chunkSt + CHUNK_SIZE);
      if op == 0 {
        WriteChunk(ram, cut, start, end, cache);
      } else {
        var ok := CheckChunk(ram, cut, start, end, cache);
        if !ok {
          result := TestFailed;
        }
      }
      numBytesProcessed := numBytesProcessed + (end - start);
      if result != TestSuccess {
        isRunning := false;
        return;
      }
      GoNextChunk();
    }

    /** Running steps until the test stops, on memory that keeps what is written:
        the jobs done are the whole schedule, and the test passes. */
    method RunToEnd() returns (ghost trace: seq<Job>)
      requires Valid() && Cur() == Cursor(true, 0, 0, 0, ranges[0].0)
      requires result == TestSuccess && numBytesProcessed == 0
      modifies this, ram, cache
      ensures !isRunning && result == TestSuccess
      ensures trace == Schedule(|patterns|, AllChunks(ranges), 0)
      ensures numBytesProcessed == |patterns| * (2 * Bytes(ranges))
    {
      ghost var k := 0;
      trace := [];
      AtStart(cut, patterns, ranges, ram[..]);
      while isRunning
        invariant Valid() && result == TestSuccess
        invariant At(cut, patterns, ranges, Cur(), ram[..], k, trace, numBytesProcessed)
        decreases |Remaining(|patterns|, ranges, Cur())|
      {
        ghost var c, before := Cur(), ram[..];
        ghost var job := AtJob(cut, patterns, ranges, c, before, k, trace, numBytesProcessed);
        RunStep();
        AfterJob(cut, patterns, ranges, c, job, before, ram[..], k, trace, numBytesProcessed - (job.end - job.start));
        trace, k := trace + [job], k + 1;
      }
      AtEnd(cut, patterns, ranges, Cur(), ram[..], k, trace, numBytesProcessed);
    }
  }

  ghost predicate Configured(patterns: seq<seq<byte>>, rs: seq<(nat, nat)>) {
    |patterns| > 0 && (forall i :: 0 <= i < |patterns| ==> patterns[i] != []) && |rs| > 0 && Separated(rs)
  }

  /** A run has done `k` jobs, the trace, and the rest of the schedule remains. */
  ghost predicate At(
    cut: Cut, patterns: seq<seq<byte>>, rs: seq<(nat, nat)>, c: Cursor, ram: seq<byte>, k: nat, trace: seq<Job>, bytes: int)
  {
    && Cuts(cut) && Configured(patterns, rs) && CursorOk(|patterns|, rs, c)
    && var jobs := Schedule(|patterns|, AllChunks(rs), 0);
    && k <= |jobs| && trace == jobs[..k] && Remaining(|patterns|, rs, c) == jobs[k..]
    && bytes == JobBytes(trace) && Held(cut, patterns, jobs, ram, k)
  }

  lemma {:induction false} AtStart(cut: Cut, patterns: seq<seq<byte>>, rs: seq<(nat, nat)>, ram: seq<byte>)
    requires Cuts(cut) && Configured(patterns, rs)
    ensures At(cut, patterns, rs, Cursor(true, 0, 0, 0, rs[0].0), ram, 0, [], 0)
  {
    StartRemaining(|patterns|, rs);
  }

  lemma {:induction false} AtEnd(
    cut: Cut, patterns: seq<seq<byte>>, rs: seq<(nat, nat)>, c: Cursor, ram: seq<byte>, k: nat, trace: seq<Job>, bytes: int)
    requires At(cut, patterns, rs, c, ram, k, trace, bytes) && !c.running
    ensures trace == Schedule(|patterns|, AllChunks(rs), 0) && bytes == |patterns| * (2 * Bytes(rs))
  {
    var jobs := Schedule(|patterns|, AllChunks(rs), 0);
    assert jobs[k..] == [];
    assert jobs[..k] == jobs;
    ScheduleBytes(|patterns|, AllChunks(rs), 0);
    AllChunksTile(rs);
  }

  /** The current chunk is job `k`; when it is a check, memory holds the pattern. */
  lemma {:induction false} AtJob(
    cut: Cut, patterns: seq<seq<byte>>, rs: seq<(nat, nat)>, c: Cursor, ram: seq<byte>, k: nat, trace: seq<Job>, bytes: int)
    returns (job: Job)
    requires At(cut, patterns, rs, c, ram, k, trace, bytes) && c.running
    ensures job == Job(c.pattern, c.op, c.chunk, ChunkEnd(rs, c))
    ensures IsJob(patterns, rs, c, job, k)
    ensures job.op == 1 ==> HoldsIn(cut, ram, job.start, job.end, CacheOf(patterns[c.pattern]))
  {
    job := Job(c.pattern, c.op, c.chunk, ChunkEnd(rs, c));
    NextChunkRemaining(|patterns|, rs, c);
    TakeJob(Schedule(|patterns|, AllChunks(rs), 0), k, job, Remaining(|patterns|, rs, NextChunk(|patterns|, rs, c)));
    if job.op == 1 {
      WrittenBefore(cut, patterns, rs, ram, k);
    }
  }

  /** Job `k` is the current one, and the next state leaves one job less. */
  ghost predicate IsJob(patterns: seq<seq<byte>>, rs: seq<(nat, nat)>, c: Cursor, job: Job, k: nat) {
    && Separated(rs) && c.range < |rs|
    && var jobs := Schedule(|patterns|, AllChunks(rs), 0);
    && k < |jobs| && jobs[k] == job && jobs[..k + 1] == jobs[..k] + [job]
    && JobBytes(jobs[..k] + [job]) == JobBytes(jobs[..k]) + (job.end - job.start)
    && CursorOk(|patterns|, rs, NextChunk(|patterns|, rs, c))
    && Remaining(|patterns|, rs, NextChunk(|patterns|, rs, c)) == jobs[k + 1..]
  }

  lemma {:induction false} AfterJob(
    cut: Cut, patterns: seq<seq<byte>>, rs: seq<(nat, nat)>, c: Cursor, job: Job, ram: seq<byte>, ram': seq<byte>, k: nat,
    trace: seq<Job>, bytes: int)
    requires At(cut, patterns, rs, c, ram, k, trace, bytes) && c.running && IsJob(patterns, rs, c, job, k)
    requires job.pattern < |patterns| && |ram'| == |ram|
    requires job.op == 0 ==> HoldsIn(cut, ram', job.start, job.end, CacheOf(patterns[job.pattern]))
    requires forall x :: 0 <= x < |ram| && !(job.op == 0 && job.start <= x < job.end) ==> ram'[x] == ram[x]
    ensures At(cut, patterns, rs, NextChunk(|patterns|, rs, c), ram', k + 1, trace + [job], bytes + (job.end - job.start))
    ensures |Remaining(|patterns|, rs, NextChunk(|patterns|, rs, c))| < |Remaining(|patterns|, rs, c)|
  {
    HeldStep(cut, patterns, rs, ram, ram', k);
  }

  lemma {:induction false} TakeJob(jobs: seq<Job>, k: nat, job: Job, rest: seq<Job>)
    requires k <= |jobs| && jobs[k..] == [job] + rest
    ensures k < |jobs| && jobs[k] == job && jobs[k + 1..] == rest && jobs[..k + 1] == jobs[..k] + [job]
    ensures JobBytes(jobs[..k] + [job]) == JobBytes(jobs[..k]) + (job.end - job.start)
  {
    assert jobs[k] == jobs[k..][0];
    assert jobs[k + 1..] == jobs[k..][1..];
    JobBytesConcat(jobs[..k], [job]);
  }

  /** Before job `k`, every earlier write of the same pattern is still there. */
  ghost predicate Held(cut: Cut, patterns: seq<seq<byte>>, jobs: seq<Job>, ram: seq<byte>, k: nat) {
    forall j {:trigger jobs[j]} ::
      0 <= j < k < |jobs| && jobs[j].op == 0 && jobs[j].pattern == jobs[k].pattern < |patterns| &&
      patterns[jobs[j].pattern] != [] ==>
        HoldsIn(cut, ram, jobs[j].start, jobs[j].end, CacheOf(patterns[jobs[j].pattern]))
  }

  lemma {:induction false} PatternsIncrease(n: nat, cs: seq<(nat, nat)>, p: nat, i: nat, j: nat)
    requires p <= n && i < j < |Schedule(n, cs, p)|
    ensures Schedule(n, cs, p)[i].pattern <= Schedule(n, cs, p)[j].pattern
    decreases n - p
  {
    if 2 * |cs| <= i {
      PatternsIncrease(n, cs, p + 1, i - 2 * |cs|, j - 2 * |cs|);
    } else if 2 * |cs| <= j {
      ScheduleRange(n, cs, p + 1, j - 2 * |cs|);
    }
  }

  lemma {:induction false} WrittenBefore(
    cut: Cut, patterns: seq<seq<byte>>, ranges: seq<(nat, nat)>, ram: seq<byte>, k: nat)
    requires Separated(ranges) && k < |Schedule(|patterns|, AllChunks(ranges), 0)|
    requires forall i :: 0 <= i < |patterns| ==> patterns[i] != []
    requires Held(cut, patterns, Schedule(|patterns|, AllChunks(ranges), 0), ram, k)
    requires Schedule(|patterns|, AllChunks(ranges), 0)[k].op == 1
    ensures var job := Schedule(|patterns|, AllChunks(ranges), 0)[k];
            job.pattern < |patterns| && HoldsIn(cut, ram, job.start, job.end, CacheOf(patterns[job.pattern]))
  {
    ScheduleRange(|patterns|, AllChunks(ranges), 0, k);
    var m := CheckFollowsWrite(|patterns|, AllChunks(ranges), 0, k);
  }

  lemma {:induction false} HeldStep(
    cut: Cut, patterns: seq<seq<byte>>, ranges: seq<(nat, nat)>, ram: seq<byte>, ram': seq<byte>, k: nat)
    requires Cuts(cut) && Separated(ranges) && k < |Schedule(|patterns|, AllChunks(ranges), 0)| && |ram| == |ram'|
    requires forall i :: 0 <= i < |patterns| ==> patterns[i] != []
    requires Held(cut, patterns, Schedule(|patterns|, AllChunks(ranges), 0), ram, k)
    requires var job := Schedule(|patterns|, AllChunks(ranges), 0)[k];
             && job.pattern < |patterns|
             && (job.op == 0 ==> HoldsIn(cut, ram', job.start, job.end, CacheOf(patterns[job.pattern])))
             && (forall x :: 0 <= x < |ram| && !(job.op == 0 && job.start <= x < job.end) ==> ram'[x] == ram[x])
    ensures Held(cut, patterns, Schedule(|patterns|, AllChunks(ranges), 0), ram', k + 1)
  {
    var n, cs := |patterns|, AllChunks(ranges);
    var jobs := Schedule(n, cs, 0);
    AllChunksTile(ranges);
    forall j {:trigger jobs[j]} | 0 <= j < k && k + 1 < |jobs| && jobs[j].op == 0 && jobs[j].pattern == jobs[k + 1].pattern
      ensures Apart(jobs[j], jobs[k])
    {
      EarlierIsDisjoint(n, cs, j, k);
    }
    HeldOn(cut, patterns, jobs, ram, ram', k);
  }

  /** A write of the same pattern as the job, elsewhere if that writes too. */
  predicate Apart(earlier: Job, job: Job) {
    && earlier.start <= earlier.end && earlier.pattern == job.pattern
    && (job.op == 0 ==> earlier.end <= job.start)
  }

  lemma {:induction false} HeldOn(
    cut: Cut, patterns: seq<seq<byte>>, jobs: seq<Job>, ram: seq<byte>, ram': seq<byte>, k: nat)
    requires Cuts(cut) && k < |jobs| && |ram| == |ram'| && Held(cut, patterns, jobs, ram, k)
    requires jobs[k].pattern < |patterns| && patterns[jobs[k].pattern] != []
    requires forall j {:trigger jobs[j]} ::
               0 <= j < k && k + 1 < |jobs| && jobs[j].op == 0 && jobs[j].pattern == jobs[k + 1].pattern ==>
                 Apart(jobs[j], jobs[k])
    requires jobs[k].op == 0 ==>
               HoldsIn(cut, ram', jobs[k].start, jobs[k].end, CacheOf(patterns[jobs[k].pattern]))
    requires forall x :: 0 <= x < |ram| && !(jobs[k].op == 0 && jobs[k].start <= x < jobs[k].end) ==> ram'[x] == ram[x]
    ensures Held(cut, patterns, jobs, ram', k + 1)
  {
    forall j {:trigger jobs[j]} |
      0 <= j < k + 1 < |jobs| && jobs[j].op == 0 && jobs[j].pattern == jobs[k + 1].pattern < |patterns| &&
      patterns[jobs[j].pattern] != []
      ensures HoldsIn(cut, ram', jobs[j].start, jobs[j].end, CacheOf(patterns[jobs[j].pattern]))
    {
      if j < k {
        JobStillHolds(cut, jobs[j], jobs[k], ram, ram', CacheOf(patterns[jobs[j].pattern]));
      }
    }
  }

  /** A write before job `k` of the pattern of job `k + 1` has the pattern of job `k` too,
      and does not overlap it if that is a write. */
  lemma {:induction false} EarlierIsDisjoint(n: nat, cs: seq<(nat, nat)>, j: nat, k: nat)
    requires InOrder(cs) && j < k && k + 1 < |Schedule(n, cs, 0)|
    requires Schedule(n, cs, 0)[j].op == 0 && Schedule(n, cs, 0)[j].pattern == Schedule(n, cs, 0)[k + 1].pattern
    ensures Schedule(n, cs, 0)[j].start <= Schedule(n, cs, 0)[j].end
    ensures Schedule(n, cs, 0)[j].pattern == Schedule(n, cs, 0)[k].pattern
    ensures Schedule(n, cs, 0)[k].op == 0 ==> Schedule(n, cs, 0)[j].end <= Schedule(n, cs, 0)[k].start
  {
    ScheduleRange(n, cs, 0, j);
    PatternsIncrease(n, cs, 0, j, k);
    PatternsIncrease(n, cs, 0, k, k + 1);
    if Schedule(n, cs, 0)[k].op == 0 {
      WritesAreDisjoint(n, cs, 0, j, k);
    }
  }

  /** A job does not touch what an earlier write put elsewhere. */
  lemma {:induction false} JobStillHolds(cut: Cut, earlier: Job, job: Job, ram: seq<byte>, ram': seq<byte>, cache: seq<byte>)
    requires Cuts(cut) && earlier.start <= earlier.end
    requires |cache| == PATTERN_BYTES && HoldsIn(cut, ram, earlier.start, earlier.end, cache) && |ram'| == |ram|
    requires job.op == 0 ==> earlier.end <= job.start
    requires forall x :: 0 <= x < |ram| && !(job.op == 0 && job.start <= x < job.end) ==> ram'[x] == ram[x]
    ensures HoldsIn(cut, ram', earlier.start, earlier.end, cache)
  {
    var ws := cut(earlier.start, earlier.end);
    forall i | 0 <= i < |ws|
      ensures Holds(ram', ws[i].0, ws[i].1, cache)
    {
      TiledInside(ws, earlier.start, earlier.end, i);
      StillHolds(ram, ram', ws[i].0, ws[i].1, cache);
    }
  }
}
