/** The bootconfig structure over memory (src/boot/bootconfig.c), and its two uses
    at boot: closing the area (src/vboot/boot_info.c) and stamping the boot time
    into the space left for it (src/boot/android_bootconfig_params.c). */
module BootconfigBuffer {
  import opened Basics
  import opened Bootconfig

  /** memcpy, memset and snprintf all write a run of characters. */
  method Put(mem: array<char>, at: nat, s: string)
    requires at + |s| <= mem.Length
    modifies mem
    ensures mem[..] == Over(old(mem[..]), at, s)
  {
    forall i | 0 <= i < |s| {
      mem[at + i] := s[i];
    }
  }

  /** snprintf: at most `space - 1` characters and a NUL; returns the full length. */
  method Snprintf(mem: array<char>, at: nat, space: nat, s: string) returns (len: nat)
    requires at + space <= mem.Length
    modifies mem
    ensures len == |s|
    ensures mem[..] == if space == 0 then old(mem[..])
                       else Over(old(mem[..]), at, s[..Min(|s|, space - 1)] + [NUL])
  {
    len := |s|;
    if space > 0 {
      Put(mem, at, s[..Min(|s|, space - 1)] + [NUL]);
    }
  }

  method ComputeSum(mem: array<char>, start: nat, size: nat, signed: bool) returns (sum: nat)
    requires start + size <= mem.Length
    ensures sum == Sum(mem[start..start + size], signed)
  {
    sum := 0;
    ghost var area := mem[start..start + size];
    for i := 0 to size
      invariant sum == SumTo(area, i, signed)
    {
      assert area[i] == mem[start + i];
      sum := (sum + CharValue(mem[start + i], signed)) % U32;
    }
  }

  /** The checksum of an area of `full` bytes, whose size field has 32 bits. */
  method AreaChecksum(mem: array<char>, start: nat, full: nat, signed: bool, ghost area: string) returns (sum: nat)
    requires start + full <= mem.Length && area == mem[..][start..start + full]
    ensures sum == AreaSum(area, signed)
  {
    var paramsSize := full % U32;
    sum := ComputeSum(mem, start, paramsSize, signed);
    ghost var part := mem[start..start + paramsSize];
    assert part == area[..paramsSize] && part[..paramsSize] == part;
    SumOfPrefix(area, part, paramsSize, signed);
  }

  /** The same length, and the same outside `[lo, hi)`. */
  ghost predicate OnlyChanged(d: string, d': string, lo: nat, hi: nat) {
    |d'| == |d| && lo <= hi <= |d| && forall i {:trigger d'[i]} :: 0 <= i < |d| && !(lo <= i < hi) ==> d'[i] == d[i]
  }

  /** After writing `s` and a NUL at `at`. */
  lemma WrittenText(d: string, start: nat, at: nat, s: string, hi: nat)
    requires start <= at && at + |s| < hi <= |d|
    ensures var r := Over(d, at, s + [NUL]);
            r[start..at + |s|] == d[start..at] + s && r[at + |s|] == NUL && OnlyChanged(d, r, at, hi)
  {
  }

  /** After writing anything at `at` and then a NUL there. */
  lemma RestoredText(d: string, start: nat, at: nat, s: string, hi: nat)
    requires start <= at < hi <= |d| && at + |s| <= hi
    ensures var r := Over(d, at, s)[at := NUL];
            r[start..at] == d[start..at] + "" && r[at] == NUL && OnlyChanged(d, r, at, hi)
  {
  }

  lemma OverMore(d: string, at: nat, s: string, c: char)
    requires at + |s| < |d|
    ensures Over(d, at, s)[at + |s| := c] == Over(d, at, s + [c])
  {
  }

  /** A text of `n` characters, then `s`, ended behind it. */
  lemma {:induction false} ClosedLine(d: string, start: nat, n: nat, s: string, limit: nat) returns (d': string)
    requires n + |s| <= limit && start + limit < |d|
    ensures d' == Over(d, start + n, s)[start + (n + |s|) := NUL]
    ensures d'[start..start + (n + |s|)] == d[start..start + n] + s && d'[start + (n + |s|)] == NUL
    ensures OnlyChanged(d, d', start + n, start + limit + 1)
  {
    OverMore(d, start + n, s, NUL);
    WrittenText(d, start, start + n, s, start + limit + 1);
    d' := Over(d, start + n, s)[start + (n + |s|) := NUL];
  }

  /** The same, ended before it. */
  lemma {:induction false} UndoneLine(d: string, start: nat, n: nat, s: string, limit: nat) returns (d': string)
    requires n + |s| <= limit && start + limit < |d|
    ensures d' == Over(d, start + n, s)[start + n := NUL]
    ensures d'[start..start + n] == d[start..start + n] + "" && d'[start + n] == NUL
    ensures OnlyChanged(d, d', start + n, start + limit + 1)
  {
    RestoredText(d, start, start + n, s, start + limit + 1);
    d' := Over(d, start + n, s)[start + n := NUL];
  }

  lemma SameText(s: string)
    ensures s == s + ""
  {
  }

  /** Memory after snprintf, ended at `at` again when the entry did not fit. */
  function Printed(d: string, at: nat, space: nat, s: string): (r: string)
    requires at + space < |d|
    ensures |r| == |d|
  {
    if |s| < space then Over(d, at, s + [NUL])
    else if space == 0 then d[at := NUL]
    else Over(d, at, s[..space - 1] + [NUL])[at := NUL]
  }

  /** What that makes of a text of `n` characters with room up to `limit`. */
  lemma {:induction false} PrintedText(d: string, start: nat, n: nat, limit: nat, s: string) returns (d': string)
    requires n <= limit && start + limit < |d|
    ensures d' == Printed(d, start + n, limit - n, s)
    ensures |s| < limit - n ==>
              && d' == Over(d, start + n, s + [NUL])
              && d'[start..start + (n + |s|)] == d[start..start + n] + s && d'[start + (n + |s|)] == NUL
    ensures |s| >= limit - n ==> d'[start..start + n] == d[start..start + n] + "" && d'[start + n] == NUL
    ensures OnlyChanged(d, d', start + n, start + if n < limit then limit else limit + 1)
  {
    var at, space := start + n, limit - n;
    d' := Printed(d, at, space, s);
    if |s| < space {
      WrittenText(d, start, at, s, at + space);
    } else if space == 0 {
      RestoredText(d, start, at, "", at + 1);
      assert Over(d, at, "") == d;
    } else {
      RestoredText(d, start, at, s[..space - 1] + [NUL], at + space);
    }
  }

  method Print(mem: array<char>, at: nat, space: nat, s: string, ghost d': string) returns (len: nat)
    requires at + space < mem.Length && d' == Printed(mem[..], at, space, s)
    modifies mem
    ensures len == |s| && mem[..] == d'
  {
    len := Snprintf(mem, at, space, s);
    assert |s| < space ==> s[..Min(|s|, space - 1)] == s;
    if len >= space {
      mem[at] := NUL;
    }
  }

  class Buffer {
    const mem: array<char>
    var start: nat
    var size: nat
    var limit: nat

    ghost function Memory(): string
      reads mem
    {
      mem[..]
    }

    /** The text ends with a NUL, and a trailer fits behind the limit. */
    ghost predicate Valid()
      reads this, mem
    {
      size <= limit && start + limit + TRAILER <= |Memory()| && Memory()[start + size] == NUL
    }

    ghost function Text(): string
      requires Valid()
      reads this, mem
    {
      Memory()[start..start + size]
    }

    /** bootconfig_init */
    constructor Init(mem: array<char>, start: nat, bufferSize: nat)
      requires bufferSize >= TRAILER + 1 && start + bufferSize <= mem.Length
      modifies mem
      ensures this.mem == mem && this.start == start && limit == bufferSize - TRAILER - 1
      ensures Valid() && Text() == ""
      ensures mem[..] == old(mem[..])[start := NUL]
    {
      this.mem, this.start := mem, start;
      limit, size := bufferSize - TRAILER - 1, 0;
      new;
      mem[start] := NUL;
    }

    /** bootconfig_reinit; when nothing is found the fields have no meaning. */
    constructor Reinit(mem: array<char>, trailer: nat)
      requires trailer + TRAILER <= mem.Length
      requires HasMagic(mem[..], trailer) ==> ClaimedSize(mem[..], trailer) <= trailer
      ensures this.mem == mem
      ensures var found := Found(mem[..], trailer);
              found.Some? ==> Valid() && Area(start, size, limit) == found.value
    {
      this.mem := mem;
      start, size, limit := 0, 0, 0;
      new;
      ghost var d := mem[..];
      assert mem[trailer + 8..trailer + TRAILER] == d[trailer + 8..trailer + TRAILER];
      if mem[trailer + 8..trailer + TRAILER] != MAGIC {
        return;
      }
      assert mem[trailer..trailer + 4] == d[trailer..trailer + 4];
      limit := Word(mem[trailer..trailer + 4]);
      start := trailer - limit;
      size := FirstNul(mem[start..trailer]);
      assert mem[start..trailer] == d[start..trailer];
      assert size < limit ==> mem[start + size] == mem[start..trailer][size];
    }

    /** append_param with its operator: refused when the value has a quote or a
        backslash, or when it does not fit; the text is then unchanged. */
    method AppendParam(key: string, value: string, op: string) returns (ok: bool)
      requires Valid()
      modifies this`size, mem
      ensures Valid()
      ensures ok <==> CleanValue(value) && |Entry(key, op, value)| < limit - old(size)
      ensures Text() == old(Text()) + if ok then Entry(key, op, value) else ""
      ensures ok ==> Memory() == Over(old(Memory()), start + old(size), Entry(key, op, value) + [NUL])
      ensures OnlyChanged(old(Memory()), Memory(), start + old(size),
                          start + if old(size) < limit then limit else limit + 1)
    {
      var len := Span(value);
      if len != |value| {
        SameText(Text());
        return false;
      }
      ok := AppendEntry(Entry(key, op, value));
    }

    /** The formatted entry goes behind the text, or the text is ended again. */
    method AppendEntry(entry: string) returns (ok: bool)
      requires Valid()
      modifies this`size, mem
      ensures Valid() && ok == (|entry| < limit - old(size))
      ensures Text() == old(Text()) + if ok then entry else ""
      ensures ok ==> Memory() == Over(old(Memory()), start + old(size), entry + [NUL])
      ensures OnlyChanged(old(Memory()), Memory(), start + old(size),
                          start + if old(size) < limit then limit else limit + 1)
    {
      var space := limit - size;
      ghost var d' := PrintedText(Memory(), start, size, limit, entry);
      var len := Print(mem, start + size, space, entry, d');
      if len >= space {
        return false;
      }
      size := size + len;
      return true;
    }

    /** bootconfig_append_cmdline */
    method AppendCmdline(cmdline: string) returns (ok: bool)
      requires Valid() && NulFree(cmdline)
      modifies this`size, mem
      ensures Valid()
      ensures ok <==> !Quoted(cmdline, false) && old(size) + |Converted(cmdline, false)| <= limit
      ensures Text() == old(Text()) + if ok then Converted(cmdline, false) else ""
      ensures OnlyChanged(old(Memory()), Memory(), start + old(size), start + limit + 1)
    {
      ghost var d := Memory();
      var out;
      ghost var done;
      ok, out, done := Convert(cmdline);
      ghost var all := Memory();
      if ok {
        ghost var d' := ClosedLine(d, start, size, done, limit);
        EndAt(out, all, d');
        size := out;
      } else {
        ghost var d' := UndoneLine(d, start, size, done, limit);
        EndAt(size, all, d');
      }
    }

    /** Write the final NUL. */
    method EndAt(end: nat, ghost d: string, ghost d': string)
      requires start + end < mem.Length && Memory() == d && d' == d[start + end := NUL]
      modifies mem
      ensures Memory() == d'
    {
      mem[start + end] := NUL;
    }

    /** Write one more character behind `done`. */
    method Emit(at: nat, c: char, ghost base: nat, ghost d: string, ghost done: string)
      requires at == base + |done| < mem.Length == |d| && Memory() == Over(d, base, done)
      modifies mem
      ensures Memory() == Over(d, base, done + [c])
    {
      mem[at] := c;
      OverMore(d, base, done, c);
    }

    /** The conversion loop: writes from the end of the text on, up to the limit. */
    method Convert(cmdline: string) returns (ok: bool, out: nat, ghost done: string)
      requires Valid() && NulFree(cmdline)
      modifies mem
      ensures size + |done| == out <= limit && Memory() == Over(old(Memory()), start + size, done)
      ensures ok <==> !Quoted(cmdline, false) && size + |Converted(cmdline, false)| <= limit
      ensures ok ==> done == Converted(cmdline, false)
    {
      var inQuote, pos := false, 0;
      ghost var d, all := Memory(), Converted(cmdline, false);
      out, done := size, "";
      assert cmdline[0..] == cmdline && "" + all == all;
      assert Over(d, start + size, "") == d;
      while true
        invariant pos <= |cmdline| && size + |done| == out <= limit && Memory() == Over(d, start + size, done)
        invariant Progress(cmdline, pos, inQuote, done, all)
        decreases |cmdline| - pos
      {
        if out >= limit {
          return false, out, done;
        }
        var c: char, atEnd := NUL, pos == |cmdline|;
        ghost var was := done;
        c, pos, inQuote, done := Advance(cmdline, pos, inQuote, done, all);
        Emit(start + out, c, start + size, d, was);
        out := out + 1;
        if atEnd {
          return !inQuote, out, done;
        }
      }
    }

    method WriteTrailer(full: nat, signed: bool, ghost d: string, ghost d': string)
      requires start + full + TRAILER <= mem.Length && Memory() == d
      requires d' == Over(d, start + full, TrailerOf(full % U32, AreaSum(d[start..start + full], signed)))
      modifies mem
      ensures Memory() == d'
    {
      var sum := AreaChecksum(mem, start, full, signed, d[start..start + full]);
      Put(mem, start + full, TrailerOf(full % U32, sum));
    }

    /** Zero the room behind the text and write the trailer. */
    method Close(room: nat, signed: bool)
      requires Valid() && room > 0 && start + size + room + TRAILER <= mem.Length
      modifies mem
      ensures Closed(Memory(), start, old(Text()), room, signed)
      ensures OnlyChanged(old(Memory()), Memory(), start + size, start + size + room + TRAILER)
    {
      ghost var d, text := Memory(), Text();
      ghost var d' := ZeroAndSign(room, signed);
      ClosedTrailer(d, start, text, size, room, signed, d');
    }

    method ZeroAndSign(room: nat, signed: bool) returns (ghost d': string)
      requires start + size + room + TRAILER <= mem.Length
      modifies mem
      ensures Memory() == d' == Signed(old(Memory()), start, size, room, signed)
    {
      ghost var d1 := Over(Memory(), start + size, Zeros(room));
      d' := Signed(Memory(), start, size, room, signed);
      Put(mem, start + size, Zeros(room));
      assert Memory() == d1;
      WriteTrailer(size + room, signed, d1, d');
    }

    /** bootconfig_finalize: the address of the trailer, or None for NULL. */
    method Finalize(reserved: nat, signed: bool) returns (trailer: Option<nat>)
      requires Valid()
      modifies mem
      ensures trailer == if size + (reserved + 1) <= limit then Some(start + size + (reserved + 1)) else None
      ensures trailer.None? ==> Memory() == old(Memory())
      ensures trailer.Some? ==> Closed(Memory(), start, old(Text()), reserved + 1, signed)
      ensures trailer.Some? ==>
                OnlyChanged(old(Memory()), Memory(), start + size, start + size + (reserved + 1) + TRAILER)
    {
      var room := reserved + 1;
      if limit < size + room {
        return None;
      }
      Close(room, signed);
      trailer := Some(start + size + room);
    }

    /** bootconfig_checksum_recalculate, for a trailer that claims `n` bytes. */
    method RecalculateChecksum(trailer: nat, signed: bool, ghost n: nat)
      requires trailer + TRAILER <= mem.Length && start + n <= trailer && ClaimedSize(mem[..], trailer) == n
      modifies mem
      ensures Memory() == Over(old(Memory()), trailer + 4, Le32(Sum(old(Memory())[start..start + n], signed)))
    {
      ghost var d := Memory();
      assert mem[trailer..trailer + 4] == d[trailer..trailer + 4];
      var size := Word(mem[trailer..trailer + 4]);
      assert mem[start..start + size] == d[start..start + n];
      var sum := ComputeSum(mem, start, size, signed);
      Put(mem, trailer + 4, Le32(sum));
    }
  }

  /** One pass of the conversion: the character to write, and where to go on. At
      the end of the string that is the last delimiter. */
  method NextOutput(s: string, pos: nat, q: bool) returns (c: char, next: nat, q': bool)
    requires pos <= |s|
    ensures pos <= next <= |s| && (pos < |s| ==> pos < next)
    ensures Converted(s[pos..], q) == [c] + if pos == |s| then "" else Converted(s[next..], q')
    ensures Quoted(s[next..], q') == Quoted(s[pos..], q)
  {
    if pos == |s| {
      assert [DELIMITER] + "" == [DELIMITER];
      return DELIMITER, pos, q;
    }
    ghost var rest := s[pos..];
    assert rest[0] == s[pos] && rest[1..] == s[pos + 1..];
    if !q && IsSpace(s[pos]) {
      next := Skip(s, pos + 1);
      SkipSpacesKeeps(rest[1..], q);
      return DELIMITER, next, q;
    }
    return s[pos], pos + 1, q != (s[pos] == '"');
  }

  /** What is written and what is still to come make the whole conversion. */
  ghost predicate Progress(s: string, pos: nat, q: bool, done: string, all: string) {
    && pos <= |s| && done + Converted(s[pos..], q) == all
    && Quoted(s[pos..], q) == Quoted(s, false)
  }

  method Advance(s: string, pos: nat, q: bool, ghost done: string, ghost all: string)
    returns (c: char, next: nat, q': bool, ghost done': string)
    requires Progress(s, pos, q, done, all)
    ensures done' == done + [c] && pos <= next <= |s|
    ensures if pos == |s| then done' == all && q' == Quoted(s, false)
            else pos < next && Progress(s, next, q', done', all)
  {
    c, next, q' := NextOutput(s, pos, q);
    done' := done + [c];
    Regroup(done, c, if pos == |s| then "" else Converted(s[next..], q'));
    assert (done + [c]) + "" == done + [c];
  }

  lemma ClosedText(d: string, start: nat, text: string, room: nat)
    requires start + |text| + room <= |d| && d[start..start + |text|] == text
    ensures var at, r := start + |text|, Over(d, start + |text|, Zeros(room));
            && r[start..at + room] == text + Zeros(room)
            && r[..at] == d[..at] && r[at + room..] == d[at + room..]
  {
  }

  /** Memory after the zeros and the trailer were written. */
  function Signed(d: string, start: nat, n: nat, room: nat, signed: bool): string
    requires start + n + room + TRAILER <= |d|
  {
    var d1 := Over(d, start + n, Zeros(room));
    Over(d1, start + (n + room), TrailerOf((n + room) % U32, AreaSum(d1[start..start + (n + room)], signed)))
  }

  lemma {:induction false} ClosedTrailer(
    d: string, start: nat, text: string, n: nat, room: nat, signed: bool, d': string)
    requires n == |text| && start + n + room + TRAILER <= |d| && room > 0 && d[start..start + n] == text
    requires d' == Signed(d, start, n, room, signed)
    ensures Closed(d', start, text, room, signed)
    ensures OnlyChanged(d, d', start + n, start + n + room + TRAILER)
  {
    var t := start + (n + room);
    var d1 := Over(d, start + n, Zeros(room));
    ClosedText(d, start, text, room);
    ClosedFrame(d, d1, d', start, start + n, t, TrailerOf((n + room) % U32, AreaSum(d1[start..t], signed)));
  }

  lemma ClosedFrame(d: string, d1: string, d2: string, start: nat, at: nat, t: nat, s: string)
    requires start <= at <= t && t + |s| <= |d| == |d1| && d2 == Over(d1, t, s)
    requires d1[..at] == d[..at] && d1[t..] == d[t..]
    ensures d2[start..t] == d1[start..t] && d2[t..t + |s|] == s && OnlyChanged(d, d2, at, t + |s|)
  {
    assert d2[..at] == d1[..at];
    assert d2[t + |s|..] == d1[t..][|s|..];
    assert d[t + |s|..] == d[t..][|s|..];
  }

  lemma {:induction false} SumOfPrefix(s: string, p: string, n: nat, signed: bool)
    requires n <= |p| && n <= |s| && p[..n] == s[..n]
    ensures SumTo(p, n, signed) == SumTo(s, n, signed)
  {
    if n > 0 {
      assert p[n - 1] == p[..n][n - 1] && s[n - 1] == s[..n][n - 1];
      assert p[..n - 1] == p[..n][..n - 1] && s[..n - 1] == s[..n][..n - 1];
      SumOfPrefix(s, p, n - 1, signed);
    }
  }

  lemma Regroup(a: string, c: char, b: string)
    ensures (a + [c]) + b == a + ([c] + b)
  {
  }

  /** strcspn with the forbidden characters. */
  method Span(value: string) returns (n: nat)
    ensures n <= |value| && (n == |value| <==> CleanValue(value))
  {
    n := 0;
    while n < |value| && !Forbidden(value[n])
      invariant n <= |value| && CleanValue(value[..n])
    {
      n := n + 1;
    }
    assert n == |value| ==> value[..n] == value;
  }

  method Skip(s: string, from: nat) returns (i: nat)
    requires from <= |s|
    ensures from <= i <= |s| && s[i..] == SkipSpaces(s[from..])
  {
    i := from;
    while i < |s| && IsSpace(s[i])
      invariant from <= i <= |s| && SkipSpaces(s[i..]) == SkipSpaces(s[from..])
    {
      assert s[i..][1..] == s[i + 1..];
      i := i + 1;
    }
    assert i < |s| ==> s[i..][0] == s[i];
  }
}
