/** The bootconfig area behind the ramdisk (src/boot/bootconfig.c): text appended
    in place, then closed by a trailer from which it can be found again. */
module Bootconfig {
  import opened Basics

  const DELIMITER: char := '\n'
  const MAGIC: string := "#BOOTCONFIG\n"
  /** sizeof(struct bootconfig_trailer): two 32-bit words and the magic. */
  const TRAILER: nat := 20

  function Zeros(n: nat): (s: string)
    ensures |s| == n && forall i :: 0 <= i < n ==> s[i] == NUL
  {
    seq(n, _ => NUL)
  }

  // ---- 32-bit words in memory

  function Le32(n: nat): (s: string)
    ensures |s| == 4
  {
    seq(4, i requires 0 <= i => Digit(n, i))
  }

  /** Byte `k` of a number, the lowest being byte 0. */
  function Digit(n: nat, k: nat): (c: char)
    ensures c as int < 256
    decreases k, n
  {
    if k == 0 then (n % 256) as char else Digit(n / 256, k - 1)
  }

  lemma {:induction false} FourDigits(n: nat)
    requires n < U32
    ensures n == Digit(n, 0) as int + 256 * (Digit(n, 1) as int) + 0x1_0000 * (Digit(n, 2) as int)
                 + 0x100_0000 * (Digit(n, 3) as int)
  {
    var a, b := n / 256, n / 0x1_0000;
    var c := n / 0x100_0000;
    assert Digit(n, 1) == Digit(a, 0);
    assert Digit(n, 2) == Digit(a, 1) == Digit(b, 0);
    assert Digit(n, 3) == Digit(a, 2) == Digit(b, 1) == Digit(c, 0);
  }

  function Word(s: string): nat
    requires |s| == 4
  {
    s[0] as int + 256 * (s[1] as int) + 0x1_0000 * (s[2] as int) + 0x100_0000 * (s[3] as int)
  }

  lemma WordOfLe32(n: nat)
    requires n < U32
    ensures Word(Le32(n)) == n
  {
    FourDigits(n);
  }

  // ---- the checksum

  /** What a character counts: `char` may be signed. */
  function CharValue(c: char, signed: bool): int {
    if signed && 128 <= c as int < 256 then c as int - 256 else c as int
  }

  /** The sum of the first `n` characters. */
  function SumTo(s: string, n: nat, signed: bool): (r: nat)
    requires n <= |s|
    ensures r < U32
  {
    if n == 0 then 0 else (SumTo(s, n - 1, signed) + CharValue(s[n - 1], signed)) % U32
  }

  function Sum(s: string, signed: bool): nat {
    SumTo(s, |s|, signed)
  }

  /** The checksum of an area: of as many bytes as the 32-bit size field says. */
  function AreaSum(area: string, signed: bool): nat {
    SumTo(area, |area| % U32, signed)
  }

  /** The number of bytes from 128 up among the first `n`. */
  function HighBytes(s: string, n: nat): nat
    requires n <= |s|
  {
    if n == 0 then 0 else HighBytes(s, n - 1) + if 128 <= s[n - 1] as int < 256 then 1 else 0
  }

  lemma ModStep(a: int, b: int, k: int, c: int)
    requires a % U32 == (b - 256 * k) % U32
    ensures (a + c) % U32 == (b + c - 256 * k) % U32
    ensures (a + (c - 256)) % U32 == (b + c - 256 * (k + 1)) % U32
  {
    var m := (b - 256 * k) / U32 - a / U32;
    assert a == (b - 256 * k) - U32 * m;
    ShiftByWords(b + c - 256 * k, m);
    ShiftByWords(b + c - 256 * (k + 1), m);
  }

  /** Every byte from 128 up counts 256 too little where `char` is signed. */
  lemma {:induction false} SignedSum(s: string, n: nat)
    requires n <= |s|
    ensures SumTo(s, n, true) == (SumTo(s, n, false) - 256 * HighBytes(s, n)) % U32
  {
    if n > 0 {
      SignedSum(s, n - 1);
      SignedStep(SumTo(s, n - 1, true), SumTo(s, n - 1, false), HighBytes(s, n - 1), s[n - 1] as int);
    }
  }

  lemma SignedStep(a: int, b: int, k: int, c: int)
    requires a % U32 == (b - 256 * k) % U32
    ensures (a + c) % U32 == ((b + c) % U32 - 256 * k) % U32
    ensures (a + (c - 256)) % U32 == ((b + c) % U32 - 256 * (k + 1)) % U32
  {
    ModStep(a, b, k, c);
    ModMinus(b + c, 256 * k);
    ModMinus(b + c, 256 * (k + 1));
  }

  lemma ModMinus(a: int, b: int)
    ensures (a % U32 - b) % U32 == (a - b) % U32
  {
    ShiftByWords(a - b, a / U32);
  }

  /** So the checksum is the sum of the bytes exactly when `char` is unsigned or
      the number of such bytes is a multiple of 2^24. */
  lemma {:induction false} ChecksumIsByteSumExactly(s: string, signed: bool)
    ensures Sum(s, signed) == Sum(s, false) <==> !signed || HighBytes(s, |s|) % 0x100_0000 == 0
  {
    if signed {
      SignedSum(s, |s|);
      MultipleOfWord(Sum(s, false), HighBytes(s, |s|));
    }
  }

  lemma MultipleOfWord(n: nat, k: nat)
    requires n < U32
    ensures (n - 256 * k) % U32 == n <==> k % 0x100_0000 == 0
  {
    var q, r := k / 0x100_0000, k % 0x100_0000;
    assert 256 * k == U32 * q + 256 * r;
    ShiftByWords(n - 256 * r, q);
  }

  lemma ShiftByWords(m: int, q: int)
    ensures (m - U32 * q) % U32 == m % U32
  {
    var d := m / U32;
    assert m - U32 * q == U32 * (d - q) + m % U32;
  }

  // ---- the trailer

  function TrailerOf(size: nat, sum: nat): (s: string)
    ensures |s| == TRAILER
  {
    Le32(size) + Le32(sum) + MAGIC
  }

  datatype Area = Area(start: nat, size: nat, limit: nat)

  /** The size a trailer at `t` claims. */
  function ClaimedSize(d: string, t: nat): nat
    requires t + TRAILER <= |d|
  {
    Word(d[t..t + 4])
  }

  predicate HasMagic(d: string, t: nat)
    requires t + TRAILER <= |d|
  {
    d[t + 8..t + TRAILER] == MAGIC
  }

  /** What reinit finds from a trailer at `t`. */
  function Found(d: string, t: nat): Option<Area>
    requires t + TRAILER <= |d| && (HasMagic(d, t) ==> ClaimedSize(d, t) <= t)
  {
    if !HasMagic(d, t) then None else
    var limit := ClaimedSize(d, t);
    var size := FirstNul(d[t - limit..t]);
    if size == limit then None else Some(Area(t - limit, size, limit))
  }

  /** A closed area: text, zeros, trailer. */
  ghost predicate Closed(d: string, start: nat, text: string, room: nat, signed: bool) {
    && start + |text| + room + TRAILER <= |d| && room > 0
    && d[start..start + |text| + room] == text + Zeros(room)
    && d[start + |text| + room..start + |text| + room + TRAILER] ==
       TrailerOf((|text| + room) % U32, AreaSum(text + Zeros(room), signed))
  }

  lemma TrailerParts(d: string, t: nat, size: nat, sum: nat)
    requires t + TRAILER <= |d| && d[t..t + TRAILER] == TrailerOf(size, sum)
    ensures d[t..t + 4] == Le32(size) && d[t + 4..t + 8] == Le32(sum) && HasMagic(d, t)
  {
    var m := d[t..t + TRAILER];
    assert m[..4] == Le32(size) && m[4..8] == Le32(sum) && m[8..] == MAGIC;
    assert forall i {:trigger m[i]} :: 0 <= i < TRAILER ==> m[i] == d[t + i];
    assert d[t..t + 4] == m[..4];
    assert d[t + 4..t + 8] == m[4..8];
    assert d[t + 8..t + TRAILER] == m[8..];
  }

  lemma FirstNulOfText(text: string, room: nat)
    requires room > 0
    ensures FirstNul(text + Zeros(room)) == FirstNul(text)
  {
    var s := text + Zeros(room);
    var k := FirstNul(text);
    FirstNulIs(s, k);
  }

  lemma {:induction false} FirstNulIs(s: string, k: nat)
    requires k < |s| && s[k] == NUL && NulFree(s[..k])
    ensures FirstNul(s) == k
  {
    assert forall i :: 0 <= i < k ==> s[i] == s[..k][i];
  }

  /** Closing and finding again: start and room come back, and the size exactly
      when the text has no NUL in it. */
  lemma {:induction false} FoundAgain(d: string, start: nat, text: string, room: nat, signed: bool)
    requires Closed(d, start, text, room, signed) && |text| + room < U32
    ensures var t := start + |text| + room;
            && HasMagic(d, t) && ClaimedSize(d, t) == |text| + room
            && Found(d, t) == Some(Area(start, FirstNul(text), |text| + room))
    ensures FirstNul(text) == |text| <==> NulFree(text)
  {
    var t, n := start + |text| + room, |text| + room;
    assert n % U32 == n;
    TrailerParts(d, t, n, AreaSum(text + Zeros(room), signed));
    WordOfLe32(n);
    FirstNulOfText(text, room);
    assert d[t - n..t] == text + Zeros(room);
  }

  /** Something is found exactly behind the magic and with a NUL in the area; the text is
      then what lies before the first one. */
  lemma {:induction false} FoundExactly(d: string, t: nat)
    requires t + TRAILER <= |d| && (HasMagic(d, t) ==> ClaimedSize(d, t) <= t)
    ensures Found(d, t).Some? <==>
            d[t + 8..t + 20] == "#BOOTCONFIG\n" && exists i :: t - ClaimedSize(d, t) <= i < t && d[i] == NUL
    ensures Found(d, t).Some? ==>
              var a := Found(d, t).value;
              && a.limit == ClaimedSize(d, t) && a.start == t - a.limit && a.start + a.size < t
              && NulFree(d[a.start..a.start + a.size]) && d[a.start + a.size] == NUL
  {
    if HasMagic(d, t) {
      var from := t - ClaimedSize(d, t);
      var m := d[from..t];
      var k := FirstNul(m);
      assert forall i :: 0 <= i < |m| ==> m[i] == d[from + i];
      assert m[..k] == d[from..from + k];
      if i :| from <= i < t && d[i] == NUL {
        assert m[i - from] == NUL;
      }
    }
  }

  // ---- entries

  predicate Forbidden(c: char) {
    c == '\'' || c == '"' || c == '\\'
  }

  predicate CleanValue(s: string) {
    forall i :: 0 <= i < |s| ==> !Forbidden(s[i])
  }

  /** Both kinds of quotes and the backslash. */
  lemma CleanExactly(s: string)
    ensures CleanValue(s) <==> forall i :: 0 <= i < |s| ==> s[i] !in "'\"\\"
  {
  }

  function Entry(key: string, op: string, value: string): string {
    key + op + ['"'] + value + ['"', DELIMITER]
  }

  // ---- the command line turned into lines

  function SkipSpaces(s: string): (r: string)
    ensures |r| <= |s|
  {
    if s != "" && IsSpace(s[0]) then SkipSpaces(s[1..]) else s
  }

  function Quoted(s: string, q: bool): bool {
    if s == "" then q else Quoted(s[1..], q != (s[0] == '"'))
  }

  function Converted(s: string, q: bool): (r: string)
    ensures r != ""
    decreases |s|
  {
    if s == "" then [DELIMITER]
    else if !q && IsSpace(s[0]) then [DELIMITER] + Converted(SkipSpaces(s[1..]), q)
    else [s[0]] + Converted(s[1..], q != (s[0] == '"'))
  }

  lemma {:induction false} SkipSpacesKeeps(s: string, q: bool)
    ensures Quoted(SkipSpaces(s), q) == Quoted(s, q)
  {
    if s != "" && IsSpace(s[0]) {
      SkipSpacesKeeps(s[1..], q);
    }
  }

  /** A field that has been collected, unless it is empty. */
  function Field(field: string): seq<string> {
    if field == "" then [] else [field]
  }

  /** The fields of a text: its maximal non-empty runs without a separator outside
      quotes. `field` is what has been collected of the current one. */
  function Fields(separates: char -> bool, s: string, q: bool, field: string): seq<string>
    decreases |s|
  {
    if s == "" then Field(field)
    else if !q && separates(s[0]) then Field(field) + Fields(separates, s[1..], q, "")
    else Fields(separates, s[1..], q != (s[0] == '"'), field + [s[0]])
  }

  const AtSpace: char -> bool := c => IsSpace(c)
  const AtLineEnd: char -> bool := c => c == DELIMITER

  lemma {:induction false} FieldsCons(separates: char -> bool, c: char, r: string, q: bool, field: string)
    ensures Fields(separates, [c] + r, q, field) ==
            if !q && separates(c) then Field(field) + Fields(separates, r, q, "")
            else Fields(separates, r, q != (c == '"'), field + [c])
  {
    assert ([c] + r)[1..] == r;
  }

  lemma {:induction false} FieldsSkipSpaces(s: string)
    ensures Fields(AtSpace, SkipSpaces(s), false, "") == Fields(AtSpace, s, false, "")
  {
    if s != "" && IsSpace(s[0]) {
      FieldsSkipSpaces(s[1..]);
      assert Field("") + Fields(AtSpace, s[1..], false, "") == Fields(AtSpace, s[1..], false, "");
    }
  }

  lemma SameBehind<T>(a: seq<T>, b: seq<T>, c: seq<T>)
    ensures a + b == a + c <==> b == c
  {
    if a + b == a + c {
      assert b == (a + b)[|a|..] && c == (a + c)[|a|..];
    }
  }

  /** At the end of the text the conversion adds a line end, which ends the last
      field exactly when no quote is open. */
  lemma {:induction false} LastField(q: bool, field: string)
    ensures Fields(AtLineEnd, [DELIMITER], q, field) == Fields(AtSpace, "", q, field) <==> !q
  {
    FieldsCons(AtLineEnd, DELIMITER, "", q, field);
    assert [DELIMITER] + "" == [DELIMITER];
    assert Field(field) + [] == Field(field);
    if q {
      assert Fields(AtLineEnd, [DELIMITER], q, field) == [field + [DELIMITER]];
      assert |field + [DELIMITER]| == |field| + 1;
    }
  }

  lemma {:induction false} ConvertedFieldsFrom(s: string, q: bool, field: string)
    ensures Fields(AtLineEnd, Converted(s, q), q, field) == Fields(AtSpace, s, q, field) <==> !Quoted(s, q)
    decreases |s|
  {
    if s == "" {
      LastField(q, field);
    } else if !q && IsSpace(s[0]) {
      var rest := SkipSpaces(s[1..]);
      SkipSpacesKeeps(s[1..], q);
      ConvertedFieldsFrom(rest, q, "");
      FieldsCons(AtLineEnd, DELIMITER, Converted(rest, q), q, field);
      FieldsSkipSpaces(s[1..]);
      SameBehind(Field(field), Fields(AtLineEnd, Converted(rest, q), q, ""), Fields(AtSpace, s[1..], q, ""));
    } else {
      var q' := q != (s[0] == '"');
      ConvertedFieldsFrom(s[1..], q', field + [s[0]]);
      FieldsCons(AtLineEnd, s[0], Converted(s[1..], q'), q, field);
    }
  }

  /** Conversion keeps the fields: the lines of the converted command line are, in
      order, what white space separated in it, exactly when its quotes are
      closed (the text is refused otherwise). */
  lemma {:induction false} ConvertedKeepsFields(s: string)
    ensures Fields(AtLineEnd, Converted(s, false), false, "") == Fields(AtSpace, s, false, "") <==> !Quoted(s, false)
  {
    ConvertedFieldsFrom(s, false, "");
  }

  /** A run of white space outside quotes becomes one line end, however long it is. */
  lemma {:induction false} RunIsOneLineEnd(run: string, rest: string)
    requires run != "" && (forall i :: 0 <= i < |run| ==> IsSpace(run[i])) && (rest == "" || !IsSpace(rest[0]))
    ensures Converted(run + rest, false) == "\n" + Converted(rest, false)
  {
    assert (run + rest)[1..] == run[1..] + rest;
    SkipRun(run[1..], rest);
    assert [DELIMITER] == "\n";
  }

  lemma {:induction false} SkipRun(run: string, rest: string)
    requires (forall i :: 0 <= i < |run| ==> IsSpace(run[i])) && (rest == "" || !IsSpace(rest[0]))
    ensures SkipSpaces(run + rest) == rest
    decreases |run|
  {
    if run == "" {
      assert run + rest == rest;
    } else {
      assert (run + rest)[1..] == run[1..] + rest;
      SkipRun(run[1..], rest);
    }
  }

  /** The converted text ends its last line and is at most that line end longer. */
  lemma {:induction false} ConvertedEndsLine(s: string, q: bool)
    ensures var r := Converted(s, q); |r| <= |s| + 1 && r[|r| - 1] == DELIMITER
    decreases |s|
  {
    if s != "" {
      if !q && IsSpace(s[0]) {
        ConvertedEndsLine(SkipSpaces(s[1..]), q);
      } else {
        ConvertedEndsLine(s[1..], q != (s[0] == '"'));
      }
    }
  }
}
