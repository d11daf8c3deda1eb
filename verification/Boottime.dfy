/** The boot time entry: space is left for it when the bootconfig area is closed
    (src/vboot/boot_info.c) and it is stamped in just before the kernel starts
    (src/boot/android_bootconfig_params.c). */
module Boottime {
  import opened Basics
  import opened Bootconfig
  import opened BootconfigBuffer

  const KEY: string := "androidboot.boottime"
  const FIRMWARE: string := "firmware:"
  const SPLASH: string := ",splash:"
  const DIGITS: nat := 20
  /** The longest value, with two 64-bit numbers of 20 digits. */
  const MAX_VALUE_LENGTH: nat := |FIRMWARE| + DIGITS + |SPLASH| + DIGITS
  /** sizeof of the longest "key=value" string with its NUL, and sizeof of the
      delimiter, which as a character constant has the size of an int. */
  const RESERVED: nat := |KEY| + 1 + MAX_VALUE_LENGTH + 1 + 4

  // ---- decimal numbers

  function Digit(n: nat): char
    requires n < 10
  {
    n as char + '0'
  }

  function Decimal(n: nat): string {
    if n < 10 then [Digit(n)] else Decimal(n / 10) + [Digit(n % 10)]
  }

  function Pow10(k: nat): nat {
    if k == 0 then 1 else 10 * Pow10(k - 1)
  }

  lemma {:induction false} DecimalIsShort(n: nat, k: nat)
    requires n < Pow10(k) && k > 0
    ensures |Decimal(n)| <= k
    decreases k
  {
    if n >= 10 {
      assert n / 10 < Pow10(k - 1);
      DecimalIsShort(n / 10, k - 1);
    }
  }

  lemma {:induction false} DecimalIsClean(n: nat)
    ensures CleanValue(Decimal(n)) && NulFree(Decimal(n))
  {
    if n >= 10 {
      DecimalIsClean(n / 10);
    }
  }

  function Parse(s: string): nat {
    if s == "" then 0 else
    10 * Parse(s[..|s| - 1]) + if '0' <= s[|s| - 1] <= '9' then (s[|s| - 1] - '0') as nat else 0
  }

  /** The printed number can be read back. */
  lemma {:induction false} ParseDecimal(n: nat)
    ensures Parse(Decimal(n)) == n
  {
    if n < 10 {
      assert [Digit(n)][..0] == "";
    } else {
      ParseDecimal(n / 10);
      var s := Decimal(n);
      assert s[..|s| - 1] == Decimal(n / 10);
    }
  }

  lemma Pow10Of20()
    ensures U64 < Pow10(DIGITS)
  {
    assert Pow10(5) == 100_000;
    Pow10Add(5, 5);
    Pow10Add(10, 10);
  }

  lemma {:induction false} Pow10Add(a: nat, b: nat)
    ensures Pow10(a + b) == Pow10(a) * Pow10(b)
    decreases a
  {
    if a > 0 {
      Pow10Add(a - 1, b);
      assert 10 * (Pow10(a - 1) * Pow10(b)) == (10 * Pow10(a - 1)) * Pow10(b);
    }
  }

  // ---- the entry

  function Value(boot: nat, splash: nat): string {
    FIRMWARE + Decimal(boot) + SPLASH + Decimal(splash)
  }

  function Stamp(boot: nat, splash: nat): string {
    Entry(KEY, "=", Value(boot, splash))
  }

  predicate AllDigits(s: string) {
    s != "" && forall i :: 0 <= i < |s| ==> '0' <= s[i] <= '9'
  }

  lemma {:induction false} DecimalIsDigits(n: nat)
    ensures AllDigits(Decimal(n)) && (Decimal(n)[0] == '0' ==> Decimal(n) == "0")
  {
    if n >= 10 {
      DecimalIsDigits(n / 10);
    }
  }

  /** The entry, character by character: both times are read back from behind their
      names, in decimal without leading zeros. */
  lemma {:induction false} StampReadsBack(boot: nat, splash: nat) returns (a: string, b: string)
    ensures Stamp(boot, splash) == "androidboot.boottime=\"firmware:" + a + ",splash:" + b + "\"\n"
    ensures AllDigits(a) && AllDigits(b) && (a[0] == '0' ==> a == "0") && (b[0] == '0' ==> b == "0")
    ensures Parse(a) == boot && Parse(b) == splash
  {
    a, b := Decimal(boot), Decimal(splash);
    DecimalIsDigits(boot);
    DecimalIsDigits(splash);
    ParseDecimal(boot);
    ParseDecimal(splash);
    StampText(a, b);
  }

  lemma StampText(a: string, b: string)
    ensures Entry(KEY, "=", FIRMWARE + a + SPLASH + b) ==
            "androidboot.boottime=\"firmware:" + a + ",splash:" + b + "\"\n"
  {
    var head := KEY + "=" + ['"'] + FIRMWARE;
    assert head == "androidboot.boottime=\"firmware:";
    assert Entry(KEY, "=", FIRMWARE + a + SPLASH + b) == head + a + SPLASH + b + ['"', DELIMITER];
    assert ['"', DELIMITER] == "\"\n";
  }

  lemma CleanConcat(a: string, b: string)
    requires CleanValue(a) && CleanValue(b)
    ensures CleanValue(a + b)
  {
  }

  lemma NulFreeConcat(a: string, b: string)
    requires NulFree(a) && NulFree(b)
    ensures NulFree(a + b)
  {
  }

  /** Every pair of 64-bit times gives a value without quotes that is no longer
      than the longest one allowed for. */
  lemma {:induction false} ValueFits(boot: nat, splash: nat)
    requires boot < U64 && splash < U64
    ensures |Value(boot, splash)| <= MAX_VALUE_LENGTH && CleanValue(Value(boot, splash)) && NulFree(Value(boot, splash))
  {
    Pow10Of20();
    DecimalIsShort(boot, DIGITS);
    DecimalIsShort(splash, DIGITS);
    DecimalIsClean(boot);
    DecimalIsClean(splash);
    CleanConcat(FIRMWARE, Decimal(boot));
    CleanConcat(FIRMWARE + Decimal(boot), SPLASH);
    CleanConcat(FIRMWARE + Decimal(boot) + SPLASH, Decimal(splash));
    NulFreeConcat(FIRMWARE, Decimal(boot));
    NulFreeConcat(FIRMWARE + Decimal(boot), SPLASH);
    NulFreeConcat(FIRMWARE + Decimal(boot) + SPLASH, Decimal(splash));
  }

  lemma StampLength(boot: nat, splash: nat)
    ensures |Stamp(boot, splash)| == |KEY| + |Value(boot, splash)| + 4
  {
  }

  /** The reserved space is enough for every pair of times, with two bytes to
      spare; it would not be if the delimiter were counted as one character. */
  lemma {:induction false} ReserveIsEnough(boot: nat, splash: nat)
    requires boot < U64 && splash < U64
    ensures |Stamp(boot, splash)| + 2 <= RESERVED
  {
    ValueFits(boot, splash);
    StampLength(boot, splash);
  }

  // ---- stamping a closed area

  /** Memory after a stamp: the entry and a NUL in the reserved space, and the new
      checksum in the trailer. */
  lemma {:induction false} StampedIsClosed(
    d: string, d1: string, d2: string, start: nat, text: string, room: nat, e: string, signed: bool, n: nat, t: nat)
    requires Closed(d, start, text, room, signed) && n == |text| + room < U32 && |e| < room && t == start + n
    requires d1 == Over(d, start + |text|, e + [NUL])
    requires d2 == Over(d1, t + 4, Le32(Sum(d1[start..start + n], signed)))
    ensures Closed(d2, start, text + e, room - |e|, signed)
    ensures OnlyChanged(d, d2, start + |text|, t + 8)
  {
    var all := text + e + Zeros(room - |e|);
    assert t == start + |text| + room;
    StampedText(d, d1, start, text, room, e);
    assert d1[start..start + n] == all;
    var w := Le32(Sum(all, signed));
    StampedTrailer(d, d1, d2, start, t, n % U32, AreaSum(text + Zeros(room), signed), Sum(all, signed));
    ClosedWhen(d2, start, text + e, room - |e|, signed, n, t);
    FramesChain(d, d1, d2, start + |text|, t, w);
  }

  lemma {:induction false} ClosedWhen(d: string, start: nat, text: string, room: nat, signed: bool, n: nat, t: nat)
    requires room > 0 && n == |text| + room < U32 && t == start + n && t + TRAILER <= |d|
    requires d[start..t] == text + Zeros(room)
    requires d[t..t + TRAILER] == TrailerOf(n % U32, Sum(text + Zeros(room), signed))
    ensures Closed(d, start, text, room, signed)
  {
    assert |text + Zeros(room)| % U32 == |text + Zeros(room)|;
  }

  lemma {:induction false} StampedTrailer(
    d: string, d1: string, d2: string, start: nat, t: nat, size: nat, sum: nat, newSum: nat)
    requires start <= t && t + TRAILER <= |d| == |d1| && d[t..t + TRAILER] == TrailerOf(size, sum) && d1[t..] == d[t..]
    requires d2 == Over(d1, t + 4, Le32(newSum))
    ensures d2[t..t + TRAILER] == TrailerOf(size, newSum) && d2[start..t] == d1[start..t]
  {
    TrailerParts(d, t, size, sum);
    SameBehind(d, d1, t, 0, 4);
    SameBehind(d, d1, t, 8, TRAILER);
    ChecksumReplaced(d1, d2, t, size, newSum);
  }

  lemma FramesChain(d: string, d1: string, d2: string, lo: nat, t: nat, w: string)
    requires lo <= t && t + 8 <= |d| == |d1| && d1[..lo] == d[..lo] && d1[t..] == d[t..]
    requires |w| == 4 && d2 == Over(d1, t + 4, w)
    ensures OnlyChanged(d, d2, lo, t + 8)
  {
    assert d2[..lo] == d1[..lo];
    assert d2[t + 8..] == d1[t + 8..] == d1[t..][8..];
    assert d[t + 8..] == d[t..][8..];
    forall i {:trigger d2[i]} | 0 <= i < |d| && !(lo <= i < t + 8)
      ensures d2[i] == d[i]
    {
      if i < lo {
        assert d2[..lo][i] == d[..lo][i];
      } else {
        assert d2[t + 8..][i - (t + 8)] == d[t + 8..][i - (t + 8)];
      }
    }
  }

  lemma SameBehind(d: string, d1: string, t: nat, a: nat, b: nat)
    requires |d| == |d1| && t + b <= |d| && a <= b && d1[t..] == d[t..]
    ensures d1[t + a..t + b] == d[t + a..t + b]
  {
    forall i | t + a <= i < t + b
      ensures d1[i] == d[i]
    {
      assert d1[t..][i - t] == d[t..][i - t];
    }
  }

  lemma StampedText(d: string, d1: string, start: nat, text: string, room: nat, e: string)
    requires start + |text| + room + TRAILER <= |d| && d[start..start + |text| + room] == text + Zeros(room)
    requires |e| < room && d1 == Over(d, start + |text|, e + [NUL])
    ensures d1[start..start + |text| + room] == text + e + Zeros(room - |e|)
    ensures d1[start + |text| + room..] == d[start + |text| + room..] && d1[..start + |text|] == d[..start + |text|]
  {
    var m := d[start..start + |text| + room];
    assert forall i {:trigger m[i]} :: 0 <= i < |m| ==> m[i] == d[start + i];
    assert d[start..start + |text|] == m[..|text|] == text;
    assert d[start + |text| + |e| + 1..start + |text| + room] == m[|text| + |e| + 1..] == Zeros(room - |e| - 1);
    assert [NUL] + Zeros(room - |e| - 1) == Zeros(room - |e|);
  }

  lemma ChecksumReplaced(d1: string, d2: string, t: nat, size: nat, sum: nat)
    requires t + TRAILER <= |d1| && d1[t..t + 4] == Le32(size) && HasMagic(d1, t)
    requires d2 == Over(d1, t + 4, Le32(sum))
    ensures d2[t..t + TRAILER] == TrailerOf(size, sum)
    ensures OnlyChanged(d1, d2, t + 4, t + 8)
  {
    assert d2[t..t + 4] == d1[t..t + 4];
    assert d2[t + 8..t + TRAILER] == d1[t + 8..t + TRAILER];
    assert d2[t..t + TRAILER] == d2[t..t + 4] + d2[t + 4..t + 8] + d2[t + 8..t + TRAILER];
  }

  /** bootconfig_append where there is room. */
  method AppendFitting(bc: Buffer, key: string, value: string, ghost d1: string) returns (ok: bool)
    requires bc.Valid() && CleanValue(value) && |Entry(key, "=", value)| < bc.limit - bc.size
    requires d1 == Over(bc.Memory(), bc.start + bc.size, Entry(key, "=", value) + [NUL])
    modifies bc`size, bc.mem
    ensures ok && bc.Memory() == d1
  {
    ok := bc.AppendParam(key, value, "=");
  }

  /** Append an entry that fits behind the text and renew the checksum. */
  method AppendAndRenew(bc: Buffer, trailer: nat, key: string, value: string, signed: bool,
                        ghost text: string, ghost room: nat)
    returns (ok: bool)
    requires CleanValue(value) && |Entry(key, "=", value)| < room && |text| + room < U32
    requires bc.start + |text| + room + TRAILER <= bc.mem.Length
    requires Closed(bc.Memory(), bc.start, text, room, signed)
    requires bc.Valid() && bc.size == |text| && bc.limit == |text| + room && trailer == bc.start + |text| + room
    modifies bc`size, bc.mem
    ensures ok
    ensures var e := Entry(key, "=", value); Closed(bc.Memory(), bc.start, text + e, room - |e|, signed)
    ensures OnlyChanged(old(bc.Memory()), bc.Memory(), bc.start + |text|, trailer + 8)
  {
    ghost var d1, d2 := Renewed(bc.Memory(), bc.start, text, room, Entry(key, "=", value), signed, trailer);
    ok := AppendAndSign(bc, trailer, key, value, signed, |text| + room, d1, d2);
  }

  method AppendAndSign(bc: Buffer, trailer: nat, key: string, value: string, signed: bool,
                       ghost n: nat, ghost d1: string, ghost d2: string)
    returns (ok: bool)
    requires bc.Valid() && CleanValue(value) && |Entry(key, "=", value)| < bc.limit - bc.size
    requires d1 == Over(bc.Memory(), bc.start + bc.size, Entry(key, "=", value) + [NUL])
    requires trailer + TRAILER <= |d1| && bc.start + n <= trailer && ClaimedSize(d1, trailer) == n
    requires d2 == Over(d1, trailer + 4, Le32(Sum(d1[bc.start..bc.start + n], signed)))
    modifies bc`size, bc.mem
    ensures ok && bc.Memory() == d2
  {
    ok := AppendFitting(bc, key, value, d1);
    if !ok {
      return;
    }
    Renew(bc, trailer, signed, n, d1, d2);
  }

  /** Memory after `e` was written behind the text, and after the checksum was
      renewed. */
  lemma {:induction false} Renewed(d: string, start: nat, text: string, room: nat, e: string, signed: bool, t: nat)
    returns (d1: string, d2: string)
    requires Closed(d, start, text, room, signed) && |text| + room < U32 && |e| < room && t == start + |text| + room
    ensures d1 == Over(d, start + |text|, e + [NUL]) && ClaimedSize(d1, t) == |text| + room
    ensures d2 == Over(d1, t + 4, Le32(Sum(d1[start..start + (|text| + room)], signed)))
    ensures Closed(d2, start, text + e, room - |e|, signed) && OnlyChanged(d, d2, start + |text|, t + 8)
  {
    d1 := Over(d, start + |text|, e + [NUL]);
    ClaimedStays(d, d1, start, text, room, e, signed, t);
    d2 := Over(d1, t + 4, Le32(Sum(d1[start..start + (|text| + room)], signed)));
    StampedIsClosed(d, d1, d2, start, text, room, e, signed, |text| + room, t);
  }

  /** Renew the checksum, which turns `d1` into `d2`. */
  method Renew(bc: Buffer, trailer: nat, signed: bool, ghost n: nat, ghost d1: string, ghost d2: string)
    requires bc.Memory() == d1 && trailer + TRAILER <= |d1| && bc.start + n <= trailer && ClaimedSize(d1, trailer) == n
    requires d2 == Over(d1, trailer + 4, Le32(Sum(d1[bc.start..bc.start + n], signed)))
    modifies bc.mem
    ensures bc.Memory() == d2
  {
    bc.RecalculateChecksum(trailer, signed, n);
  }

  lemma {:induction false} ClaimedStays(
    d: string, d1: string, start: nat, text: string, room: nat, e: string, signed: bool, t: nat)
    requires Closed(d, start, text, room, signed) && |text| + room < U32 && |e| < room
    requires d1 == Over(d, start + |text|, e + [NUL]) && t == start + |text| + room
    ensures t + TRAILER <= |d1| && ClaimedSize(d1, t) == |text| + room
  {
    FoundAgain(d, start, text, room, signed);
    StampedText(d, d1, start, text, room, e);
    SameBehind(d, d1, t, 0, 4);
  }

  lemma {:induction false} StampFits(boot: nat, splash: nat)
    requires boot < U64 && splash < U64
    ensures CleanValue(Value(boot, splash)) && |Entry(KEY, "=", Value(boot, splash))| < RESERVED + 1
  {
    ValueFits(boot, splash);
    ReserveIsEnough(boot, splash);
  }

  /** Find a closed area again from its trailer. */
  method Reopen(mem: array<char>, trailer: nat, ghost start: nat, ghost text: string, ghost room: nat, ghost signed: bool)
    returns (bc: Buffer)
    requires Closed(mem[..], start, text, room, signed) && NulFree(text) && |text| + room < U32
    requires trailer == start + |text| + room
    ensures fresh(bc) && bc.mem == mem && bc.Valid()
    ensures bc.start == start && bc.size == |text| && bc.limit == |text| + room
  {
    FoundAgain(mem[..], start, text, room, signed);
    bc := new Buffer.Reinit(mem, trailer);
  }

  /** Find the area again and append an entry that fits. */
  method ReopenAndAppend(mem: array<char>, trailer: nat, key: string, value: string, signed: bool,
                         ghost start: nat, ghost text: string, ghost room: nat)
    returns (ok: bool)
    requires Closed(mem[..], start, text, room, signed) && NulFree(text) && |text| + room < U32
    requires trailer == start + |text| + room && CleanValue(value) && |Entry(key, "=", value)| < room
    modifies mem
    ensures ok
    ensures var e := Entry(key, "=", value); Closed(mem[..], start, text + e, room - |e|, signed)
    ensures OnlyChanged(old(mem[..]), mem[..], start + |text|, trailer + 8)
  {
    var bc := Reopen(mem, trailer, start, text, room, signed);
    ok := AppendAndRenew(bc, trailer, key, value, signed, text, room);
  }

  /** append_android_bootconfig_boottime, on a ramdisk whose end is the trailer of a
      closed area with the reserved room: it succeeds, and the area is closed
      again with the entry at the end of its text. */
  method AppendBoottime(mem: array<char>, ramdiskAddr: nat, ramdiskSize: nat, bootUs: nat, splashUs: nat, signed: bool,
                        ghost start: nat, ghost text: string)
    returns (ok: bool)
    requires bootUs < U64 && splashUs < U64 && NulFree(text) && |text| + (RESERVED + 1) < U32
    requires Closed(mem[..], start, text, RESERVED + 1, signed)
    requires ramdiskSize == 0 || ramdiskAddr + ramdiskSize == start + |text| + (RESERVED + 1) + TRAILER
    modifies mem
    ensures ok == (ramdiskSize > 0)
    ensures !ok ==> mem[..] == old(mem[..])
    ensures ok ==>
              var e := Stamp(bootUs / 1000, splashUs / 1000);
              |e| < RESERVED + 1 && Closed(mem[..], start, text + e, RESERVED + 1 - |e|, signed)
    ensures ok ==> OnlyChanged(old(mem[..]), mem[..], start + |text|, ramdiskAddr + ramdiskSize - TRAILER + 8)
  {
    if ramdiskSize == 0 {
      return false;
    }
    var trailer := ramdiskAddr + ramdiskSize - TRAILER;
    StampFits(bootUs / 1000, splashUs / 1000);
    ok := ReopenAndAppend(mem, trailer, KEY, Value(bootUs / 1000, splashUs / 1000), signed, start, text, RESERVED + 1);
  }

  // ---- closing the area at boot

  /** The end of gki_setup_bootconfig: close the area behind the ramdisk and let the
      ramdisk grow over it. */
  method CloseForBoot(bc: Buffer, ramdiskAddr: nat, ramdiskSize: nat, reserved: nat, signed: bool)
    returns (newSize: Option<nat>)
    requires bc.Valid() && ramdiskAddr + ramdiskSize == bc.start
    modifies bc.mem
    ensures newSize.Some? <==> bc.size + (reserved + 1) <= bc.limit
    ensures newSize.Some? ==> Closed(bc.Memory(), bc.start, old(bc.Text()), reserved + 1, signed)
    ensures newSize.Some? ==>
              OnlyChanged(old(bc.Memory()), bc.Memory(), bc.start + bc.size, bc.start + bc.size + (reserved + 1) + TRAILER)
    ensures newSize.Some? && bc.size + (reserved + 1) < U32 ==>
              ramdiskAddr + newSize.value == bc.start + bc.size + (reserved + 1) + TRAILER
  {
    ghost var text := bc.Text();
    var trailer := bc.Finalize(reserved, signed);
    if trailer.None? {
      return None;
    }
    var paramsSize := ReadWord(bc.mem, trailer.value);
    ClaimedWhenClosed(bc.Memory(), bc.start, text, reserved + 1, signed, trailer.value);
    return Some(ramdiskSize + paramsSize + TRAILER);
  }

  lemma {:induction false} ClaimedWhenClosed(d: string, start: nat, text: string, room: nat, signed: bool, t: nat)
    requires Closed(d, start, text, room, signed) && t == start + |text| + room
    ensures |text| + room < U32 ==> ClaimedSize(d, t) == |text| + room
  {
    if |text| + room < U32 {
      FoundAgain(d, start, text, room, signed);
    }
  }

  method ReadWord(mem: array<char>, at: nat) returns (n: nat)
    requires at + TRAILER <= mem.Length
    ensures n == ClaimedSize(mem[..], at)
  {
    n := Word(mem[at..at + 4]);
    assert mem[at..at + 4] == mem[..][at..at + 4];
  }

  /** Closing at boot and stamping later, for every text and every pair of times. */
  method BootAndStamp(bc: Buffer, ramdiskAddr: nat, ramdiskSize: nat, bootUs: nat, splashUs: nat, signed: bool)
    returns (ok: bool)
    requires bc.Valid() && NulFree(bc.Text()) && ramdiskAddr + ramdiskSize == bc.start
    requires bootUs < U64 && splashUs < U64 && bc.size + (RESERVED + 1) < U32
    modifies bc.mem
    ensures ok <==> bc.size + (RESERVED + 1) <= bc.limit
    ensures ok ==>
              var e := Stamp(bootUs / 1000, splashUs / 1000);
              |e| < RESERVED + 1 && Closed(bc.Memory(), bc.start, old(bc.Text()) + e, RESERVED + 1 - |e|, signed)
    ensures ok ==> bc.Memory()[..bc.start + bc.size] == old(bc.Memory())[..bc.start + bc.size]
  {
    ghost var text := bc.Text();
    var newSize := CloseForBoot(bc, ramdiskAddr, ramdiskSize, RESERVED, signed);
    if newSize.None? {
      return false;
    }
    ok := AppendBoottime(bc.mem, ramdiskAddr, newSize.value, bootUs, splashUs, signed, bc.start, text);
  }
}
