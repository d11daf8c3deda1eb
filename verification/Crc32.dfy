/** CRC-32 (src/boot/crc32.c), as section 8 of RFC 1952 defines it: a table-driven,
    word-at-a-time computation against the shift register it stands for. Words are
    loaded little-endian. */
module Crc32 {
  import opened Iteration

  type byte = bv8

  const POLY: bv32 := 0xedb8_8320

  // ---- the reference: a shift register fed one bit at a time

  predicate Odd(x: bv32) {
    x & 1 == 1
  }

  function Half(x: bv32): bv32 {
    x >> 1
  }

  function Feed(c: bv32, bit: bool): bv32 {
    if Odd(c) != bit then Xor(POLY, Half(c)) else Half(c)
  }

  /** The bits of a byte, least significant first. */
  function FeedByte(c: bv32, b: byte): bv32 {
    Drain(Feed, Odd, Half, c, b as bv32, 8)
  }

  /** The register after a whole buffer. */
  function Crc(c: bv32, s: seq<byte>): bv32 {
    Fold(FeedByte, c, s)
  }

  function Invert(x: bv32): bv32 {
    x ^ 0xffff_ffff
  }

  /** With the ones' complement before and after. */
  function Checksum(c: bv32, s: seq<byte>): bv32 {
    Invert(Crc(Invert(c), s))
  }

  lemma InvertTwice(x: bv32)
    ensures Invert(Invert(x)) == x
  {
  }

  /** A buffer may be checksummed in pieces, each call continuing from the last
      result. */
  lemma {:induction false} Streaming(c: bv32, a: seq<byte>, b: seq<byte>)
    ensures Checksum(Checksum(c, a), b) == Checksum(c, a + b)
  {
    forall x {
      InvertTwice(x);
    }
    FoldStreams(FeedByte, Invert, c, a, b);
  }

  /** The known checksum of a single zero byte. */
  lemma {:induction false} ZeroByteChecksum()
    ensures Checksum(0, [0]) == 0xd202_ef8d
  {
    FeedByteIsEight(0xffff_ffff, 0);
    EightOfOnes();
    FoldLast(FeedByte, 0xffff_ffff, [], 0);
    assert [] + [0 as byte] == [0];
    assert Invert(0) == 0xffff_ffff && Invert(0x2dfd_1072) == 0xd202_ef8d;
  }

  lemma {:induction false} EightOfOnes()
    ensures Eight(Xor(0xffff_ffff, 0)) == 0x2dfd_1072
  {
    IterateEight(Step, 0xffff_ffff);
    assert Xor(0xffff_ffff, 0) == 0xffff_ffff;
  }

  // ---- the register without input

  function Step(c: bv32): bv32 {
    if Odd(c) then Xor(POLY, Half(c)) else Half(c)
  }

  function Eight(c: bv32): bv32 {
    Iterate(Step, c, 8)
  }

  function Xor(a: bv32, b: bv32): bv32 {
    a ^ b
  }

  lemma HalfXor(a: bv32, b: bv32)
    ensures Half(Xor(a, b)) == Xor(Half(a), Half(b))
  {
  }

  lemma OddXor(a: bv32, b: bv32)
    ensures Odd(Xor(a, b)) <==> Odd(a) != Odd(b)
  {
  }

  lemma XorAssoc(p: bv32, a: bv32, b: bv32)
    ensures Xor(Xor(p, a), b) == Xor(p, Xor(a, b))
  {
  }

  lemma XorZero(x: bv32)
    ensures Xor(x, 0) == x && Xor(0, x) == x
  {
  }

  /** A step of the sum of a register and a word takes the word's lowest bit in and
      shifts the others along. */
  lemma StepTakesBit(c: bv32, x: bv32)
    ensures Step(Xor(c, x)) == Xor(Feed(c, Odd(x)), Half(x))
  {
    HalfXor(c, x);
    OddXor(c, x);
    XorAssoc(POLY, Half(c), Half(x));
    TakesDigit(Xor, POLY, Half(c), Half(x), Half(Xor(c, x)), Odd(c), Odd(x), Odd(Xor(c, x)));
  }

  lemma HalfEight(x: bv32)
    ensures Half(Half(Half(Half(Half(Half(Half(Half(x)))))))) == x >> 8
  {
  }

  lemma ShiftByte(x: bv32)
    ensures Iterate(Half, x, 8) == x >> 8
  {
    IterateEight(Half, x);
    HalfEight(x);
  }

  lemma LowBitsFour(x: bv32, y: bv32)
    requires x & 15 == y & 15
    ensures Odd(x) == Odd(y) && Odd(Half(x)) == Odd(Half(y))
    ensures Odd(Half(Half(x))) == Odd(Half(Half(y)))
    ensures Odd(Half(Half(Half(x)))) == Odd(Half(Half(Half(y))))
  {
  }

  lemma NextFour(x: bv32, y: bv32)
    requires x & 255 == y & 255
    ensures x & 15 == y & 15
    ensures Half(Half(Half(Half(x)))) & 15 == Half(Half(Half(Half(y)))) & 15
  {
  }

  lemma {:induction false} LowByteAgrees(x: bv32, y: bv32)
    requires x & 255 == y & 255
    ensures Agree(Odd, Half, x, y, 8)
  {
    var x4, y4 := Half(Half(Half(Half(x)))), Half(Half(Half(Half(y))));
    NextFour(x, y);
    LowBitsFour(x, y);
    LowBitsFour(x4, y4);
    AgreeFour(Odd, Half, x4, y4, 0);
    AgreeFour(Odd, Half, x, y, 4);
  }

  lemma LowByte(x: bv32, b: byte)
    requires x & 255 == b as bv32
    ensures x & 255 == (b as bv32) & 255
  {
  }

  /** Eight steps of the sum of a register and a word feed the word's lowest byte;
      the rest of the word is left, shifted. */
  lemma {:induction false} EightTakesByte(c: bv32, x: bv32, b: byte)
    requires x & 255 == b as bv32
    ensures Eight(Xor(c, x)) == Xor(FeedByte(c, b), x >> 8)
  {
    forall a, b
      ensures Step(Xor(a, b)) == Xor(Feed(a, Odd(b)), Half(b))
    {
      StepTakesBit(a, b);
    }
    ShiftByte(x);
    LowByte(x, b);
    LowByteAgrees(x, b as bv32);
    DrainOf(Step, Xor, Feed, Odd, Half, c, x, b as bv32, x >> 8, 8);
  }

  lemma ByteFits(b: byte)
    ensures (b as bv32) & 255 == b as bv32 && (b as bv32) >> 8 == 0 && b as bv32 < 256
  {
  }

  lemma {:induction false} FeedByteIsEight(c: bv32, b: byte)
    ensures FeedByte(c, b) == Eight(Xor(c, b as bv32))
  {
    ByteFits(b);
    EightTakesByte(c, b as bv32, b);
    XorZero(FeedByte(c, b));
  }

  // ---- one look-up per byte

  lemma ToByte(x: bv32)
    ensures x & 255 == ((x & 255) as byte) as bv32
  {
  }

  lemma MaskOnce(x: bv32)
    ensures (x & 255) & 255 == x & 255 && (x & 255) >> 8 == 0 && x & 255 < 256
  {
  }

  /** Eight steps are a look-up by the low byte, added to the other bytes. */
  lemma {:induction false} EightByLookup(c: bv32)
    ensures Eight(c) == Xor(Eight(c & 255), c >> 8)
  {
    var b := (c & 255) as byte;
    ToByte(c);
    MaskOnce(c);
    EightTakesByte(0, c, b);
    EightTakesByte(0, c & 255, b);
    XorZero(c);
    XorZero(c & 255);
    XorZero(FeedByte(0, b));
  }

  lemma IndexRoundTrip(x: bv32)
    requires x < 256
    ensures 0 <= x as int < 256 && (x as int) as bv32 == x
  {
  }

  lemma HighBytesStay(crc: bv32, x: bv32)
    requires x < 256
    ensures Xor(crc, x) >> 8 == crc >> 8
  {
  }

  lemma {:induction false} LookupIsEight(crc: bv32, x: bv32)
    requires x < 256
    ensures Xor(crc, x) & 255 < 256
    ensures Eight(Xor(crc, x)) == Xor(Eight(Xor(crc, x) & 255), crc >> 8)
  {
    MaskOnce(Xor(crc, x));
    EightByLookup(Xor(crc, x));
    HighBytesStay(crc, x);
  }

  // ---- four bytes at once

  /** A 32-bit little-endian load. */
  function Word(a: byte, b: byte, c: byte, d: byte): bv32 {
    (a as bv32) | ((b as bv32) << 8) | ((c as bv32) << 16) | ((d as bv32) << 24)
  }

  /** The word behind each byte, and the byte in front of it. */
  lemma WordBytes(a: byte, b: byte, c: byte, d: byte) returns (w1: bv32, w2: bv32, w3: bv32)
    ensures w1 == Word(a, b, c, d) >> 8 && w2 == w1 >> 8 && w3 == w2 >> 8 && w3 >> 8 == 0
    ensures Word(a, b, c, d) & 255 == a as bv32 && w1 & 255 == b as bv32
    ensures w2 & 255 == c as bv32 && w3 & 255 == d as bv32
  {
    w1 := Word(a, b, c, d) >> 8;
    w2 := w1 >> 8;
    w3 := w2 >> 8;
  }

  /** The bytes of a word, the first one lowest. */
  ghost predicate Carries(w: bv32, s: seq<byte>) {
    && |s| == 4 && w & 255 == s[0] as bv32 && (w >> 8) & 255 == s[1] as bv32
    && (w >> 8 >> 8) & 255 == s[2] as bv32 && (w >> 8 >> 8 >> 8) & 255 == s[3] as bv32
    && w >> 8 >> 8 >> 8 >> 8 == 0
  }

  lemma WordCarries(s: seq<byte>)
    requires |s| == 4
    ensures Carries(Word(s[0], s[1], s[2], s[3]), s)
  {
    var w1, w2, w3 := WordBytes(s[0], s[1], s[2], s[3]);
  }

  /** Adding a word and stepping four times by eight feeds its four bytes. */
  lemma {:induction false} WordIsFourBytes(r: bv32, w: bv32, s: seq<byte>)
    requires Carries(w, s)
    ensures Eight(Eight(Eight(Eight(Xor(r, w))))) == Crc(r, s)
  {
    var w1 := w >> 8;
    var w2 := w1 >> 8;
    var w3 := w2 >> 8;
    var r1 := FeedByte(r, s[0]);
    var r2 := FeedByte(r1, s[1]);
    var r3 := FeedByte(r2, s[2]);
    EightTakesByte(r, w, s[0]);
    EightTakesByte(r1, w1, s[1]);
    EightTakesByte(r2, w2, s[2]);
    EightTakesByte(r3, w3, s[3]);
    FourInARow(Eight, FeedByte, Xor, r, w, w1, w2, w3, 0, s[0], s[1], s[2], s[3]);
    XorZero(FeedByte(r3, s[3]));
    FoldFour(FeedByte, r, s);
  }

  // ---- what the checksum detects

  lemma StepInjective(a: bv32, b: bv32)
    requires Step(a) == Step(b)
    ensures a == b
  {
  }

  lemma {:induction false} EightInjective(a: bv32, b: bv32)
    requires Eight(a) == Eight(b)
    ensures a == b
  {
    forall x, y | Step(x) == Step(y)
      ensures x == y
    {
      StepInjective(x, y);
    }
    IterateInjective(Step, a, b, 8);
  }

  lemma XorInjective(a: bv32, b: bv32, x: bv32)
    requires Xor(a, x) == Xor(b, x) || Xor(x, a) == Xor(x, b)
    ensures a == b
  {
  }

  lemma {:induction false} FeedByteInjective(c: bv32, d: bv32, b: byte)
    requires FeedByte(c, b) == FeedByte(d, b)
    ensures c == d
  {
    FeedByteIsEight(c, b);
    FeedByteIsEight(d, b);
    EightInjective(Xor(c, b as bv32), Xor(d, b as bv32));
    XorInjective(c, d, b as bv32);
  }

  lemma SameWord(a: byte, b: byte, c: byte, d: byte, a': byte, b': byte, c': byte, d': byte)
    requires Word(a, b, c, d) == Word(a', b', c', d')
    ensures a == a' && b == b' && c == c' && d == d'
  {
  }

  lemma {:induction false} FourBytesInjective(r: bv32, u: seq<byte>, v: seq<byte>)
    requires |u| == |v| == 4 && Crc(r, u) == Crc(r, v)
    ensures u == v
  {
    var x, y := Word(u[0], u[1], u[2], u[3]), Word(v[0], v[1], v[2], v[3]);
    WordCarries(u);
    WordCarries(v);
    WordIsFourBytes(r, x, u);
    WordIsFourBytes(r, y, v);
    FourEightsInjective(Xor(r, x), Xor(r, y));
    XorInjective(x, y, r);
    SameWord(u[0], u[1], u[2], u[3], v[0], v[1], v[2], v[3]);
  }

  lemma {:induction false} FourEightsInjective(a: bv32, b: bv32)
    requires Eight(Eight(Eight(Eight(a)))) == Eight(Eight(Eight(Eight(b))))
    ensures a == b
  {
    EightInjective(Eight(Eight(Eight(a))), Eight(Eight(Eight(b))));
    EightInjective(Eight(Eight(a)), Eight(Eight(b)));
    EightInjective(Eight(a), Eight(b));
    EightInjective(a, b);
  }

  /** An error confined to four consecutive bytes always changes the checksum. */
  lemma {:induction false} BurstDetected(c: bv32, before: seq<byte>, u: seq<byte>, v: seq<byte>, after: seq<byte>)
    requires |u| == |v| == 4 && u != v
    ensures Checksum(c, before + u + after) != Checksum(c, before + v + after)
  {
    forall x, y, b | FeedByte(x, b) == FeedByte(y, b)
      ensures x == y
    {
      FeedByteInjective(x, y, b);
    }
    var r := Crc(Invert(c), before);
    if Crc(r, u) == Crc(r, v) {
      FourBytesInjective(r, u, v);
    }
    FoldDiffers(FeedByte, Invert(c), before, u, v, after);
    InvertInjective(Crc(Invert(c), before + u + after), Crc(Invert(c), before + v + after));
  }

  lemma InvertInjective(a: bv32, b: bv32)
    ensures Invert(a) == Invert(b) ==> a == b
  {
  }

  // ---- the table-driven computation

  /** The powers of the polynomial other than 32. */
  const POWERS: seq<nat> := [0, 1, 2, 4, 5, 7, 8, 10, 11, 12, 16, 22, 23, 26]

  lemma {:induction false} CrcLast(c: bv32, s: seq<byte>, b: byte)
    ensures Crc(c, s + [b]) == FeedByte(Crc(c, s), b)
  {
    FoldLast(FeedByte, c, s, b);
  }

  lemma {:induction false} CrcConcat(c: bv32, s: seq<byte>, t: seq<byte>)
    ensures Crc(c, s + t) == Crc(Crc(c, s), t)
  {
    FoldConcat(FeedByte, c, s, t);
  }

  class CrcTable {
    var empty: bool
    const table: array<bv32>

    ghost predicate Filled()
      reads this, table
    {
      table.Length == 256 && forall n :: 0 <= n < 256 ==> table[n] == Eight(n as bv32)
    }

    ghost predicate Valid()
      reads this, table
    {
      table.Length == 256 && (!empty ==> Filled())
    }

    constructor ()
      ensures Valid() && empty && fresh(table)
    {
      empty := true;
      table := new bv32[256];
    }

    /** One table entry: eight steps with the given pattern. */
    static method MakeEntry(n: bv32, poly: bv32) returns (c: bv32)
      requires poly == POLY
      ensures c == Eight(n)
    {
      c := n;
      for k := 0 to 8
        invariant Iterate(Step, c, 8 - k) == Eight(n)
      {
        c := if c & 1 == 1 then poly ^ (c >> 1) else c >> 1;
      }
    }

    method MakeTable()
      requires Valid()
      modifies this, table
      ensures Valid() && !empty
    {
      var poly := MakePattern();
      for n := 0 to 256
        invariant forall m :: 0 <= m < n ==> table[m] == Eight(m as bv32)
      {
        var c := MakeEntry(n as bv32, poly);
        table[n] := c;
      }
      empty := false;
    }

    method Lookup(i: bv32) returns (t: bv32)
      requires Filled() && i < 256
      ensures t == Eight(i)
    {
      IndexRoundTrip(i);
      t := table[i as int];
    }

    /** DO_CRC: one table look-up advances the register by a byte. */
    method DoCrc(crc: bv32, x: bv32) returns (r: bv32)
      requires Filled() && x < 256
      ensures r == Eight(Xor(crc, x))
    {
      LookupIsEight(crc, x);
      var t := Lookup(Xor(crc, x) & 255);
      r := Xor(t, crc >> 8);
    }

    method DoByte(crc: bv32, b: byte) returns (r: bv32)
      requires Filled()
      ensures r == FeedByte(crc, b)
    {
      ByteFits(b);
      r := DoCrc(crc, b as bv32);
      FeedByteIsEight(crc, b);
    }

    method DoZero(crc: bv32) returns (r: bv32)
      requires Filled()
      ensures r == Eight(crc)
    {
      r := DoCrc(crc, 0);
      XorZero(crc);
    }

    method DoWord(crc: bv32, s: seq<byte>) returns (r: bv32)
      requires Filled() && |s| == 4
      ensures r == Crc(crc, s)
    {
      var w := Word(s[0], s[1], s[2], s[3]);
      WordCarries(s);
      WordIsFourBytes(crc, w, s);
      r := Xor(crc, w);
      r := DoZero(r);
      r := DoZero(r);
      r := DoZero(r);
      r := DoZero(r);
    }

    /** Byte by byte from `from` up to `to`. */
    method Bytes(crc: bv32, p: seq<byte>, from: nat, to: nat) returns (r: bv32)
      requires Filled() && from <= to <= |p|
      ensures r == Crc(crc, p[from..to])
    {
      r := crc;
      for i := from to to
        invariant r == Crc(crc, p[from..i])
      {
        CrcLast(crc, p[from..i], p[i]);
        assert p[from..i + 1] == p[from..i] + [p[i]];
        r := DoByte(r, p[i]);
      }
    }

    method Words(crc: bv32, p: seq<byte>, from: nat, count: nat) returns (r: bv32)
      requires Filled() && from + 4 * count <= |p|
      ensures r == Crc(crc, p[from..from + 4 * count])
    {
      r := crc;
      var i, len := from, count;
      while len > 0
        invariant 0 <= len <= count && i == from + 4 * (count - len) <= |p|
        invariant r == Crc(crc, p[from..i])
      {
        CrcConcat(crc, p[from..i], p[i..i + 4]);
        assert p[from..i + 4] == p[from..i] + p[i..i + 4];
        r := DoWord(r, p[i..i + 4]);
        i, len := i + 4, len - 1;
      }
    }

    /** Head bytes up to a word boundary, whole words, tail bytes; `addr` is the
        address of the buffer. */
    method NoComp(crc: bv32, p: seq<byte>, addr: nat) returns (r: bv32)
      requires Valid()
      modifies this, table
      ensures Valid() && r == Crc(crc, p)
    {
      if empty {
        MakeTable();
      }
      var head := if addr % 4 == 0 then 0 else 4 - addr % 4;
      if head > |p| {
        head := |p|;
      }
      var len := |p| - head;
      var mid := head + 4 * (len / 4);
      r := Bytes(crc, p, 0, head);
      r := Words(r, p, head, len / 4);
      r := Bytes(r, p, mid, |p|);
      ThreeParts(crc, p, head, mid);
    }

    method Compute(crc: bv32, p: seq<byte>, addr: nat) returns (r: bv32)
      requires Valid()
      modifies this, table
      ensures Valid() && r == Checksum(crc, p)
    {
      r := NoComp(crc ^ 0xffff_ffff, p, addr);
      r := r ^ 0xffff_ffff;
    }
  }

  lemma {:induction false} ThreeParts(c: bv32, p: seq<byte>, head: nat, mid: nat)
    requires head <= mid <= |p|
    ensures Crc(Crc(Crc(c, p[0..head]), p[head..mid]), p[mid..|p|]) == Crc(c, p)
  {
    CrcConcat(c, p[0..head], p[head..mid]);
    assert p[0..head] + p[head..mid] == p[0..mid];
    CrcConcat(c, p[0..mid], p[mid..|p|]);
    assert p[0..mid] + p[mid..|p|] == p;
  }

  /** The bit that stands for a power of the polynomial. */
  function AddTerm(poly: bv32, power: nat): bv32 {
    if power <= 31 then poly | ((1 as bv32) << (31 - power)) else poly
  }

  /** The exclusive-or pattern, term by term. */
  method MakePattern() returns (poly: bv32)
    ensures poly == POLY
  {
    poly := 0;
    for n := 0 to |POWERS|
      invariant poly == Fold(AddTerm, 0, POWERS[..n])
    {
      FoldLast(AddTerm, 0, POWERS[..n], POWERS[n]);
      assert POWERS[..n + 1] == POWERS[..n] + [POWERS[n]];
      poly := AddTerm(poly, POWERS[n]);
    }
    assert POWERS[..|POWERS|] == POWERS;
    PatternIs();
  }

  /** One term more, on given values. */
  lemma {:induction false} OneTerm(a: bv32, b: bv32, n: nat)
    requires n < |POWERS| && AddTerm(a, POWERS[n]) == b
    ensures Fold(AddTerm, a, POWERS[n..]) == Fold(AddTerm, b, POWERS[n + 1..])
  {
    FoldStep(AddTerm, a, b, POWERS, n);
  }

  lemma {:induction false} TermsTo5()
    ensures Fold(AddTerm, 0x0000_0000, POWERS[0..]) == Fold(AddTerm, 0xec00_0000, POWERS[5..])
  {
    OneTerm(0x0000_0000, 0x8000_0000, 0);
    OneTerm(0x8000_0000, 0xc000_0000, 1);
    OneTerm(0xc000_0000, 0xe000_0000, 2);
    OneTerm(0xe000_0000, 0xe800_0000, 3);
    OneTerm(0xe800_0000, 0xec00_0000, 4);
  }

  lemma {:induction false} TermsTo10()
    ensures Fold(AddTerm, 0xec00_0000, POWERS[5..]) == Fold(AddTerm, 0xedb8_0000, POWERS[10..])
  {
    OneTerm(0xec00_0000, 0xed00_0000, 5);
    OneTerm(0xed00_0000, 0xed80_0000, 6);
    OneTerm(0xed80_0000, 0xeda0_0000, 7);
    OneTerm(0xeda0_0000, 0xedb0_0000, 8);
    OneTerm(0xedb0_0000, 0xedb8_0000, 9);
  }

  lemma {:induction false} TermsTo14()
    ensures Fold(AddTerm, 0xedb8_0000, POWERS[10..]) == Fold(AddTerm, 0xedb8_8320, POWERS[14..])
  {
    OneTerm(0xedb8_0000, 0xedb8_8000, 10);
    OneTerm(0xedb8_8000, 0xedb8_8200, 11);
    OneTerm(0xedb8_8200, 0xedb8_8300, 12);
    OneTerm(0xedb8_8300, 0xedb8_8320, 13);
  }

  lemma {:induction false} PatternIs()
    ensures Fold(AddTerm, 0, POWERS) == POLY
  {
    assert POWERS[0..] == POWERS && POWERS[14..] == [];
    TermsTo5();
    TermsTo10();
    TermsTo14();
  }
}
