/** The stored OEM command line (src/base/android_misc.c): two NUL-terminated
    texts one after the other in a single buffer, edited in place. */
module OemCmdline {
  import opened Basics

  const MAGIC: nat := 0x4c4d_4346
  /** Bytes of the data array. */
  const SIZE: nat := 2036
  const BOOTCONFIG_DELIMITER: char := '\n'

  predicate IsSeparator(c: char, bootconfig: bool) {
    if bootconfig then c == '\n' || c == ';' else IsSpace(c)
  }

  /** The two stored texts, without their NULs. */
  datatype Texts = Texts(cmdline: string, bootconfig: string) {
    function Half(b: bool): string {
      if b then bootconfig else cmdline
    }

    function With(b: bool, s: string): Texts {
      if b then this.(bootconfig := s) else this.(cmdline := s)
    }

    /** How the texts lie in the buffer. */
    function Image(): string {
      cmdline + [NUL] + bootconfig + [NUL]
    }

    function Length(): nat {
      |cmdline| + |bootconfig| + 2
    }
  }

  ghost predicate Ended(s: string, b: bool) {
    s == "" || IsSeparator(s[|s| - 1], b)
  }

  /** The texts fit, and each one is empty or ends with a separator. */
  ghost predicate Structured(t: Texts) {
    t.Length() <= SIZE && Ended(t.cmdline, false) && Ended(t.bootconfig, true)
  }

  // ---- the operations on texts

  function Delimiter(b: bool): char {
    if b then BOOTCONFIG_DELIMITER else ' '
  }

  datatype Op = Reset | Append(buf: string, b: bool) | Set(buf: string, b: bool) | Delete(idx: nat, len: nat, b: bool)

  predicate Fits(t: Texts, buf: string) {
    buf == "" || t.Length() + |buf| + 1 <= SIZE
  }

  function Appended(t: Texts, buf: string, b: bool): Texts {
    if buf == "" then t else t.With(b, t.Half(b) + buf + [Delimiter(b)])
  }

  predicate InText(t: Texts, idx: nat, len: nat, b: bool) {
    idx + len <= |t.Half(b)|
  }

  function Deleted(t: Texts, idx: nat, len: nat, b: bool): Texts
    requires InText(t, idx, len, b)
  {
    t.With(b, t.Half(b)[..idx] + t.Half(b)[idx + len..])
  }

  /** What an operation leaves, and whether it reports success. */
  function Apply(t: Texts, op: Op): (Texts, bool) {
    match op
    case Reset => (Texts("", ""), true)
    case Append(buf, b) => if Fits(t, buf) then (Appended(t, buf, b), true) else (t, false)
    case Set(buf, b) =>
      var e := t.With(b, "");
      if e.Length() + |buf| > SIZE then (t, false)
      else if Fits(e, buf) then (Appended(e, buf, b), true) else (e, false)
    case Delete(idx, len, b) => if InText(t, idx, len, b) then (Deleted(t, idx, len, b), true) else (t, false)
  }

  function ApplyAll(t: Texts, ops: seq<Op>): Texts
    decreases ops
  {
    if ops == [] then t else ApplyAll(Apply(t, ops[0]).0, ops[1..])
  }

  /** A deletion keeps the structure when it does not cut a text off in the middle
      of a parameter. */
  predicate CleanCut(t: Texts, op: Op) {
    op.Delete? && InText(t, op.idx, op.len, op.b) && op.idx + op.len == |t.Half(op.b)| && op.idx > 0 ==>
      IsSeparator(t.Half(op.b)[op.idx - 1], op.b)
  }

  ghost predicate CleanCuts(t: Texts, ops: seq<Op>)
    decreases ops
  {
    ops != [] ==> CleanCut(t, ops[0]) && CleanCuts(Apply(t, ops[0]).0, ops[1..])
  }

  lemma EndedWithDelimiter(s: string, buf: string, b: bool)
    ensures Ended(s + buf + [Delimiter(b)], b)
  {
  }

  /** Cutting `len` characters at `idx` out of an ended text. */
  lemma EndedAfterCut(s: string, idx: nat, len: nat, b: bool)
    requires idx + len <= |s| && Ended(s, b)
    ensures Ended(s[..idx] + s[idx + len..], b) <==>
            (idx + len == |s| && idx > 0 ==> IsSeparator(s[idx - 1], b))
  {
    var r := s[..idx] + s[idx + len..];
    if idx + len < |s| {
      assert r[|r| - 1] == s[|s| - 1];
    } else {
      assert r == s[..idx];
    }
  }

  lemma StructuredWith(t: Texts, b: bool, s: string)
    requires Structured(t)
    ensures Structured(t.With(b, s)) <==> Ended(s, b) && |s| + |t.Half(!b)| + 2 <= SIZE
  {
  }

  /** One operation keeps the structure, successful or not; a deletion does so
      exactly when it is a clean cut. */
  lemma {:induction false} ApplyKeepsStructure(t: Texts, op: Op)
    requires Structured(t)
    ensures Structured(Apply(t, op).0) <==> CleanCut(t, op)
  {
    match op
    case Reset =>
    case Append(buf, b) => AppendKeepsStructure(t, buf, b);
    case Set(buf, b) => SetKeepsStructure(t, buf, b);
    case Delete(idx, len, b) => DeleteKeepsStructure(t, idx, len, b);
  }

  lemma {:induction false} AppendKeepsStructure(t: Texts, buf: string, b: bool)
    requires Structured(t)
    ensures Structured(Apply(t, Append(buf, b)).0)
  {
    if Fits(t, buf) && buf != "" {
      EndedWithDelimiter(t.Half(b), buf, b);
      StructuredWith(t, b, t.Half(b) + buf + [Delimiter(b)]);
    }
  }

  lemma {:induction false} SetKeepsStructure(t: Texts, buf: string, b: bool)
    requires Structured(t)
    ensures Structured(Apply(t, Set(buf, b)).0)
  {
    var e := t.With(b, "");
    StructuredWith(t, b, "");
    if e.Length() + |buf| <= SIZE {
      AppendKeepsStructure(e, buf, b);
      assert Apply(t, Set(buf, b)).0 == Apply(e, Append(buf, b)).0;
    }
  }

  lemma {:induction false} DeleteKeepsStructure(t: Texts, idx: nat, len: nat, b: bool)
    requires Structured(t)
    ensures Structured(Apply(t, Delete(idx, len, b)).0) <==> CleanCut(t, Delete(idx, len, b))
  {
    if InText(t, idx, len, b) {
      assert Ended(t.Half(b), b);
      EndedAfterCut(t.Half(b), idx, len, b);
      StructuredWith(t, b, t.Half(b)[..idx] + t.Half(b)[idx + len..]);
    }
  }

  /** The other text is the same after every edit of one of them. */
  lemma EditsOneHalf(t: Texts, op: Op)
    requires !op.Reset?
    ensures Apply(t, op).0.Half(!op.b) == t.Half(!op.b)
  {
  }

  /** Appending, by the stored characters: the argument and a space or a line end, when
      both texts with their NULs then still fit, and otherwise nothing. */
  lemma AppendByText(t: Texts, buf: string)
    requires buf != ""
    ensures var fits := |t.cmdline| + |t.bootconfig| + |buf| + 3 <= 2036;
            && Apply(t, Append(buf, false)) == (if fits then Texts(t.cmdline + buf + " ", t.bootconfig) else t, fits)
            && Apply(t, Append(buf, true)) == (if fits then Texts(t.cmdline, t.bootconfig + buf + "\n") else t, fits)
  {
  }

  /** An empty argument adds nothing and succeeds. */
  lemma AppendNothing(t: Texts, b: bool)
    ensures Apply(t, Append("", b)) == (t, true)
  {
  }

  /** Deleting, by the stored characters: what was before the part and what was behind
      it, when the part lies in the text, and otherwise nothing. */
  lemma DeleteByText(t: Texts, before: string, part: string, behind: string)
    ensures t.cmdline == before + part + behind ==>
              Apply(t, Delete(|before|, |part|, false)) == (Texts(before + behind, t.bootconfig), true)
    ensures t.bootconfig == before + part + behind ==>
              Apply(t, Delete(|before|, |part|, true)) == (Texts(t.cmdline, before + behind), true)
    ensures forall idx: nat, len: nat :: idx + len > |t.cmdline| ==> Apply(t, Delete(idx, len, false)) == (t, false)
    ensures forall idx: nat, len: nat :: idx + len > |t.bootconfig| ==> Apply(t, Delete(idx, len, true)) == (t, false)
  {
    var s := before + part + behind;
    assert s[..|before|] == before && s[|before| + |part|..] == behind;
  }

  /** Resetting empties both texts, whatever they were. */
  lemma ResetEmpties(t: Texts)
    ensures Apply(t, Reset) == (Texts("", ""), true)
  {
  }

  /** Over every sequence of operations the texts stay structured. */
  lemma {:induction false} RunsKeepStructure(t: Texts, ops: seq<Op>)
    requires Structured(t) && CleanCuts(t, ops)
    ensures Structured(ApplyAll(t, ops))
    decreases ops
  {
    if ops != [] {
      ApplyKeepsStructure(t, ops[0]);
      RunsKeepStructure(Apply(t, ops[0]).0, ops[1..]);
    }
  }

  /** The size check of set is one byte too generous: set reports an error after
      it has already emptied the text exactly when the argument would leave no
      room for the delimiter. */
  lemma SetLosesTextExactly(t: Texts, buf: string, b: bool)
    requires Structured(t) && t.Half(b) != ""
    ensures (!Apply(t, Set(buf, b)).1 && Apply(t, Set(buf, b)).0 != t) <==>
            buf != "" && |t.Half(!b)| + |buf| + 2 == SIZE
  {
  }

  /** Setting is appending to an empty text, and twice is the same as once. */
  lemma SetIsIdempotent(t: Texts, buf: string, b: bool)
    requires Apply(t, Set(buf, b)).1
    ensures Apply(Apply(t, Set(buf, b)).0, Set(buf, b)) == Apply(t, Set(buf, b))
    ensures Apply(t, Set(buf, b)).0.Half(b) == if buf == "" then "" else buf + [Delimiter(b)]
  {
    var e := t.With(b, "");
    assert Appended(e, buf, b).With(b, "") == e;
    assert "" + buf + [Delimiter(b)] == buf + [Delimiter(b)];
  }

  /** Deleting what was appended undoes the append. */
  lemma {:induction false} DeleteUndoesAppend(t: Texts, buf: string, b: bool)
    requires Fits(t, buf) && buf != ""
    ensures Apply(Apply(t, Append(buf, b)).0, Delete(|t.Half(b)|, |buf| + 1, b)) == (t, true)
  {
    var s := t.Half(b) + buf + [Delimiter(b)];
    assert s[..|t.Half(b)|] + s[|t.Half(b)| + (|buf| + 1)..] == t.Half(b);
  }

  // ---- the Internet checksum (RFC 1071) over the record

  /** Sum of the little-endian 16-bit words of `s`, which starts at an even
      offset; an odd last byte counts as a word of its own. */
  function WordSum(s: string, odd: bool): nat
    decreases |s|
  {
    if s == "" then 0 else (s[0] as int) * (if odd then 256 else 1) + WordSum(s[1..], !odd)
  }

  /** End-around carry: fold to 16 bits. */
  function Fold(n: nat): (r: nat)
    ensures r <= 0xffff
  {
    if n == 0 then 0 else (n - 1) % 0xffff + 1
  }

  function Complement(n: nat): nat
    requires n <= 0xffff
  {
    0xffff - n
  }

  datatype Header = Header(magic: nat, version: nat, reserved: nat, cmdlineLen: nat, bootconfigLen: nat)

  function Checksum(h: Header, chksum: nat, covered: string): nat {
    Complement(Fold(h.magic % 0x1_0000 + h.magic / 0x1_0000 + h.version + 256 * h.reserved + chksum
                    + h.cmdlineLen + h.bootconfigLen + WordSum(covered, false)))
  }

  /** Storing the checksum taken with the field zeroed makes the whole record sum
      to zero. */
  lemma ChecksumVerifies(h: Header, covered: string)
    requires h.cmdlineLen > 0
    ensures Checksum(h, Checksum(h, 0, covered), covered) == 0
  {
    var n := h.magic % 0x1_0000 + h.magic / 0x1_0000 + h.version + 256 * h.reserved
             + h.cmdlineLen + h.bootconfigLen + WordSum(covered, false);
    FoldSelf(n);
  }

  lemma FoldSelf(n: nat)
    requires n > 0
    ensures Fold(n + Complement(Fold(n))) == 0xffff
  {
    var q := (n - 1) / 0xffff;
    assert n + Complement(Fold(n)) - 1 == q * 0xffff + 0xfffe;
  }

  lemma {:induction false} FoldExactly(m: nat, n: nat)
    requires m > 0 && n > 0
    ensures Fold(m) == Fold(n) <==> (m - n) % 0xffff == 0
  {
    var a, b := m - 1, n - 1;
    assert a == a / 0xffff * 0xffff + a % 0xffff && b == b / 0xffff * 0xffff + b % 0xffff;
    assert m - n == (a / 0xffff - b / 0xffff) * 0xffff + (a % 0xffff - b % 0xffff);
    Multiple(a / 0xffff - b / 0xffff, a % 0xffff - b % 0xffff);
  }

  lemma Multiple(q: int, r: int)
    requires -0xffff < r < 0xffff
    ensures (q * 0xffff + r) % 0xffff == 0 <==> r == 0
  {
  }

  /** Two records that differ in the covered text only have the same checksum exactly
      when their word sums agree modulo 65535. */
  lemma {:induction false} SameChecksumExactly(h: Header, chksum: nat, s: string, s': string)
    requires h.cmdlineLen > 0
    ensures Checksum(h, chksum, s) == Checksum(h, chksum, s') <==>
            (WordSum(s, false) - WordSum(s', false)) % 0xffff == 0
  {
    var n := h.magic % 0x1_0000 + h.magic / 0x1_0000 + h.version + 256 * h.reserved + chksum
             + h.cmdlineLen + h.bootconfigLen;
    FoldExactly(n + WordSum(s, false), n + WordSum(s', false));
  }

  /** The weight of byte `i` in a sum that starts with a low or a high byte. */
  function Weight(i: nat, odd: bool): nat {
    if odd != (i % 2 == 1) then 256 else 1
  }

  lemma {:induction false} WordSumUpdate(s: string, odd: bool, i: nat, c: char)
    requires i < |s|
    ensures WordSum(s[i := c], odd) - WordSum(s, odd) == (c as int - s[i] as int) * Weight(i, odd)
    decreases |s|
  {
    if i > 0 {
      assert s[i := c][1..] == s[1..][i - 1 := c];
      WordSumUpdate(s[1..], !odd, i - 1, c);
    } else {
      assert s[0 := c][1..] == s[1..];
    }
  }

  /** A change of a single byte of the texts is always noticed: the record no longer
      sums to zero. */
  lemma {:induction false} ByteChangeNoticed(h: Header, chksum: nat, s: string, i: nat, c: char)
    requires h.cmdlineLen > 0 && i < |s| && c != s[i] && (c as int) < 256 && (s[i] as int) < 256
    requires Checksum(h, chksum, s) == 0
    ensures Checksum(h, chksum, s[i := c]) != 0
  {
    SameChecksumExactly(h, chksum, s[i := c], s);
    WordSumUpdate(s, false, i, c);
    Multiple(0, (c as int - s[i] as int) * Weight(i, false));
  }

  function LowByte(n: nat): char {
    (n % 256) as char
  }

  /** The twelve bytes of the header as they are stored, lowest byte first. */
  function HeaderBytes(h: Header, chksum: nat): (s: string)
    ensures |s| == 12
  {
    [LowByte(h.magic), LowByte(h.magic / 0x100), LowByte(h.magic / 0x1_0000), LowByte(h.magic / 0x100_0000),
     LowByte(h.version), LowByte(h.reserved), LowByte(chksum), LowByte(chksum / 0x100),
     LowByte(h.cmdlineLen), LowByte(h.cmdlineLen / 0x100),
     LowByte(h.bootconfigLen), LowByte(h.bootconfigLen / 0x100)]
  }

  predicate FitsFields(h: Header, chksum: nat) {
    && h.magic < 0x1_0000_0000 && h.version < 0x100 && h.reserved < 0x100 && chksum < 0x1_0000
    && h.cmdlineLen < 0x1_0000 && h.bootconfigLen < 0x1_0000
  }

  function WordAt(b: string, i: nat): nat
    requires i + 1 < |b|
  {
    b[i] as int + 256 * (b[i + 1] as int)
  }

  lemma WordFirst(b: string, i: nat, s: string)
    requires i + 2 <= |b|
    ensures WordSum(b[i..] + s, false) == WordAt(b, i) + WordSum(b[i + 2..] + s, false)
  {
    var t := b[i..] + s;
    assert t[1..] == b[i + 1..] + s;
    assert t[1..][1..] == b[i + 2..] + s;
  }

  lemma {:induction false} SixWords(b: string, s: string)
    requires |b| == 12
    ensures WordSum(b + s, false) ==
            WordAt(b, 0) + WordAt(b, 2) + WordAt(b, 4) + WordAt(b, 6) + WordAt(b, 8) + WordAt(b, 10) + WordSum(s, false)
  {
    assert b[0..] == b && b[12..] + s == s;
    WordFirst(b, 0, s);
    WordFirst(b, 2, s);
    WordFirst(b, 4, s);
    WordFirst(b, 6, s);
    WordFirst(b, 8, s);
    WordFirst(b, 10, s);
  }

  lemma LowBytes(n: nat)
    requires n < 0x1_0000
    ensures LowByte(n) as int + 256 * (LowByte(n / 0x100) as int) == n
  {
  }

  /** The checksum is over the stored bytes, from the magic to the last byte of the texts,
      added up as 16-bit words. */
  lemma {:induction false} ChecksumIsOverBytes(h: Header, chksum: nat, covered: string)
    requires FitsFields(h, chksum)
    ensures Checksum(h, chksum, covered) == Complement(Fold(WordSum(HeaderBytes(h, chksum) + covered, false)))
  {
    SixWords(HeaderBytes(h, chksum), covered);
    HeaderWords(h, chksum);
  }

  lemma {:induction false} HeaderWords(h: Header, chksum: nat)
    requires FitsFields(h, chksum)
    ensures var b := HeaderBytes(h, chksum);
            && WordAt(b, 0) == h.magic % 0x1_0000 && WordAt(b, 2) == h.magic / 0x1_0000
            && WordAt(b, 4) == h.version + 256 * h.reserved && WordAt(b, 6) == chksum
            && WordAt(b, 8) == h.cmdlineLen && WordAt(b, 10) == h.bootconfigLen
  {
    LowBytes(h.magic % 0x1_0000);
    LowBytes(h.magic / 0x1_0000);
    LowBytes(chksum);
    LowBytes(h.cmdlineLen);
    LowBytes(h.bootconfigLen);
    MagicBytes(h.magic);
  }

  lemma MagicBytes(n: nat)
    requires n < 0x1_0000_0000
    ensures LowByte(n) == LowByte(n % 0x1_0000) && LowByte(n / 0x100) == LowByte(n % 0x1_0000 / 0x100)
    ensures LowByte(n / 0x100_0000) == LowByte(n / 0x1_0000 / 0x100)
  {
  }

  // ---- the record

  /** Recognising the texts in a buffer. */
  lemma ReadImage(d: string, cl: nat, bl: nat, t: Texts)
    requires cl + bl <= |d| && d[..cl + bl] == t.Image() && cl == |t.cmdline| + 1 && bl == |t.bootconfig| + 1
    ensures d[..cl - 1] == t.cmdline && d[cl..cl + bl - 1] == t.bootconfig
    ensures d[cl - 1] == NUL && d[cl + bl - 1] == NUL
  {
    var m := d[..cl + bl];
    assert m[cl - 1] == NUL && m[cl + bl - 1] == NUL;
    assert m[..cl - 1] == t.cmdline && m[cl..cl + bl - 1] == t.bootconfig;
    assert d[cl - 1] == m[cl - 1] && d[cl + bl - 1] == m[cl + bl - 1];
    assert d[..cl - 1] == m[..cl - 1] && d[cl..cl + bl - 1] == m[cl..cl + bl - 1];
  }

  /** Appending to the second text needs no move. */
  lemma AppendedAfter(d: string, t: Texts, buf: string)
    requires t.Length() + |buf| + 1 <= |d| && d[..t.Length()] == t.Image() && buf != ""
    ensures var at, n := t.Length() - 1, |buf| + 1;
            var d1 := d[at + n - 1 := BOOTCONFIG_DELIMITER];
            Over(d1, at, buf)[at + n := NUL][..t.Length() + n] ==
            t.With(true, t.bootconfig + buf + [BOOTCONFIG_DELIMITER]).Image()
  {
    var at, n := t.Length() - 1, |buf| + 1;
    assert d[..at] == t.Image()[..at] == t.cmdline + [NUL] + t.bootconfig;
  }

  function Inserted(d: string, from: nat, n: nat, buf: string): string
    requires 0 < from && from + n + |buf| + 1 <= |d|
  {
    var moved := Over(d, from + |buf| + 1, d[from..from + n])[from - 1 + |buf| := ' '];
    Over(moved, from - 1, buf)[from + |buf| := NUL]
  }

  /** Appending to the first text moves the second one out of the way. */
  lemma InsertedImage(d: string, t: Texts, buf: string)
    requires t.Length() + |buf| + 1 <= |d| && d[..t.Length()] == t.Image()
    ensures Inserted(d, |t.cmdline| + 1, |t.bootconfig| + 1, buf)[..t.Length() + |buf| + 1] ==
            t.With(false, t.cmdline + buf + [' ']).Image()
  {
    var cl := |t.cmdline| + 1;
    assert d[..cl - 1] == t.Image()[..cl - 1] == t.cmdline;
    assert d[cl..t.Length()] == t.Image()[cl..] == t.bootconfig + [NUL];
  }

  /** Moving the end of a run down over a gap takes the gap out of it. */
  lemma MovedDown<T>(d: seq<T>, image: seq<T>, at: nat, len: nat)
    requires at + len <= |image| <= |d| && d[..|image|] == image
    ensures Over(d, at, d[at + len..|image|])[..|image| - len] == image[..at] + image[at + len..]
  {
    var n := |image|;
    var tail := d[at + len..n];
    assert tail == image[at + len..];
    assert d[..at] == image[..at];
    assert Over(d, at, tail)[..n - len] == d[..at] + tail;
  }

  lemma CutInFirst<T>(a: seq<T>, rest: seq<T>, idx: nat, len: nat)
    requires idx + len <= |a|
    ensures (a + rest)[..idx] + (a + rest)[idx + len..] == (a[..idx] + a[idx + len..]) + rest
  {
    assert (a + rest)[..idx] == a[..idx];
    assert (a + rest)[idx + len..] == a[idx + len..] + rest;
    Assoc(a[..idx], a[idx + len..], rest);
  }

  lemma CutInSecond<T>(before: seq<T>, a: seq<T>, rest: seq<T>, idx: nat, len: nat)
    requires idx + len <= |a|
    ensures var s := before + a + rest;
            s[..|before| + idx] + s[|before| + idx + len..] == before + (a[..idx] + a[idx + len..]) + rest
  {
    var s := before + a + rest;
    assert s[..|before| + idx] == before + a[..idx];
    assert s[|before| + idx + len..] == a[idx + len..] + rest;
    Assoc(before, a[..idx], a[idx + len..]);
    Assoc(before + a[..idx], a[idx + len..], rest);
  }

  lemma {:induction false} FirstCut(c: string, k: string, idx: nat, len: nat)
    requires idx + len <= |c|
    ensures var s := Texts(c, k).Image();
            s[..idx] + s[idx + len..] == Texts(c[..idx] + c[idx + len..], k).Image()
  {
    var c', rest := c[..idx] + c[idx + len..], [NUL] + k + [NUL];
    CutInFirst(c, rest, idx, len);
    assert c + rest == c + [NUL] + k + [NUL];
    assert c' + rest == c' + [NUL] + k + [NUL];
  }

  /** Deleting from a text is deleting from its image. */
  lemma {:induction false} DeletedImage(t: Texts, idx: nat, len: nat, b: bool)
    requires InText(t, idx, len, b)
    ensures var at := (if b then |t.cmdline| + 1 else 0) + idx;
            t.Image()[..at] + t.Image()[at + len..] == Deleted(t, idx, len, b).Image()
  {
    if b {
      CutInSecond(t.cmdline + [NUL], t.bootconfig, [NUL], idx, len);
    } else {
      FirstCut(t.cmdline, t.bootconfig, idx, len);
    }
  }

  /** A buffer that holds the texts `u`, with these lengths. */
  ghost predicate Holds(d: string, cl: nat, bl: nat, u: Texts) {
    && cl == |u.cmdline| + 1 && bl == |u.bootconfig| + 1 && cl + bl <= |d|
    && d[cl - 1] == NUL && d[cl + bl - 1] == NUL
    && d[..cl - 1] == u.cmdline && d[cl..cl + bl - 1] == u.bootconfig
  }

  lemma {:induction false} ImageHolds(d: string, u: Texts)
    requires u.Length() <= |d| && d[..u.Length()] == u.Image()
    ensures Holds(d, |u.cmdline| + 1, |u.bootconfig| + 1, u)
  {
    ReadImage(d, |u.cmdline| + 1, |u.bootconfig| + 1, u);
  }

  lemma {:induction false} DeletedHolds(d: string, t: Texts, idx: nat, len: nat, b: bool, at: nat, n: nat, u: Texts)
    requires t.Length() == n <= |d| && d[..n] == t.Image() && InText(t, idx, len, b) && u == Deleted(t, idx, len, b)
    requires at == (if b then |t.cmdline| + 1 else 0) + idx
    ensures Holds(Over(d, at, d[at + len..n]), |u.cmdline| + 1, |u.bootconfig| + 1, u)
  {
    MovedDown(d, t.Image(), at, len);
    DeletedImage(t, idx, len, b);
    ImageHolds(Over(d, at, d[at + len..n]), u);
  }

  lemma {:induction false} InsertedHolds(d: string, t: Texts, buf: string, cl: nat, bl: nat, u: Texts)
    requires t.Length() + |buf| + 1 <= |d| && d[..t.Length()] == t.Image()
    requires cl == |t.cmdline| + 1 && bl == |t.bootconfig| + 1 && u == t.With(false, t.cmdline + buf + [' '])
    ensures Holds(Inserted(d, cl, bl, buf), |u.cmdline| + 1, |u.bootconfig| + 1, u)
  {
    InsertedImage(d, t, buf);
    ImageHolds(Inserted(d, cl, bl, buf), u);
  }

  class Record {
    var magic: nat
    var version: nat
    var reserved: nat
    var chksum: nat
    var cmdlineLen: nat
    var bootconfigLen: nat
    const data: array<char>

    constructor (data: array<char>)
      requires data.Length == SIZE
      ensures this.data == data
    {
      this.data := data;
    }

    ghost predicate Sized()
      reads this
    {
      data.Length == SIZE && cmdlineLen >= 1 && bootconfigLen >= 1 && cmdlineLen + bootconfigLen <= SIZE
    }

    ghost function Value(): Texts
      requires Sized()
      reads this, data
    {
      Texts(data[..cmdlineLen - 1], data[cmdlineLen..cmdlineLen + bootconfigLen - 1])
    }

    /** Both NULs are where the lengths say. */
    ghost predicate Framed()
      reads this, data
    {
      Sized() && data[cmdlineLen - 1] == NUL && data[cmdlineLen + bootconfigLen - 1] == NUL
    }

    ghost function Head(): Header
      reads this
    {
      Header(magic, version, reserved, cmdlineLen, bootconfigLen)
    }

    ghost predicate Valid()
      reads this, data
    {
      && magic == MAGIC && version == 0 && Framed() && Structured(Value())
      && Checksum(Head(), chksum, data[..cmdlineLen + bootconfigLen]) == 0
    }

    /** The buffer holds the image of the texts. */
    lemma FramedIsImage()
      requires Framed()
      ensures data[..cmdlineLen + bootconfigLen] == Value().Image()
      ensures Value().Length() == cmdlineLen + bootconfigLen
    {
    }

    method IsValid() returns (b: bool)
      requires data.Length == SIZE
      ensures b <==> Valid()
    {
      if magic != MAGIC || version != 0 {
        return false;
      }
      if cmdlineLen + bootconfigLen > SIZE || cmdlineLen < 1 || bootconfigLen < 1 {
        return false;
      }
      var cmdlineEnd, bootcfgEnd := cmdlineLen - 1, cmdlineLen + bootconfigLen - 1;
      if data[cmdlineEnd] != NUL || data[bootcfgEnd] != NUL {
        return false;
      }
      if (cmdlineLen > 1 && !IsSeparator(data[cmdlineEnd - 1], false)) ||
         (bootconfigLen > 1 && !IsSeparator(data[bootcfgEnd - 1], true)) {
        return false;
      }
      b := Checksum(Header(magic, version, reserved, cmdlineLen, bootconfigLen), chksum,
                    data[..cmdlineLen + bootconfigLen]) == 0;
    }

    method UpdateChecksum() returns (ok: bool)
      requires data.Length == SIZE
      modifies this`chksum
      ensures ok == (cmdlineLen + bootconfigLen <= SIZE)
      ensures !ok ==> chksum == old(chksum)
      ensures ok && magic == MAGIC && version == 0 && Framed() && Structured(Value()) ==> Valid()
    {
      if cmdlineLen + bootconfigLen > SIZE {
        return false;
      }
      var covered := data[..cmdlineLen + bootconfigLen];
      var h := Header(magic, version, reserved, cmdlineLen, bootconfigLen);
      chksum := Checksum(h, 0, covered);
      if cmdlineLen > 0 {
        ChecksumVerifies(h, covered);
      }
      return true;
    }

    /** Update the checksum of a record about to be written. */
    method Seal() returns (ok: bool)
      requires magic == MAGIC && version == 0 && Framed() && Structured(Value())
      modifies this`chksum
      ensures ok && Valid() && Value() == old(Value())
    {
      ok := UpdateChecksum();
    }

    method ResetCmd()
      requires data.Length == SIZE
      modifies this, data
      ensures Valid() && Value() == Texts("", "")
    {
      magic, version, reserved := MAGIC, 0, 0;
      data[0] := NUL;
      cmdlineLen := 1;
      data[1] := NUL;
      bootconfigLen := 1;
      var _ := UpdateChecksum();
    }

    /** memmove inside the buffer. */
    method Move(dst: nat, src: nat, n: nat)
      requires dst + n <= data.Length && src + n <= data.Length
      modifies data
      ensures data[..] == Over(old(data[..]), dst, old(data[..])[src..src + n])
    {
      forall i | 0 <= i < n {
        data[dst + i] := data[src + i];
      }
    }

    /** memcpy into the buffer. */
    method Write(at: nat, s: string)
      requires at + |s| <= data.Length
      modifies data
      ensures data[..] == Over(old(data[..]), at, s)
    {
      forall i | 0 <= i < |s| {
        data[at + i] := s[i];
      }
    }

    method AppendBootconfig(buf: string)
      requires Framed() && buf != "" && cmdlineLen + bootconfigLen + |buf| + 1 <= SIZE
      modifies this`bootconfigLen, data
      ensures Framed() && Value() == old(Value()).With(true, old(Value()).bootconfig + buf + [BOOTCONFIG_DELIMITER])
    {
      FramedIsImage();
      ghost var t, d := Value(), data[..];
      var bufLen := |buf| + 1;
      var appendTo := cmdlineLen + bootconfigLen - 1;
      data[appendTo + bufLen - 1] := BOOTCONFIG_DELIMITER;
      bootconfigLen := bootconfigLen + bufLen;
      Write(appendTo, buf);
      data[appendTo + bufLen] := NUL;
      AppendedAfter(d, t, buf);
      ReadImage(data[..], cmdlineLen, bootconfigLen, t.With(true, t.bootconfig + buf + [BOOTCONFIG_DELIMITER]));
    }

    /** Shift the `n` bytes at `from` up and put the argument, its separator and a
        NUL in front of them. */
    method InsertBefore(from: nat, n: nat, buf: string, ghost d': string)
      requires 0 < from && from + n + |buf| + 1 <= data.Length && d' == Inserted(data[..], from, n, buf)
      modifies data
      ensures data[..] == d'
    {
      var bufLen := |buf| + 1;
      var appendTo := from - 1;
      ghost var d := data[..];
      Move(appendTo + bufLen + 1, from, n);
      data[appendTo + bufLen - 1] := ' ';
      ghost var moved := Over(d, from + |buf| + 1, d[from..from + n])[from - 1 + |buf| := ' '];
      assert data[..] == moved;
      Write(appendTo, buf);
      data[appendTo + bufLen] := NUL;
      assert data[..] == Over(moved, from - 1, buf)[from + |buf| := NUL];
    }

    /** The texts are those the buffer holds. */
    lemma FramedFrom(d: string, u: Texts)
      requires data.Length == SIZE && data[..] == d && Holds(d, cmdlineLen, bootconfigLen, u)
      ensures Framed() && Value() == u
    {
      assert data[..cmdlineLen - 1] == d[..cmdlineLen - 1];
      assert data[cmdlineLen..cmdlineLen + bootconfigLen - 1] == d[cmdlineLen..cmdlineLen + bootconfigLen - 1];
    }

    method AppendCmdline(buf: string)
      requires Framed() && buf != "" && cmdlineLen + bootconfigLen + |buf| + 1 <= SIZE
      modifies this`cmdlineLen, data
      ensures Framed() && Value() == old(Value()).With(false, old(Value()).cmdline + buf + [' '])
    {
      ghost var t := Value();
      ghost var u := t.With(false, t.cmdline + buf + [' ']);
      FramedIsImage();
      ghost var d' := Inserted(data[..], cmdlineLen, bootconfigLen, buf);
      InsertedHolds(data[..], t, buf, cmdlineLen, bootconfigLen, u);
      InsertBefore(cmdlineLen, bootconfigLen, buf, d');
      cmdlineLen := cmdlineLen + (|buf| + 1);
      FramedFrom(d', u);
    }

    method AppendCmd(buf: string, bootconfig: bool) returns (ok: bool)
      requires Framed() && NulFree(buf)
      modifies this, data
      ensures Framed() && (Value(), ok) == Apply(old(Value()), Append(buf, bootconfig))
      ensures unchanged(`magic) && unchanged(`version) && unchanged(`reserved)
    {
      if buf == "" {
        return true;
      }
      if |buf| + 1 > SIZE - cmdlineLen - bootconfigLen {
        return false;
      }
      if bootconfig {
        AppendBootconfig(buf);
      } else {
        AppendCmdline(buf);
      }
      return true;
    }

    /** Move what follows the deleted part over it, the lengths being updated. */
    method CloseGap(toDel: nat, len: nat, following: nat, ghost t: Texts, ghost idx: nat, ghost b: bool)
      requires data.Length == SIZE && t.Length() <= SIZE && data[..t.Length()] == t.Image() && InText(t, idx, len, b)
      requires toDel == (if b then |t.cmdline| + 1 else 0) + idx && toDel + len + following == t.Length()
      requires cmdlineLen == |Deleted(t, idx, len, b).cmdline| + 1
      requires bootconfigLen == |Deleted(t, idx, len, b).bootconfig| + 1
      modifies data
      ensures Framed() && Value() == Deleted(t, idx, len, b)
    {
      ghost var d := data[..];
      Move(toDel, toDel + len, following);
      assert data[..] == Over(d, toDel, d[toDel + len..toDel + len + following]);
      AfterMove(d, t, idx, len, b, toDel, following);
    }

    lemma AfterMove(d: string, t: Texts, idx: nat, len: nat, b: bool, at: nat, n: nat)
      requires data.Length == |d| == SIZE && t.Length() <= SIZE && d[..t.Length()] == t.Image() && InText(t, idx, len, b)
      requires at == (if b then |t.cmdline| + 1 else 0) + idx && at + len + n == t.Length()
      requires data[..] == Over(d, at, d[at + len..at + len + n])
      requires cmdlineLen == |Deleted(t, idx, len, b).cmdline| + 1
      requires bootconfigLen == |Deleted(t, idx, len, b).bootconfig| + 1
      ensures Framed() && Value() == Deleted(t, idx, len, b)
    {
      var u := Deleted(t, idx, len, b);
      DeletedHolds(d, t, idx, len, b, at, at + len + n, u);
      FramedFrom(Over(d, at, d[at + len..at + len + n]), u);
    }

    method DeleteCmd(idx: nat, len: nat, bootconfig: bool) returns (ok: bool)
      requires Framed()
      modifies this, data
      ensures Framed() && (Value(), ok) == Apply(old(Value()), Delete(idx, len, bootconfig))
      ensures unchanged(`magic) && unchanged(`version) && unchanged(`reserved)
    {
      ghost var t := Value();
      FramedIsImage();
      var toDel := (if bootconfig then cmdlineLen else 0) + idx;
      var following: nat;
      if bootconfig {
        if idx >= bootconfigLen || bootconfigLen - idx <= len {
          return false;
        }
        bootconfigLen := bootconfigLen - len;
        following := bootconfigLen - idx;
      } else {
        if idx >= cmdlineLen || cmdlineLen - idx <= len {
          return false;
        }
        cmdlineLen := cmdlineLen - len;
        following := cmdlineLen - idx + bootconfigLen;
      }
      CloseGap(toDel, len, following, t, idx, bootconfig);
      return true;
    }

    method SetCmd(buf: string, bootconfig: bool) returns (ok: bool)
      requires Framed() && NulFree(buf)
      modifies this, data
      ensures Framed() && (Value(), ok) == Apply(old(Value()), Set(buf, bootconfig))
      ensures unchanged(`magic) && unchanged(`version) && unchanged(`reserved)
    {
      if bootconfig {
        if |buf| > SIZE - cmdlineLen - 1 {
          return false;
        }
        var _ := DeleteCmd(0, bootconfigLen - 1, true);
      } else {
        if |buf| > SIZE - bootconfigLen - 1 {
          return false;
        }
        var _ := DeleteCmd(0, cmdlineLen - 1, false);
      }
      ok := AppendCmd(buf, bootconfig);
    }

    method Execute(op: Op) returns (ok: bool)
      requires Framed() && magic == MAGIC && version == 0
      requires op.Append? || op.Set? ==> NulFree(op.buf)
      modifies this, data
      ensures Framed() && magic == MAGIC && version == 0
      ensures (Value(), ok) == Apply(old(Value()), op)
    {
      match op
      case Reset =>
        ResetCmd();
        ok := true;
      case Append(buf, b) => ok := AppendCmd(buf, b);
      case Set(buf, b) => ok := SetCmd(buf, b);
      case Delete(idx, len, b) => ok := DeleteCmd(idx, len, b);
    }

    /** Any sequence of operations from a valid record, then the checksum update
        that precedes writing: valid again, with the texts the operations give. */
    method Edit(ops: seq<Op>) returns (ok: bool)
      requires Valid() && CleanCuts(Value(), ops)
      requires forall i :: 0 <= i < |ops| && (ops[i].Append? || ops[i].Set?) ==> NulFree(ops[i].buf)
      modifies this, data
      ensures ok && Valid() && Value() == ApplyAll(old(Value()), ops)
    {
      RunsKeepStructure(Value(), ops);
      assert ops[0..] == ops;
      for i := 0 to |ops|
        invariant Framed() && magic == MAGIC && version == 0
        invariant ApplyAll(Value(), ops[i..]) == ApplyAll(old(Value()), ops)
      {
        assert ops[i..][1..] == ops[i + 1..] && ops[i..][0] == ops[i];
        var _ := Execute(ops[i]);
      }
      ok := Seal();
    }
  }
}
