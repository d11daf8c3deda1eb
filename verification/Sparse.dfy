/** The Android sparse image format as the writer reads it (src/base/sparse.c): a
    list of chunks laid one after the other over a disk region. */
module Sparse {
  import opened Basics

  const IMAGE_HEADER: nat := 28
  const CHUNK_HEADER: nat := 12
  const SPARSE_MAGIC: nat := 0xed26_ff3a
  const TYPE_RAW: nat := 0xCAC1
  const TYPE_FILL: nat := 0xCAC2
  const TYPE_DONT_CARE: nat := 0xCAC3
  const TYPE_CRC32: nat := 0xCAC4
  const U16: nat := 0x1_0000

  datatype Ret =
    | Success | NoPartition | OutOfRange | TransferError
    | TooSmall | WrongHeaderSize | WrongChunkType | WrongChunkSize

  // ---- little-endian fields

  function Half(s: seq<byte>, i: nat): nat
    requires i + 2 <= |s|
  {
    s[i] as int + 256 * (s[i + 1] as int)
  }

  function Word(s: seq<byte>, i: nat): nat
    requires i + 4 <= |s|
  {
    Half(s, i) + U16 * Half(s, i + 2)
  }

  function Le16(n: nat): (s: seq<byte>)
    ensures |s| == 2
  {
    [n % 256, n / 256 % 256]
  }

  function Le32(n: nat): (s: seq<byte>)
    ensures |s| == 4
  {
    Le16(n % U16) + Le16(n / U16)
  }

  lemma HalfOfLe16(n: nat)
    requires n < U16
    ensures Half(Le16(n), 0) == n
  {
  }

  lemma WordOfLe32(n: nat)
    requires n < U32
    ensures Word(Le32(n), 0) == n
  {
    HalfOfLe16(n % U16);
    HalfOfLe16(n / U16);
  }

  // ---- what a chunk puts on the disk

  /** `n` blocks of `blk` bytes. */
  function Times(n: nat, blk: nat): nat {
    if n == 0 then 0 else blk + Times(n - 1, blk)
  }

  lemma {:induction false} TimesIs(n: nat, blk: nat)
    ensures Times(n, blk) == n * blk
  {
    if n > 0 {
      TimesIs(n - 1, blk);
    }
  }

  datatype Chunk =
    | Raw(blocks: nat, data: seq<byte>)
    | Fill(blocks: nat, word: seq<byte>)
    | DontCare(blocks: nat)
    | Crc(blocks: nat, word: seq<byte>)

  /** One byte of the region: left alone, or written. */
  datatype Cell = Keep | Put(value: byte)

  function Size(c: Chunk, blk: nat): nat {
    Times(c.blocks, blk)
  }

  predicate Sound(c: Chunk, blk: nat) {
    match c
    case Raw(n, data) => |data| == Times(n, blk)
    case Fill(_, word) => |word| == 4
    case DontCare(_) => true
    case Crc(_, word) => |word| == 4
  }

  function Puts(data: seq<byte>): (s: seq<Cell>)
    ensures |s| == |data|
  {
    seq(|data|, i requires 0 <= i < |data| => Put(data[i]))
  }

  /** A four-byte word repeated. */
  function Pattern(word: seq<byte>, n: nat): (s: seq<byte>)
    requires |word| == 4
    ensures |s| == n
  {
    seq(n, i requires 0 <= i => word[i % 4])
  }

  function Keeps(n: nat): (s: seq<Cell>)
    ensures |s| == n
  {
    seq(n, _ => Keep)
  }

  function Content(c: Chunk, blk: nat): (s: seq<Cell>)
    requires Sound(c, blk)
    ensures |s| == Size(c, blk)
  {
    match c
    case Raw(_, data) => Puts(data)
    case Fill(n, word) => Puts(Pattern(word, Times(n, blk)))
    case DontCare(n) => Keeps(Times(n, blk))
    case Crc(n, _) => Keeps(Times(n, blk))
  }

  predicate AllSound(cs: seq<Chunk>, blk: nat) {
    forall i :: 0 <= i < |cs| ==> Sound(cs[i], blk)
  }

  /** All chunks one after the other. */
  function Contents(cs: seq<Chunk>, blk: nat): (s: seq<Cell>)
    requires AllSound(cs, blk)
    ensures |s| == Total(cs, blk)
  {
    if cs == [] then [] else Content(cs[0], blk) + Contents(cs[1..], blk)
  }

  function Total(cs: seq<Chunk>, blk: nat): nat {
    if cs == [] then 0 else Size(cs[0], blk) + Total(cs[1..], blk)
  }

  function TotalWith<C>(size: C -> nat, cs: seq<C>): nat {
    if cs == [] then 0 else size(cs[0]) + TotalWith(size, cs[1..])
  }

  lemma {:induction false} TotalIs(cs: seq<Chunk>, blk: nat)
    ensures Total(cs, blk) == TotalWith(SizeOf(blk), cs)
  {
    if cs != [] {
      TotalIs(cs[1..], blk);
    }
  }

  /** The disk with the cells laid over it from `at` on. */
  function Laid(disk: seq<byte>, at: nat, cells: seq<Cell>): (r: seq<byte>)
    requires at + |cells| <= |disk|
    ensures |r| == |disk|
  {
    seq(|disk|, i requires 0 <= i < |disk| =>
      if at <= i < at + |cells| && cells[i - at].Put? then cells[i - at].value else disk[i])
  }

  lemma LaidConcat(disk: seq<byte>, at: nat, a: seq<Cell>, b: seq<Cell>)
    requires at + |a| + |b| <= |disk|
    ensures Laid(Laid(disk, at, a), at + |a|, b) == Laid(disk, at, a + b)
  {
  }

  lemma LaidNothing(disk: seq<byte>, at: nat)
    requires at <= |disk|
    ensures Laid(disk, at, []) == disk
  {
  }

  // ---- the expansion, said byte by byte

  /** Where chunk `k` starts. */
  function Offset(cs: seq<Chunk>, blk: nat, k: nat): nat
    requires k <= |cs|
    decreases cs
  {
    if k == 0 then 0 else Size(cs[0], blk) + Offset(cs[1..], blk, k - 1)
  }

  lemma {:induction false} OffsetFits(cs: seq<Chunk>, blk: nat, k: nat)
    requires k < |cs|
    ensures Offset(cs, blk, k) + Size(cs[k], blk) <= Total(cs, blk)
    decreases cs
  {
    if k > 0 {
      OffsetFits(cs[1..], blk, k - 1);
    }
  }

  /** Byte `j` of chunk `k` is what the chunk says: its data, its word repeated, or
      what was there before. */
  ghost predicate Shows(d: seq<byte>, d': seq<byte>, at: nat, cs: seq<Chunk>, blk: nat, k: nat, j: nat)
    requires k < |cs| && AllSound(cs, blk) && j < Size(cs[k], blk) && at + Total(cs, blk) <= |d| == |d'|
  {
    OffsetFits(cs, blk, k);
    var x := at + Offset(cs, blk, k) + j;
    match cs[k]
    case Raw(_, data) => d'[x] == data[j]
    case Fill(_, word) => d'[x] == word[j % 4]
    case DontCare(_) => d'[x] == d[x]
    case Crc(_, _) => d'[x] == d[x]
  }

  /** `d'` is the expansion of the chunks over `d`: every byte of every chunk shows,
      and nothing outside them differs. */
  ghost predicate Expansion(d: seq<byte>, d': seq<byte>, at: nat, cs: seq<Chunk>, blk: nat)
    requires AllSound(cs, blk) && at + Total(cs, blk) <= |d|
  {
    && |d'| == |d|
    && (forall x {:trigger d'[x]} :: 0 <= x < |d| && !(at <= x < at + Total(cs, blk)) ==> d'[x] == d[x])
    && (forall k, j {:trigger Shows(d, d', at, cs, blk, k, j)} ::
          0 <= k < |cs| && 0 <= j < Size(cs[k], blk) ==> Shows(d, d', at, cs, blk, k, j))
  }

  /** Byte `j` of chunk `k` in the concatenation of all contents. */
  lemma {:induction false} ContentsAt(cs: seq<Chunk>, blk: nat, k: nat, j: nat)
    requires AllSound(cs, blk) && k < |cs| && j < Size(cs[k], blk)
    ensures Offset(cs, blk, k) + j < Total(cs, blk)
    ensures Contents(cs, blk)[Offset(cs, blk, k) + j] == Content(cs[k], blk)[j]
    decreases cs
  {
    OffsetFits(cs, blk, k);
    if k > 0 {
      ContentsAt(cs[1..], blk, k - 1, j);
    }
  }

  lemma {:induction false} LaidShows(d: seq<byte>, at: nat, cs: seq<Chunk>, blk: nat, k: nat, j: nat)
    requires AllSound(cs, blk) && at + Total(cs, blk) <= |d| && k < |cs| && j < Size(cs[k], blk)
    ensures Shows(d, Laid(d, at, Contents(cs, blk)), at, cs, blk, k, j)
  {
    var o := Offset(cs, blk, k) + j;
    ContentsAt(cs, blk, k, j);
    assert Sound(cs[k], blk);
    CellOf(cs[k], blk, j);
    LaidAt(d, at, Contents(cs, blk), o);
    assert at + o == at + Offset(cs, blk, k) + j;
  }

  lemma LaidAt(d: seq<byte>, at: nat, cells: seq<Cell>, o: nat)
    requires at + |cells| <= |d| && o < |cells|
    ensures Laid(d, at, cells)[at + o] == if cells[o].Put? then cells[o].value else d[at + o]
  {
  }

  lemma CellOf(c: Chunk, blk: nat, j: nat)
    requires Sound(c, blk) && j < Size(c, blk)
    ensures Content(c, blk)[j] ==
            match c
            case Raw(_, data) => Put(data[j])
            case Fill(_, word) => Put(word[j % 4])
            case DontCare(_) => Keep
            case Crc(_, _) => Keep
  {
  }

  /** Every byte below the total belongs to a chunk. */
  lemma {:induction false} ChunkOf(cs: seq<Chunk>, blk: nat, x: nat) returns (k: nat, j: nat)
    requires x < Total(cs, blk)
    ensures k < |cs| && j < Size(cs[k], blk) && x == Offset(cs, blk, k) + j
    decreases cs
  {
    if x < Size(cs[0], blk) {
      k, j := 0, x;
    } else {
      k, j := ChunkOf(cs[1..], blk, x - Size(cs[0], blk));
      k := k + 1;
    }
  }

  lemma {:induction false} ShownIsSame(
    d: seq<byte>, a: seq<byte>, b: seq<byte>, at: nat, cs: seq<Chunk>, blk: nat, k: nat, j: nat)
    requires k < |cs| && AllSound(cs, blk) && j < Size(cs[k], blk) && at + Total(cs, blk) <= |d| == |a| == |b|
    requires Shows(d, a, at, cs, blk, k, j) && Shows(d, b, at, cs, blk, k, j)
    ensures at + Offset(cs, blk, k) + j < |d| && a[at + Offset(cs, blk, k) + j] == b[at + Offset(cs, blk, k) + j]
  {
    OffsetFits(cs, blk, k);
  }

  /** Laying the cells gives the expansion, and there is no other. */
  lemma {:induction false} LaidIsExpansion(d: seq<byte>, d': seq<byte>, at: nat, cs: seq<Chunk>, blk: nat)
    requires AllSound(cs, blk) && at + Total(cs, blk) <= |d|
    ensures Expansion(d, d', at, cs, blk) <==> d' == Laid(d, at, Contents(cs, blk))
  {
    var l := Laid(d, at, Contents(cs, blk));
    forall k, j {:trigger Shows(d, l, at, cs, blk, k, j)} | 0 <= k < |cs| && 0 <= j < Size(cs[k], blk)
      ensures Shows(d, l, at, cs, blk, k, j)
    {
      LaidShows(d, at, cs, blk, k, j);
    }
    if Expansion(d, d', at, cs, blk) {
      forall x | 0 <= x < |d|
        ensures d'[x] == l[x]
      {
        if at <= x < at + Total(cs, blk) {
          var k, j := ChunkOf(cs, blk, x - at);
          assert Shows(d, d', at, cs, blk, k, j) && Shows(d, l, at, cs, blk, k, j);
          ShownIsSame(d, d', l, at, cs, blk, k, j);
        }
      }
    }
  }

  // ---- reading one chunk

  /** A chunk and the image behind it, or why there is none. */
  datatype Parsed<S, C> = Bad(ret: Ret) | Good(chunk: C, rest: S)

  /** The chunk at the front of `s`, for a region that starts at `at` with `room`
      bytes left. The driver fills from addresses that are a multiple of four
      only. */
  function ParseChunk(s: seq<byte>, blk: nat, at: nat, room: nat): (p: Parsed<seq<byte>, Chunk>)
    ensures p.Good? ==> Size(p.chunk, blk) <= room
  {
    if |s| < CHUNK_HEADER then Bad(TooSmall) else
    var n := Word(s, 4);
    var size := Times(n, blk);
    if room < size then Bad(OutOfRange)
    else ParseBody(Half(s, 0), n, Word(s, 8), s[CHUNK_HEADER..], size, at)
  }

  /** The same, from the fields of the header and what is behind it. */
  function ParseBody(ty: nat, n: nat, total: nat, body: seq<byte>, size: nat, at: nat): (p: Parsed<seq<byte>, Chunk>)
    ensures p.Good? ==> p.chunk.blocks == n
  {
    if ty == TYPE_RAW then
      if size + CHUNK_HEADER != total then Bad(WrongChunkSize)
      else if |body| < size then Bad(TooSmall)
      else Good(Raw(n, body[..size]), body[size..])
    else if ty == TYPE_FILL then
      if CHUNK_HEADER + 4 != total then Bad(WrongChunkSize)
      else if |body| < 4 then Bad(TooSmall)
      else if size > 0 && at % 4 != 0 then Bad(TransferError)
      else Good(Fill(n, body[..4]), body[4..])
    else if ty == TYPE_DONT_CARE then
      if CHUNK_HEADER != total then Bad(WrongChunkSize) else Good(DontCare(n), body)
    else if ty == TYPE_CRC32 then
      if CHUNK_HEADER + 4 != total then Bad(WrongChunkSize)
      else if |body| < 4 then Bad(TooSmall)
      else Good(Crc(n, body[..4]), body[4..])
    else Bad(WrongChunkType)
  }

  function ReaderOf(blk: nat): (seq<byte>, nat, int) -> Parsed<seq<byte>, Chunk> {
    (s: seq<byte>, at: nat, room: int) => if room < 0 then Bad(OutOfRange) else ParseChunk(s, blk, at, room)
  }

  function SizeOf(blk: nat): Chunk -> nat {
    c => Size(c, blk)
  }

  /** Read the next `n` chunks from any kind of stream, each behind the last: the
      verdict, and the chunks before it. */
  function WalkWith<S, C>(
    read: (S, nat, int) -> Parsed<S, C>, size: C -> nat, s: S, n: nat, at: nat, room: int): (Ret, seq<C>)
    decreases n, s
  {
    if n == 0 then (Success, []) else
    match read(s, at, room)
    case Bad(ret) => (ret, [])
    case Good(c, rest) =>
      var r := WalkWith(read, size, rest, n - 1, at + size(c), room - size(c));
      (r.0, [c] + r.1)
  }

  /** The next `n` chunks of an image. */
  function Walk(s: seq<byte>, n: nat, blk: nat, at: nat, room: nat): (Ret, seq<Chunk>) {
    WalkWith(ReaderOf(blk), SizeOf(blk), s, n, at, room)
  }

  lemma {:induction false} WalkWithStep<S, C>(
    read: (S, nat, int) -> Parsed<S, C>, size: C -> nat, s: S, n: nat, at: nat, room: int, p: Parsed<S, C>)
    requires n > 0 && read(s, at, room) == p
    ensures WalkWith(read, size, s, n, at, room) ==
            match p
            case Bad(ret) => (ret, [])
            case Good(c, rest) =>
              var w := WalkWith(read, size, rest, n - 1, at + size(c), room - size(c));
              (w.0, [c] + w.1)
  {
  }

  lemma {:induction false} WalkStep(s: seq<byte>, n: nat, blk: nat, at: nat, room: nat, p: Parsed<seq<byte>, Chunk>)
    requires n > 0 && ParseChunk(s, blk, at, room) == p
    ensures Walk(s, n, blk, at, room) ==
            match p
            case Bad(ret) => (ret, [])
            case Good(c, rest) =>
              var w := Walk(rest, n - 1, blk, at + Size(c, blk), room - Size(c, blk));
              (w.0, [c] + w.1)
  {
    WalkWithStep(ReaderOf(blk), SizeOf(blk), s, n, at, room, p);
  }

  /** The whole image: the verdict, and the chunks to lay before it. */
  function Verdict(image: seq<byte>, at: nat, room: nat): (Ret, seq<Chunk>) {
    if |image| < IMAGE_HEADER then (TooSmall, [])
    else if Half(image, 8) != IMAGE_HEADER || Half(image, 10) != CHUNK_HEADER then (WrongHeaderSize, [])
    else Walk(image[IMAGE_HEADER..], Word(image, 20), Word(image, 12), at, room)
  }

  /** The block size an image declares. */
  function BlockSize(image: seq<byte>): nat {
    if |image| < IMAGE_HEADER then 0 else Word(image, 12)
  }

  lemma ParseSound(s: seq<byte>, blk: nat, at: nat, room: nat)
    ensures var p := ParseChunk(s, blk, at, room);
            if p.Good? then Sound(p.chunk, blk) else p.ret != Success
  {
  }

  lemma {:induction false} WalkWithSound<S(!new), C>(
    read: (S, nat, int) -> Parsed<S, C>, size: C -> nat, ok: C -> bool, s: S, n: nat, at: nat, room: int)
    requires room >= 0
    requires forall s, at, room {:trigger read(s, at, room)} ::
               read(s, at, room).Good? ==> ok(read(s, at, room).chunk) && size(read(s, at, room).chunk) <= room
    ensures var cs := WalkWith(read, size, s, n, at, room).1;
            (forall i :: 0 <= i < |cs| ==> ok(cs[i])) && TotalWith(size, cs) <= room
    decreases n
  {
    if n > 0 {
      var p := read(s, at, room);
      if p.Good? {
        var c := p.chunk;
        WalkWithSound(read, size, ok, p.rest, n - 1, at + size(c), room - size(c));
        var cs := WalkWith(read, size, p.rest, n - 1, at + size(c), room - size(c)).1;
        assert ([c] + cs)[1..] == cs;
      }
    }
  }

  /** What is read is sound and fits the region. */
  lemma {:induction false} WalkSound(s: seq<byte>, n: nat, blk: nat, at: nat, room: nat)
    ensures AllSound(Walk(s, n, blk, at, room).1, blk) && Total(Walk(s, n, blk, at, room).1, blk) <= room
  {
    forall s, at, room: nat {
      ParseSound(s, blk, at, room);
    }
    WalkWithSound(ReaderOf(blk), SizeOf(blk), c => Sound(c, blk), s, n, at, room);
    TotalIs(Walk(s, n, blk, at, room).1, blk);
  }

  lemma VerdictSound(image: seq<byte>, at: nat, room: nat)
    ensures AllSound(Verdict(image, at, room).1, BlockSize(image))
    ensures Total(Verdict(image, at, room).1, BlockSize(image)) <= room
  {
    if |image| >= IMAGE_HEADER {
      WalkSound(image[IMAGE_HEADER..], Word(image, 20), Word(image, 12), at, room);
    }
  }

  // ---- the format, byte by byte

  function Bytes4(s: seq<byte>, i: nat): nat
    requires i + 4 <= |s|
  {
    s[i] as int + 0x100 * (s[i + 1] as int) + 0x1_0000 * (s[i + 2] as int) + 0x100_0000 * (s[i + 3] as int)
  }

  lemma WordIs(s: seq<byte>, i: nat)
    requires i + 4 <= |s|
    ensures Word(s, i) == Bytes4(s, i)
  {
  }

  /** What the twelve bytes of a chunk header ask for: type, blocks, total size. Types C1 CA
      to C4 CA are raw data, a fill, a gap and a checksum; all else is refused. */
  lemma {:induction false} ChunkByBytes(s: seq<byte>, blk: nat, at: nat, room: nat)
    requires |s| >= 12
    ensures var n, total, body := Bytes4(s, 4), Bytes4(s, 8), s[12..];
            var p := ParseChunk(s, blk, at, room);
            if n * blk > room then p == Bad(OutOfRange)
            else if s[..2] == [0xC1, 0xCA] then
              if total != 12 + n * blk then p == Bad(WrongChunkSize)
              else if |body| < n * blk then p == Bad(TooSmall)
              else p == Good(Raw(n, body[..n * blk]), body[n * blk..])
            else if s[..2] == [0xC2, 0xCA] then
              if total != 16 then p == Bad(WrongChunkSize)
              else if |body| < 4 then p == Bad(TooSmall)
              else if n * blk > 0 && at % 4 != 0 then p == Bad(TransferError)
              else p == Good(Fill(n, body[..4]), body[4..])
            else if s[..2] == [0xC3, 0xCA] then
              if total != 12 then p == Bad(WrongChunkSize) else p == Good(DontCare(n), body)
            else if s[..2] == [0xC4, 0xCA] then
              if total != 16 then p == Bad(WrongChunkSize)
              else if |body| < 4 then p == Bad(TooSmall)
              else p == Good(Crc(n, body[..4]), body[4..])
            else p == Bad(WrongChunkType)
  {
    WordIs(s, 4);
    WordIs(s, 8);
    TimesIs(Word(s, 4), blk);
    TypeByBytes(s);
  }

  lemma TypeByBytes(s: seq<byte>)
    requires |s| >= 12
    ensures Half(s, 0) == TYPE_RAW <==> s[..2] == [0xC1, 0xCA]
    ensures Half(s, 0) == TYPE_FILL <==> s[..2] == [0xC2, 0xCA]
    ensures Half(s, 0) == TYPE_DONT_CARE <==> s[..2] == [0xC3, 0xCA]
    ensures Half(s, 0) == TYPE_CRC32 <==> s[..2] == [0xC4, 0xCA]
  {
    assert s[..2] == [s[0], s[1]];
  }

  /** A header too short for its fields is refused. */
  lemma ShortChunk(s: seq<byte>, blk: nat, at: nat, room: nat)
    requires |s| < 12
    ensures ParseChunk(s, blk, at, room) == Bad(TooSmall)
  {
  }

  /** What the image header asks for: header sizes 28 and 12, the block size at byte 12
      and the number of chunks at byte 20. */
  lemma {:induction false} ImageByBytes(s: seq<byte>, at: nat, room: nat)
    ensures |s| < 28 ==> Verdict(s, at, room) == (TooSmall, [])
    ensures |s| >= 28 ==>
              Verdict(s, at, room) ==
              if s[8..12] != [28, 0, 12, 0] then (WrongHeaderSize, [])
              else Walk(s[28..], Bytes4(s, 20), Bytes4(s, 12), at, room)
  {
    if |s| >= 28 {
      WordIs(s, 12);
      WordIs(s, 20);
      assert s[8..12] == [s[8], s[9], s[10], s[11]];
    }
  }

  // ---- writing the format

  function TypeOf(c: Chunk): nat {
    match c
    case Raw(_, _) => TYPE_RAW
    case Fill(_, _) => TYPE_FILL
    case DontCare(_) => TYPE_DONT_CARE
    case Crc(_, _) => TYPE_CRC32
  }

  function Payload(c: Chunk): seq<byte> {
    match c
    case Raw(_, data) => data
    case Fill(_, word) => word
    case DontCare(_) => []
    case Crc(_, word) => word
  }

  function EncodeChunk(c: Chunk): seq<byte> {
    Le16(TypeOf(c)) + Le16(0) + Le32(c.blocks) + Le32(CHUNK_HEADER + |Payload(c)|) + Payload(c)
  }

  function EncodeChunks(cs: seq<Chunk>): seq<byte> {
    if cs == [] then [] else EncodeChunk(cs[0]) + EncodeChunks(cs[1..])
  }

  function AllBlocks(cs: seq<Chunk>): nat {
    if cs == [] then 0 else cs[0].blocks + AllBlocks(cs[1..])
  }

  function EncodeImage(cs: seq<Chunk>, blk: nat): seq<byte> {
    Le32(SPARSE_MAGIC) + Le16(1) + Le16(0) + Le16(IMAGE_HEADER) + Le16(CHUNK_HEADER) + Le32(blk)
    + Le32(AllBlocks(cs)) + Le32(|cs|) + Le32(0) + EncodeChunks(cs)
  }

  /** Chunks the format can express: sizes that fit their fields. */
  predicate Encodable(c: Chunk, blk: nat) {
    Sound(c, blk) && c.blocks < U32 && CHUNK_HEADER + |Payload(c)| < U32
  }

  ghost predicate AllEncodable(cs: seq<Chunk>, blk: nat) {
    forall i :: 0 <= i < |cs| ==> Encodable(cs[i], blk)
  }

  /** Fills start at multiples of four when every chunk does. */
  ghost predicate Aligned(cs: seq<Chunk>, blk: nat, at: nat)
    decreases cs
  {
    cs != [] ==>
      && (cs[0].Fill? && Size(cs[0], blk) > 0 ==> at % 4 == 0)
      && Aligned(cs[1..], blk, at + Size(cs[0], blk))
  }

  lemma HalfAt(a: seq<byte>, n: nat, b: seq<byte>)
    requires n < U16
    ensures Half(a + Le16(n) + b, |a|) == n
  {
    HalfOfLe16(n);
  }

  lemma WordAt(a: seq<byte>, n: nat, b: seq<byte>)
    requires n < U32
    ensures Word(a + Le32(n) + b, |a|) == n
  {
    WordOfLe32(n);
    var s, w := a + Le32(n) + b, Le32(n);
    assert s[|a|] == w[0] && s[|a| + 1] == w[1] && s[|a| + 2] == w[2] && s[|a| + 3] == w[3];
  }

  lemma {:induction false} HeaderFields(c: Chunk, blk: nat, rest: seq<byte>)
    requires Encodable(c, blk)
    ensures var s := EncodeChunk(c) + rest;
            && |s| == CHUNK_HEADER + |Payload(c)| + |rest|
            && Half(s, 0) == TypeOf(c) && Word(s, 4) == c.blocks && Word(s, 8) == CHUNK_HEADER + |Payload(c)|
            && s[CHUNK_HEADER..] == Payload(c) + rest
  {
    var s := EncodeChunk(c) + rest;
    var ty, zero, n := Le16(TypeOf(c)), Le16(0), Le32(c.blocks);
    var total, pay := Le32(CHUNK_HEADER + |Payload(c)|), Payload(c);
    assert s == [] + ty + (zero + n + total + pay + rest);
    HalfAt([], TypeOf(c), zero + n + total + pay + rest);
    assert s == (ty + zero) + n + (total + pay + rest);
    WordAt(ty + zero, c.blocks, total + pay + rest);
    assert s == (ty + zero + n) + total + (pay + rest);
    WordAt(ty + zero + n, CHUNK_HEADER + |Payload(c)|, pay + rest);
    assert s == (ty + zero + n + total) + (pay + rest);
  }

  lemma {:induction false} BodyEncoded(c: Chunk, blk: nat, rest: seq<byte>, at: nat)
    requires Sound(c, blk) && (c.Fill? && Size(c, blk) > 0 ==> at % 4 == 0)
    ensures ParseBody(TypeOf(c), c.blocks, CHUNK_HEADER + |Payload(c)|, Payload(c) + rest, Size(c, blk), at) ==
            Good(c, rest)
  {
    var pay := Payload(c);
    assert (pay + rest)[..|pay|] == pay && (pay + rest)[|pay|..] == rest;
  }

  /** What is written for a chunk is read back as that chunk. */
  lemma {:induction false} ParseEncoded(c: Chunk, blk: nat, rest: seq<byte>, at: nat, room: nat)
    requires Encodable(c, blk) && Size(c, blk) <= room
    requires c.Fill? && Size(c, blk) > 0 ==> at % 4 == 0
    ensures ParseChunk(EncodeChunk(c) + rest, blk, at, room) == Good(c, rest)
  {
    HeaderFields(c, blk, rest);
    BodyEncoded(c, blk, rest, at);
  }

  lemma {:induction false} EncodeFirst(cs: seq<Chunk>, rest: seq<byte>)
    requires cs != []
    ensures EncodeChunks(cs) + rest == EncodeChunk(cs[0]) + (EncodeChunks(cs[1..]) + rest)
  {
    Assoc(EncodeChunk(cs[0]), EncodeChunks(cs[1..]), rest);
  }

  /** The stream of a chunk list gives its first chunk and the stream of the rest,
      for each of its ends in turn. */
  ghost predicate ReadsBack<S, C>(
    read: (S, nat, int) -> Parsed<S, C>, size: C -> nat, stream: seq<C> -> S, cs: seq<C>, at: nat)
    decreases cs
  {
    cs != [] ==>
      && (forall room: int {:trigger read(stream(cs), at, room)} ::
            size(cs[0]) <= room ==> read(stream(cs), at, room) == Good(cs[0], stream(cs[1..])))
      && ReadsBack(read, size, stream, cs[1..], at + size(cs[0]))
  }

  lemma {:induction false} WalkWithReadsBack<S, C>(
    read: (S, nat, int) -> Parsed<S, C>, size: C -> nat, stream: seq<C> -> S, cs: seq<C>, at: nat, room: int)
    requires ReadsBack(read, size, stream, cs, at) && TotalWith(size, cs) <= room
    ensures WalkWith(read, size, stream(cs), |cs|, at, room) == (Success, cs)
    decreases cs
  {
    if cs != [] {
      var c, tail := cs[0], cs[1..];
      WalkWithReadsBack(read, size, stream, tail, at + size(c), room - size(c));
      assert read(stream(cs), at, room) == Good(c, stream(tail));
      assert cs == [c] + tail;
    }
  }

  /** What the encoder writes, in front of `rest`. */
  function StreamOf(rest: seq<byte>): seq<Chunk> -> seq<byte> {
    cs => EncodeChunks(cs) + rest
  }

  lemma {:induction false} EncodedReadsBack(cs: seq<Chunk>, blk: nat, rest: seq<byte>, at: nat)
    requires AllEncodable(cs, blk) && Aligned(cs, blk, at)
    ensures ReadsBack(ReaderOf(blk), SizeOf(blk), StreamOf(rest), cs, at)
    decreases cs
  {
    if cs != [] {
      var c, more := cs[0], EncodeChunks(cs[1..]) + rest;
      assert Encodable(c, blk);
      EncodeFirst(cs, rest);
      forall room: int | SizeOf(blk)(c) <= room
        ensures ReaderOf(blk)(StreamOf(rest)(cs), at, room) == Good(c, StreamOf(rest)(cs[1..]))
      {
        ParseEncoded(c, blk, more, at, room);
      }
      EncodedReadsBack(cs[1..], blk, rest, at + Size(c, blk));
    }
  }

  lemma {:induction false} WalkEncoded(cs: seq<Chunk>, blk: nat, rest: seq<byte>, at: nat, room: nat)
    requires AllEncodable(cs, blk) && Total(cs, blk) <= room && Aligned(cs, blk, at)
    ensures Walk(EncodeChunks(cs) + rest, |cs|, blk, at, room) == (Success, cs)
  {
    TotalIs(cs, blk);
    EncodedReadsBack(cs, blk, rest, at);
    WalkWithReadsBack(ReaderOf(blk), SizeOf(blk), StreamOf(rest), cs, at, room);
  }

  /** The fields of an image header between two others. */
  lemma {:induction false} FieldsAt(a: seq<byte>, n1: nat, n2: nat, n3: nat, e: seq<byte>, n4: nat, rest: seq<byte>)
    requires |a| == 8 && |e| == 4 && n1 < U16 && n2 < U16 && n3 < U32 && n4 < U32
    ensures var s := a + Le16(n1) + Le16(n2) + Le32(n3) + e + Le32(n4) + rest;
            && |s| == 24 + |rest| && s[24..] == rest
            && Half(s, 8) == n1 && Half(s, 10) == n2 && Word(s, 12) == n3 && Word(s, 20) == n4
  {
    var b, c, d, f := Le16(n1), Le16(n2), Le32(n3), Le32(n4);
    var s := a + b + c + d + e + f + rest;
    assert s == a + b + (c + d + e + f + rest);
    HalfAt(a, n1, c + d + e + f + rest);
    assert s == (a + b) + c + (d + e + f + rest);
    HalfAt(a + b, n2, d + e + f + rest);
    assert s == (a + b + c) + d + (e + f + rest);
    WordAt(a + b + c, n3, e + f + rest);
    WordAt(a + b + c + d + e, n4, rest);
  }

  lemma BehindWord(a: seq<byte>, w: seq<byte>, b: seq<byte>)
    requires |a| == 24 && |w| == 4
    ensures |a + (w + b)| >= IMAGE_HEADER && (a + (w + b))[IMAGE_HEADER..] == b
  {
  }

  lemma {:induction false} ImageFields(cs: seq<Chunk>, blk: nat)
    requires blk < U32 && |cs| < U32
    ensures var s := EncodeImage(cs, blk);
            && |s| >= IMAGE_HEADER && s[IMAGE_HEADER..] == EncodeChunks(cs)
            && Half(s, 8) == IMAGE_HEADER && Half(s, 10) == CHUNK_HEADER
            && Word(s, 12) == blk && Word(s, 20) == |cs|
  {
    var body := Le32(0) + EncodeChunks(cs);
    var front := Le32(SPARSE_MAGIC) + Le16(1) + Le16(0);
    FieldsAt(front, IMAGE_HEADER, CHUNK_HEADER, blk, Le32(AllBlocks(cs)), |cs|, body);
    var s := front + Le16(IMAGE_HEADER) + Le16(CHUNK_HEADER) + Le32(blk) + Le32(AllBlocks(cs)) + Le32(|cs|);
    Assoc(s, Le32(0), EncodeChunks(cs));
    BehindWord(s, Le32(0), EncodeChunks(cs));
  }

  /** Expanding an encoded image gives its chunks, whenever they fit the region. */
  lemma {:induction false} VerdictOfEncoded(cs: seq<Chunk>, blk: nat, at: nat, room: nat)
    requires blk < U32 && |cs| < U32 && AllEncodable(cs, blk) && Total(cs, blk) <= room && Aligned(cs, blk, at)
    ensures Verdict(EncodeImage(cs, blk), at, room) == (Success, cs)
  {
    ImageFields(cs, blk);
    WalkEncoded(cs, blk, [], at, room);
    assert EncodeChunks(cs) + [] == EncodeChunks(cs);
  }

  /** With block sizes that are multiples of four every fill is aligned. */
  lemma {:induction false} BlocksAreAligned(cs: seq<Chunk>, blk: nat, at: nat)
    requires blk % 4 == 0 && at % 4 == 0
    ensures Aligned(cs, blk, at)
    decreases cs
  {
    if cs != [] {
      TimesMultipleOfFour(cs[0].blocks, blk);
      BlocksAreAligned(cs[1..], blk, at + Size(cs[0], blk));
    }
  }

  lemma {:induction false} TimesMultipleOfFour(n: nat, blk: nat)
    requires blk % 4 == 0
    ensures Times(n, blk) % 4 == 0
  {
    if n > 0 {
      TimesMultipleOfFour(n - 1, blk);
    }
  }
}
