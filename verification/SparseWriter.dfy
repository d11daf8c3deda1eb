/** Writing images to partitions: the sparse writer with its cursor over the image
    (src/base/sparse.c), called from the partition writer (src/base/gpt.c). */
module SparseWriter {
  import opened Basics
  import opened Iteration
  import opened Sparse

  /** Outside `[lo, hi)` nothing differs. */
  ghost predicate SameOutside(d: seq<byte>, d': seq<byte>, lo: nat, hi: nat) {
    |d'| == |d| && forall i :: 0 <= i < |d| && !(lo <= i < hi) ==> d'[i] == d[i]
  }

  /** A block device: the next `budget` writes succeed, the one after that writes
      only some of its bytes. */
  class Device {
    var disk: seq<byte>
    const partial: nat
    var budget: nat

    constructor (disk: seq<byte>, budget: nat, partial: nat)
      ensures this.disk == disk && this.budget == budget
    {
      this.disk, this.budget, this.partial := disk, budget, partial;
    }

    method WriteBytes(at: nat, data: seq<byte>) returns (written: nat)
      requires at + |data| <= |disk|
      modifies this
      ensures written == |data| <==> data == [] || old(budget) > 0
      ensures written == |data| ==> disk == Laid(old(disk), at, Puts(data)) && budget + 1 >= old(budget)
      ensures SameOutside(old(disk), disk, at, at + |data|)
    {
      written := |data|;
      if data == [] {
        LaidNothing(disk, at);
        return;
      }
      if budget == 0 {
        written := if partial < |data| then partial else 0;
      } else {
        budget := budget - 1;
      }
      if written == |data| {
        OverIsLaid(disk, at, data);
      }
      disk := disk[..at] + data[..written] + disk[at + written..];
    }

    method FillWriteBytes(at: nat, size: nat, word: seq<byte>) returns (written: nat)
      requires at + size <= |disk| && |word| == 4
      modifies this
      ensures written == size <==> size == 0 || (at % 4 == 0 && old(budget) > 0)
      ensures written == size ==> disk == Laid(old(disk), at, Puts(Pattern(word, size))) && budget + 1 >= old(budget)
      ensures size > 0 && at % 4 != 0 ==> disk == old(disk) && budget == old(budget)
      ensures SameOutside(old(disk), disk, at, at + size)
    {
      if size > 0 && at % 4 != 0 {
        return 0;
      }
      written := WriteBytes(at, Pattern(word, size));
    }
  }

  lemma OverIsLaid(disk: seq<byte>, at: nat, data: seq<byte>)
    requires at + |data| <= |disk|
    ensures disk[..at] + data[..|data|] + disk[at + |data|..] == Laid(disk, at, Puts(data))
  {
  }

  /** The cursor over the image. */
  class ImgBuff {
    const image: seq<byte>
    var pos: nat
    var size: nat

    ghost predicate Valid()
      reads this
    {
      pos + size == |image|
    }

    ghost function Rest(): seq<byte>
      requires Valid()
      reads this
    {
      image[pos..]
    }

    constructor (image: seq<byte>)
      ensures Valid() && this.image == image && pos == 0 && Rest() == image
    {
      this.image, pos, size := image, 0, |image|;
    }

    /** img_buff_advance: the next `n` bytes, or NULL; never past the end. */
    method Advance(n: nat) returns (data: Option<seq<byte>>)
      requires Valid()
      modifies this
      ensures Valid()
      ensures if n <= |old(Rest())| then data == Some(old(Rest())[..n]) && Rest() == old(Rest())[n..]
              else data == None && Rest() == old(Rest())
    {
      if size < n {
        return None;
      }
      ghost var rest := Rest();
      data := Some(image[pos..pos + n]);
      assert rest[..n] == image[pos..pos + n] && rest[n..] == image[pos + n..];
      pos, size := pos + n, size - n;
    }
  }

  lemma HeaderOf(s: seq<byte>, h: seq<byte>)
    requires |s| >= CHUNK_HEADER && h == s[..CHUNK_HEADER]
    ensures Half(h, 0) == Half(s, 0) && Word(h, 4) == Word(s, 4) && Word(h, 8) == Word(s, 8)
  {
  }

  /** The result of one chunk, with the cursor behind it on success. */
  ghost predicate BodyDone(
    p: Parsed<seq<byte>, Chunk>, ret: Ret, rest: seq<byte>, d: seq<byte>, d': seq<byte>, blk: nat, at: nat, faultless: bool)
  {
    match p
    case Bad(r) => ret == r && d' == d
    case Good(c, behind) =>
      && (faultless ==> ret == Success)
      && (if ret == Success
          then rest == behind && Sound(c, blk) && at + Size(c, blk) <= |d| && d' == Laid(d, at, Content(c, blk))
          else ret == TransferError)
  }

  method RawBody(dev: Device, buff: ImgBuff, n: nat, total: nat, size: nat, at: nat, ghost blk: nat) returns (ret: Ret)
    requires buff.Valid() && at + size <= |dev.disk| && size == Times(n, blk)
    modifies dev, buff
    ensures buff.Valid() && SameOutside(old(dev.disk), dev.disk, at, at + size)
    ensures BodyDone(ParseBody(TYPE_RAW, n, total, old(buff.Rest()), size, at), ret, buff.Rest(),
                     old(dev.disk), dev.disk, blk, at, old(dev.budget) > 0)
    ensures ret == Success ==> dev.budget + 1 >= old(dev.budget)
  {
    if size + CHUNK_HEADER != total {
      return WrongChunkSize;
    }
    var data := buff.Advance(size);
    if data.None? {
      return TooSmall;
    }
    var written := dev.WriteBytes(at, data.value);
    ret := if written != size then TransferError else Success;
  }

  method FillBody(dev: Device, buff: ImgBuff, n: nat, total: nat, size: nat, at: nat, ghost blk: nat) returns (ret: Ret)
    requires buff.Valid() && at + size <= |dev.disk| && size == Times(n, blk)
    modifies dev, buff
    ensures buff.Valid() && SameOutside(old(dev.disk), dev.disk, at, at + size)
    ensures BodyDone(ParseBody(TYPE_FILL, n, total, old(buff.Rest()), size, at), ret, buff.Rest(),
                     old(dev.disk), dev.disk, blk, at, old(dev.budget) > 0)
    ensures ret == Success ==> dev.budget + 1 >= old(dev.budget)
  {
    if 4 + CHUNK_HEADER != total {
      return WrongChunkSize;
    }
    var word := buff.Advance(4);
    if word.None? {
      return TooSmall;
    }
    var written := dev.FillWriteBytes(at, size, word.value);
    ret := if written != size then TransferError else Success;
  }

  lemma LaidKeeps(d: seq<byte>, at: nat, n: nat)
    requires at + n <= |d|
    ensures Laid(d, at, Keeps(n)) == d
  {
  }

  method SkipBody(dev: Device, buff: ImgBuff, ty: nat, n: nat, total: nat, ghost size: nat, ghost at: nat, ghost blk: nat)
    returns (ret: Ret)
    requires buff.Valid() && at + size <= |dev.disk| && size == Times(n, blk)
    requires ty == TYPE_DONT_CARE || ty == TYPE_CRC32
    modifies buff
    ensures buff.Valid()
    ensures BodyDone(ParseBody(ty, n, total, old(buff.Rest()), size, at), ret, buff.Rest(),
                     dev.disk, dev.disk, blk, at, true)
  {
    LaidKeeps(dev.disk, at, size);
    var extra := if ty == TYPE_CRC32 then 4 else 0;
    if extra + CHUNK_HEADER != total {
      return WrongChunkSize;
    }
    if ty == TYPE_CRC32 {
      var word := buff.Advance(4);
      if word.None? {
        return TooSmall;
      }
    }
    return Success;
  }

  /** The switch on the chunk type. */
  method WriteBody(dev: Device, buff: ImgBuff, ty: nat, n: nat, total: nat, size: nat, at: nat, ghost blk: nat)
    returns (ret: Ret)
    requires buff.Valid() && at + size <= |dev.disk| && size == Times(n, blk)
    modifies dev, buff
    ensures buff.Valid() && SameOutside(old(dev.disk), dev.disk, at, at + size)
    ensures BodyDone(ParseBody(ty, n, total, old(buff.Rest()), size, at), ret, buff.Rest(),
                     old(dev.disk), dev.disk, blk, at, old(dev.budget) > 0)
    ensures ret == Success ==> dev.budget + 1 >= old(dev.budget)
  {
    if ty == TYPE_RAW {
      ret := RawBody(dev, buff, n, total, size, at, blk);
    } else if ty == TYPE_FILL {
      ret := FillBody(dev, buff, n, total, size, at, blk);
    } else if ty == TYPE_DONT_CARE || ty == TYPE_CRC32 {
      ret := SkipBody(dev, buff, ty, n, total, size, at, blk);
    } else {
      ret := WrongChunkType;
    }
  }

  /** One pass of the chunk loop. */
  method WriteChunk(dev: Device, buff: ImgBuff, blk: nat, partStart: nat, partSize: nat) returns (ret: Ret, size: nat)
    requires buff.Valid() && partStart + partSize <= |dev.disk|
    modifies dev, buff
    ensures buff.Valid() && SameOutside(old(dev.disk), dev.disk, partStart, partStart + partSize)
    ensures var p := ParseChunk(old(buff.Rest()), blk, partStart, partSize);
            && BodyDone(p, ret, buff.Rest(), old(dev.disk), dev.disk, blk, partStart, old(dev.budget) > 0)
            && (p.Good? ==> size == Size(p.chunk, blk))
    ensures ret == Success ==> dev.budget + 1 >= old(dev.budget) && size <= partSize
  {
    ghost var s := buff.Rest();
    size := 0;
    var header := buff.Advance(CHUNK_HEADER);
    if header.None? {
      return TooSmall, 0;
    }
    HeaderOf(s, header.value);
    ret, size := WriteBehindHeader(dev, buff, header.value, blk, partStart, partSize, s);
  }

  /** The rest of the pass, for the image `s` whose chunk header is `h`. */
  method WriteBehindHeader(dev: Device, buff: ImgBuff, h: seq<byte>, blk: nat, partStart: nat, partSize: nat,
                           ghost s: seq<byte>)
    returns (ret: Ret, size: nat)
    requires buff.Valid() && partStart + partSize <= |dev.disk| && |s| >= CHUNK_HEADER && |h| == CHUNK_HEADER
    requires buff.Rest() == s[CHUNK_HEADER..]
    requires Half(h, 0) == Half(s, 0) && Word(h, 4) == Word(s, 4) && Word(h, 8) == Word(s, 8)
    modifies dev, buff
    ensures buff.Valid() && SameOutside(old(dev.disk), dev.disk, partStart, partStart + partSize)
    ensures var p := ParseChunk(s, blk, partStart, partSize);
            && BodyDone(p, ret, buff.Rest(), old(dev.disk), dev.disk, blk, partStart, old(dev.budget) > 0)
            && (p.Good? ==> size == Size(p.chunk, blk))
    ensures ret == Success ==> dev.budget + 1 >= old(dev.budget) && size <= partSize
  {
    size := Word(h, 4) * blk;
    TimesIs(Word(h, 4), blk);
    if partSize < size {
      return OutOfRange, size;
    }
    ret := WriteBody(dev, buff, Half(h, 0), Word(h, 4), Word(h, 8), size, partStart, blk);
    SameOutsideWider(old(dev.disk), dev.disk, partStart, partStart + size, partStart, partStart + partSize);
  }

  // ---- the chunk loop

  /** A disk, the place the next chunk goes to, and the block size. */
  datatype State = State(disk: seq<byte>, at: nat, blk: nat)

  function Lay(s: State, c: Chunk): State {
    if Sound(c, s.blk) && s.at + Size(c, s.blk) <= |s.disk|
    then State(Laid(s.disk, s.at, Content(c, s.blk)), s.at + Size(c, s.blk), s.blk) else s
  }

  /** Laying chunks one at a time is laying all their cells. */
  lemma {:induction false} LayAll(d: seq<byte>, at: nat, blk: nat, cs: seq<Chunk>)
    requires AllSound(cs, blk) && at + Total(cs, blk) <= |d|
    ensures Fold(Lay, State(d, at, blk), cs) == State(Laid(d, at, Contents(cs, blk)), at + Total(cs, blk), blk)
    decreases cs
  {
    if cs == [] {
      LaidNothing(d, at);
    } else {
      var c := cs[0];
      assert Sound(c, blk);
      LayAll(Laid(d, at, Content(c, blk)), at + Size(c, blk), blk, cs[1..]);
      LaidConcat(d, at, Content(c, blk), Contents(cs[1..], blk));
    }
  }

  /** A verdict, through `good` chunks, with the state they lead to. */
  datatype Plan = Plan(ret: Ret, good: nat, goal: State)

  /** What the next `n` chunks lead to. */
  ghost function Ahead(rest: seq<byte>, n: nat, blk: nat, at: nat, room: nat, d: seq<byte>): Plan {
    var w := Walk(rest, n, blk, at, room);
    Plan(w.0, |w.1|, Fold(Lay, State(d, at, blk), w.1))
  }

  function OneLess(plan: Plan): Plan
    requires plan.good > 0
  {
    Plan(plan.ret, plan.good - 1, plan.goal)
  }

  /** What reading `p` next means, with `left` chunks behind it. */
  ghost predicate Next(plan: Plan, p: Parsed<seq<byte>, Chunk>, left: nat, blk: nat, at: nat, room: nat, d: seq<byte>)
    requires at + room <= |d|
  {
    match p
    case Bad(r) => r != Success && plan.ret == r && plan.goal.disk == d
    case Good(c, behind) =>
      && Sound(c, blk) && Size(c, blk) <= room && plan.good > 0
      && Ahead(behind, left, blk, at + Size(c, blk), room - Size(c, blk), Laid(d, at, Content(c, blk))) == OneLess(plan)
  }

  lemma {:induction false} NextIsParsed(
    plan: Plan, rest: seq<byte>, left: nat, blk: nat, at: nat, room: nat, d: seq<byte>, p: Parsed<seq<byte>, Chunk>)
    requires Ahead(rest, left + 1, blk, at, room, d) == plan && at + room <= |d| && p == ParseChunk(rest, blk, at, room)
    ensures Next(plan, p, left, blk, at, room, d)
  {
    ParseSound(rest, blk, at, room);
    WalkStep(rest, left + 1, blk, at, room, p);
    if p.Good? {
      GoodIsNext(plan, rest, left, blk, at, room, d, p.chunk, p.rest);
    }
  }

  lemma {:induction false} GoodIsNext(
    plan: Plan, rest: seq<byte>, left: nat, blk: nat, at: nat, room: nat, d: seq<byte>, c: Chunk, behind: seq<byte>)
    requires Ahead(rest, left + 1, blk, at, room, d) == plan && at + room <= |d|
    requires Sound(c, blk) && Size(c, blk) <= room
    requires var w := Walk(behind, left, blk, at + Size(c, blk), room - Size(c, blk));
             Walk(rest, left + 1, blk, at, room) == (w.0, [c] + w.1)
    ensures Next(plan, Good(c, behind), left, blk, at, room, d)
  {
    NextGood(plan, Walk(behind, left, blk, at + Size(c, blk), room - Size(c, blk)), blk, at, d, c);
  }

  lemma {:induction false} NextGood(plan: Plan, w: (Ret, seq<Chunk>), blk: nat, at: nat, d: seq<byte>, c: Chunk)
    requires Sound(c, blk) && at + Size(c, blk) <= |d|
    requires plan == Plan(w.0, 1 + |w.1|, Fold(Lay, State(d, at, blk), [c] + w.1))
    ensures OneLess(plan) ==
            Plan(w.0, |w.1|, Fold(Lay, State(Laid(d, at, Content(c, blk)), at + Size(c, blk), blk), w.1))
  {
    FoldFirst(Lay, State(d, at, blk), c, w.1);
    LayGood(d, at, blk, c);
  }

  lemma LayGood(d: seq<byte>, at: nat, blk: nat, c: Chunk)
    requires Sound(c, blk) && at + Size(c, blk) <= |d|
    ensures Lay(State(d, at, blk), c) == State(Laid(d, at, Content(c, blk)), at + Size(c, blk), blk)
  {
  }

  /** The end of the loop: nothing is left to do. */
  lemma {:induction false} NothingAhead(plan: Plan, rest: seq<byte>, blk: nat, at: nat, room: nat, d: seq<byte>)
    requires Ahead(rest, 0, blk, at, room, d) == plan
    ensures plan.ret == Success && plan.goal.disk == d
  {
  }

  /** The disk the image asks for: its chunks up to the verdict laid over the old
      one. */
  ghost function Expanded(d: seq<byte>, at: nat, room: nat, image: seq<byte>): seq<byte>
    requires at + room <= |d|
  {
    VerdictSound(image, at, room);
    Laid(d, at, Contents(Verdict(image, at, room).1, BlockSize(image)))
  }

  /** What a pass over the chunk `p` means for the loop. */
  lemma {:induction false} PassMeans(
    plan: Plan, p: Parsed<seq<byte>, Chunk>, left: nat, blk: nat, at: nat, room: nat, d: seq<byte>,
    ret: Ret, at': nat, room': nat, rest: seq<byte>, d': seq<byte>, faultless: bool)
    requires at + room <= |d| && Next(plan, p, left, blk, at, room, d)
    requires BodyDone(p, ret, rest, d, d', blk, at, faultless)
    requires p.Good? && ret == Success ==> at' == at + Size(p.chunk, blk) && room' == room - Size(p.chunk, blk)
    ensures ret == Success ==> plan.good > 0 && Ahead(rest, left, blk, at', room', d') == OneLess(plan)
    ensures ret != Success ==>
              (ret == plan.ret && d' == plan.goal.disk) || (ret == TransferError && !faultless && plan.good > 0)
  {
    if p.Good? && ret == Success {
      var c := p.chunk;
      assert d' == Laid(d, at, Content(c, blk)) && rest == p.rest;
      assert Ahead(p.rest, left, blk, at', room', d') == OneLess(plan);
    }
  }

  /** One pass, with what it means for the loop: `left` chunks come behind it. */
  method Pass(dev: Device, buff: ImgBuff, blk: nat, at: nat, room: nat,
              ghost plan: Plan, ghost left: nat, ghost d0: seq<byte>, ghost lo: nat)
    returns (ret: Ret, at': nat, room': nat, ghost plan': Plan)
    requires buff.Valid() && at + room <= |dev.disk|
    requires lo <= at && SameOutside(d0, dev.disk, lo, at + room)
    requires Ahead(buff.Rest(), left + 1, blk, at, room, dev.disk) == plan
    modifies dev, buff
    ensures buff.Valid() && SameOutside(d0, dev.disk, lo, at + room) && at <= at' && at' + room' == at + room
    ensures ret == Success ==>
              && plan.good > 0 && plan' == OneLess(plan) && dev.budget + 1 >= old(dev.budget)
              && Ahead(buff.Rest(), left, blk, at', room', dev.disk) == plan'
    ensures ret != Success ==>
              || (ret == plan.ret && dev.disk == plan.goal.disk)
              || (ret == TransferError && old(dev.budget) == 0 && plan.good > 0)
  {
    ghost var d, faultless := dev.disk, dev.budget > 0;
    ghost var p := ParseChunk(buff.Rest(), blk, at, room);
    NextIsParsed(plan, buff.Rest(), left, blk, at, room, d, p);
    var size;
    ret, size := WriteChunk(dev, buff, blk, at, room);
    SameOutsideInner(d0, d, dev.disk, lo, at + room, at, at + room);
    at', room' := at, room;
    if ret == Success {
      at', room' := at + size, room - size;
    }
    PassMeans(plan, p, left, blk, at, room, d, ret, at', room', buff.Rest(), dev.disk, faultless);
    plan' := if ret == Success then OneLess(plan) else plan;
  }

  lemma SameOutsideInner(d: seq<byte>, d1: seq<byte>, d2: seq<byte>, lo: nat, hi: nat, lo': nat, hi': nat)
    requires SameOutside(d, d1, lo, hi) && SameOutside(d1, d2, lo', hi') && lo <= lo' && hi' <= hi
    ensures SameOutside(d, d2, lo, hi)
  {
  }

  /** The loop over `n` chunks, the cursor being behind the image header. */
  method ChunkLoop(dev: Device, buff: ImgBuff, n: nat, blk: nat, partStart: nat, partSize: nat, ghost plan: Plan)
    returns (ret: Ret)
    requires buff.Valid() && partStart + partSize <= |dev.disk|
    requires Ahead(buff.Rest(), n, blk, partStart, partSize, dev.disk) == plan
    modifies dev, buff
    ensures SameOutside(old(dev.disk), dev.disk, partStart, partStart + partSize)
    ensures (ret == plan.ret && dev.disk == plan.goal.disk) || (ret == TransferError && old(dev.budget) < plan.good)
  {
    ghost var d0, b0, end, todo, left := dev.disk, dev.budget, partStart + partSize, plan, n;
    var at, room := partStart, partSize;
    for i := 0 to n
      invariant buff.Valid() && partStart <= at && at + room == end <= |dev.disk|
      invariant SameOutside(d0, dev.disk, partStart, end)
      invariant left == n - i && plan == todo.(good := todo.good + i) && dev.budget + i >= b0
      invariant Ahead(buff.Rest(), left, blk, at, room, dev.disk) == todo
    {
      left := left - 1;
      ret, at, room, todo := Pass(dev, buff, blk, at, room, todo, left, d0, partStart);
      if ret != Success {
        return;
      }
    }
    NothingAhead(todo, buff.Rest(), blk, at, room, dev.disk);
    return Success;
  }

  method WriteChunks(dev: Device, buff: ImgBuff, n: nat, blk: nat, partStart: nat, partSize: nat) returns (ret: Ret)
    requires buff.Valid() && partStart + partSize <= |dev.disk|
    modifies dev, buff
    ensures SameOutside(old(dev.disk), dev.disk, partStart, partStart + partSize)
    ensures var v := Walk(old(buff.Rest()), n, blk, partStart, partSize);
            && AllSound(v.1, blk) && Total(v.1, blk) <= partSize
            && ((ret == v.0 && dev.disk == Laid(old(dev.disk), partStart, Contents(v.1, blk))) ||
                (ret == TransferError && old(dev.budget) < |v.1|))
  {
    ghost var v := Walk(buff.Rest(), n, blk, partStart, partSize);
    ghost var goal := Fold(Lay, State(dev.disk, partStart, blk), v.1);
    WalkSound(buff.Rest(), n, blk, partStart, partSize);
    LayAll(dev.disk, partStart, blk, v.1);
    ret := ChunkLoop(dev, buff, n, blk, partStart, partSize, Plan(v.0, |v.1|, goal));
  }

  /** write_sparse_image, on a region of the disk. */
  method WriteSparseImage(dev: Device, partStart: nat, partSize: nat, image: seq<byte>) returns (ret: Ret)
    requires partStart + partSize <= |dev.disk|
    modifies dev
    ensures SameOutside(old(dev.disk), dev.disk, partStart, partStart + partSize)
    ensures var v := Verdict(image, partStart, partSize);
            || (ret == v.0 && dev.disk == Expanded(old(dev.disk), partStart, partSize, image))
            || (ret == TransferError && old(dev.budget) < |v.1|)
  {
    VerdictSound(image, partStart, partSize);
    LaidNothing(dev.disk, partStart);
    var buff := new ImgBuff(image);
    var header := buff.Advance(IMAGE_HEADER);
    if header.None? {
      return TooSmall;
    }
    var h := header.value;
    ImageHeaderOf(image, h);
    if Half(h, 8) != IMAGE_HEADER {
      return WrongHeaderSize;
    }
    if Half(h, 10) != CHUNK_HEADER {
      return WrongHeaderSize;
    }
    ret := WriteChunks(dev, buff, Word(h, 20), Word(h, 12), partStart, partSize);
  }

  lemma ImageHeaderOf(s: seq<byte>, h: seq<byte>)
    requires |s| >= IMAGE_HEADER && h == s[..IMAGE_HEADER]
    ensures Half(h, 8) == Half(s, 8) && Half(h, 10) == Half(s, 10) && Word(h, 12) == Word(s, 12) && Word(h, 20) == Word(s, 20)
  {
  }

  /** Writing an encoded image: every chunk list that fits ends up on the disk. */
  method WriteEncoded(dev: Device, partStart: nat, partSize: nat, cs: seq<Chunk>, blk: nat) returns (ret: Ret)
    requires partStart + partSize <= |dev.disk| && |cs| <= dev.budget
    requires blk < U32 && |cs| < U32 && AllEncodable(cs, blk) && Total(cs, blk) <= partSize && Aligned(cs, blk, partStart)
    modifies dev
    ensures ret == Success && AllSound(cs, blk)
    ensures Expansion(old(dev.disk), dev.disk, partStart, cs, blk)
  {
    VerdictOfEncoded(cs, blk, partStart, partSize);
    ImageFields(cs, blk);
    ghost var d := dev.disk;
    ret := WriteSparseImage(dev, partStart, partSize, EncodeImage(cs, blk));
    LaidIsExpansion(d, dev.disk, partStart, cs, blk);
  }

  // ---- writing a partition

  /** is_sparse_image: looks at six bytes of the data, however many there are. */
  predicate IsSparseImage(memory: seq<byte>)
    requires |memory| >= 6
  {
    Word(memory, 0) == SPARSE_MAGIC && Half(memory, 4) == 1
  }

  /** A partition table entry: first block and size in bytes. */
  datatype Partition = Partition(startingLba: nat, space: nat)

  /** gpt_write_partition; `memory` is what lies from the data pointer on, of which
      `len` bytes are the data. */
  method WritePartition(dev: Device, blockSize: nat, part: Option<Partition>, offset: nat, memory: seq<byte>, len: nat)
    returns (ret: Ret)
    requires |memory| >= 6 && len <= |memory|
    requires part.Some? ==> part.value.startingLba * blockSize + part.value.space <= |dev.disk|
    modifies dev
    ensures part.None? ==> ret == NoPartition && dev.disk == old(dev.disk)
    ensures part.Some? ==>
              var start, space := part.value.startingLba * blockSize, part.value.space;
              && SameOutside(old(dev.disk), dev.disk, start, start + space)
              && (offset + len > space ==> ret == OutOfRange && dev.disk == old(dev.disk))
              && (offset + len <= space ==>
                    || (ret, dev.disk) == PartitionOutcome(old(dev.disk), start + offset, space - offset, memory, len)
                    || (ret == TransferError && old(dev.budget) < PartitionWrites(start + offset, space - offset, memory, len)))
  {
    if part.None? {
      return NoPartition;
    }
    var addr := part.value.startingLba * blockSize + offset;
    var space := part.value.space;
    if space < offset || space - offset < len {
      return OutOfRange;
    }
    space := space - offset;
    ghost var d := dev.disk;
    if IsSparseImage(memory) {
      ret := WriteSparseImage(dev, addr, space, memory[..len]);
      SameOutsideWider(d, dev.disk, addr, addr + space, addr - offset, addr + space);
      return;
    }
    var written := dev.WriteBytes(addr, memory[..len]);
    SameOutsideWider(d, dev.disk, addr, addr + len, addr - offset, addr + space);
    return if written != len then TransferError else Success;
  }

  lemma SameOutsideWider(d: seq<byte>, d': seq<byte>, lo: nat, hi: nat, lo': nat, hi': nat)
    requires SameOutside(d, d', lo, hi) && lo' <= lo && hi <= hi'
    ensures SameOutside(d, d', lo', hi')
  {
  }

  /** What a device without faults ends up with. */
  ghost function PartitionOutcome(d: seq<byte>, addr: nat, space: nat, memory: seq<byte>, len: nat): (Ret, seq<byte>)
    requires |memory| >= 6 && len <= |memory| && len <= space && addr + space <= |d|
  {
    if IsSparseImage(memory)
    then (Verdict(memory[..len], addr, space).0, Expanded(d, addr, space, memory[..len]))
    else (Success, Laid(d, addr, Puts(memory[..len])))
  }

  ghost function PartitionWrites(addr: nat, space: nat, memory: seq<byte>, len: nat): nat
    requires |memory| >= 6 && len <= |memory|
  {
    if IsSparseImage(memory) then |Verdict(memory[..len], addr, space).1| else if len == 0 then 0 else 1
  }

  /** Data without the signature of a sparse image is copied as it is, and nothing else
      changes. */
  lemma {:induction false} PlainDataLands(d: seq<byte>, addr: nat, space: nat, memory: seq<byte>, len: nat)
    requires |memory| >= 6 && len <= |memory| && len <= space && addr + space <= |d|
    requires memory[..6] != [0x3a, 0xff, 0x26, 0xed, 1, 0]
    ensures PartitionOutcome(d, addr, space, memory, len) ==
            (Success, d[..addr] + memory[..len] + d[addr + len..])
  {
    SparseBySignature(memory);
    OverIsLaid(d, addr, memory[..len]);
    assert memory[..len][..len] == memory[..len];
  }

  /** Data with it is expanded, by the image alone. */
  lemma {:induction false} SparseDataExpands(d: seq<byte>, addr: nat, space: nat, memory: seq<byte>, len: nat)
    requires |memory| >= 6 && len <= |memory| && len <= space && addr + space <= |d|
    requires memory[..6] == [0x3a, 0xff, 0x26, 0xed, 1, 0]
    ensures var (ret, cs) := Verdict(memory[..len], addr, space);
            var blk := BlockSize(memory[..len]);
            var o := PartitionOutcome(d, addr, space, memory, len);
            && AllSound(cs, blk) && Total(cs, blk) <= space
            && o.0 == ret && Expansion(d, o.1, addr, cs, blk)
  {
    SparseBySignature(memory);
    VerdictSound(memory[..len], addr, space);
    var v := Verdict(memory[..len], addr, space);
    LaidIsExpansion(d, PartitionOutcome(d, addr, space, memory, len).1, addr, v.1, BlockSize(memory[..len]));
  }

  // ---- which bytes of memory the outcome depends on

  const SIGNATURE: seq<byte> := [0x3a, 0xff, 0x26, 0xed, 1, 0]

  lemma SparseBySignature(m: seq<byte>)
    requires |m| >= 6
    ensures IsSparseImage(m) <==> m[..6] == SIGNATURE
  {
    if IsSparseImage(m) {
      assert m[0] == 0x3a && m[1] == 0xff && m[2] == 0x26 && m[3] == 0xed && m[4] == 1 && m[5] == 0;
    }
    if m[..6] == SIGNATURE {
      assert m[0] == m[..6][0] && m[1] == m[..6][1] && m[2] == m[..6][2] && m[3] == m[..6][3];
      assert m[4] == m[..6][4] && m[5] == m[..6][5];
    }
  }

  /** The same data in another memory. */
  ghost predicate SameData(m: seq<byte>, m': seq<byte>, len: nat) {
    |m| == |m'| && len <= |m| && m'[..len] == m[..len]
  }

  ghost predicate DependsOnDataOnly(d: seq<byte>, addr: nat, space: nat, m: seq<byte>, len: nat)
    requires |m| >= 6 && len <= |m| && len <= space && addr + space <= |d|
  {
    forall m' {:trigger SameData(m, m', len)} :: SameData(m, m', len) ==>
      PartitionOutcome(d, addr, space, m', len) == PartitionOutcome(d, addr, space, m, len)
  }

  /** Only the data decides what is written exactly when there are at least six
      bytes of it or they already differ from the signature of a sparse image;
      otherwise bytes behind the data are taken for part of it. */
  lemma {:induction false} DependsOnDataOnlyExactly(d: seq<byte>, addr: nat, space: nat, m: seq<byte>, len: nat)
    requires |m| >= 6 && len <= |m| && len <= space && addr + space <= |d|
    ensures DependsOnDataOnly(d, addr, space, m, len) <==> len >= 6 || m[..len] != SIGNATURE[..len]
  {
    if len >= 6 || m[..len] != SIGNATURE[..len] {
      forall m' {:trigger SameData(m, m', len)} | SameData(m, m', len)
        ensures PartitionOutcome(d, addr, space, m', len) == PartitionOutcome(d, addr, space, m, len)
      {
        SameSparseness(m, m', len);
      }
    } else {
      var sparse, plain := SIGNATURE + m[6..], SIGNATURE[..5] + [7] + m[6..];
      SparseBySignature(sparse);
      SparseBySignature(plain);
      assert sparse[..6] == SIGNATURE && plain[5] == 7 && plain[..6][5] == 7;
      assert SameData(m, sparse, len) && SameData(m, plain, len);
      assert PartitionOutcome(d, addr, space, sparse, len).0 == TooSmall;
      assert PartitionOutcome(d, addr, space, plain, len).0 == Success;
    }
  }

  lemma SameSparseness(m: seq<byte>, m': seq<byte>, len: nat)
    requires |m| >= 6 && SameData(m, m', len) && (len >= 6 || m[..len] != SIGNATURE[..len])
    ensures IsSparseImage(m') <==> IsSparseImage(m)
  {
    SparseBySignature(m);
    SparseBySignature(m');
    if len >= 6 {
      assert m'[..6] == m'[..len][..6] && m[..6] == m[..len][..6];
    } else {
      assert m'[..len] == m'[..6][..len] && m[..len] == m[..6][..len];
    }
  }
}
