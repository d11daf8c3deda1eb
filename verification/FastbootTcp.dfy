/** Framing of fastboot packets in a TCP byte stream (src/fastboot/tcp.c): a
    handshake, then packets preceded by their 64-bit length. */
module FastbootTcp {
  import opened Basics
  import opened Fastboot

  const MSG_MAX: nat := 256
  const HEADER_LEN: nat := 8
  const HANDSHAKE: seq<byte> := [0x46, 0x42, 0x30, 0x31]  // "FB01"

  datatype Phase =
    | WaitHandshake
    | WaitHeader(collected: seq<byte>)
    | WaitCommand(left: nat)
    | WaitSegment(buf: seq<byte>, left: nat)
    | WaitDownload(left: nat)

  datatype Tcp = Tcp(phase: Phase, closed: bool, session: Session)

  /** be64dec */
  function Decode(s: seq<byte>): nat {
    if s == [] then 0 else Decode(s[..|s| - 1]) * 256 + s[|s| - 1] as int
  }

  ghost predicate TcpOk(t: Tcp) {
    && SessionOk(t.session)
    && (t.phase.WaitHeader? ==> |t.phase.collected| < HEADER_LEN)
    && (t.phase.WaitSegment? ==> 0 < t.phase.left && |t.phase.buf| + t.phase.left <= MSG_MAX)
  }

  function Close(t: Tcp): Tcp {
    t.(closed := true)
  }

  /** What one pass through the receive loop does with the bytes at hand: the new
      state and the number of bytes consumed. */
  function Step(cfg: Config, t: Tcp, buf: seq<byte>): (r: (Tcp, nat))
    requires ConfigOk(cfg) && TcpOk(t) && buf != []
    ensures TcpOk(r.0) && r.1 <= |buf|
    ensures r.0.closed || r.1 > 0 || Rank(r.0.phase) < Rank(t.phase)
  {
    match t.phase
    case WaitHandshake =>
      if |buf| < 4 || buf[..4] != HANDSHAKE then (Close(t), 0)
      else (t.(phase := WaitHeader([]), session := t.session.(events := t.session.events + [HandshakeReply])), 4)
    case WaitHeader(c) =>
      var n := Min(|buf|, HEADER_LEN - |c|);
      var c := c + buf[..n];
      if |c| < HEADER_LEN then (t.(phase := WaitHeader(c)), n)
      else (t.(phase := if t.session.state == Download then WaitDownload(Decode(c)) else WaitCommand(Decode(c))), n)
    case WaitCommand(left) =>
      if |buf| >= left then
        (t.(phase := WaitHeader([]), session := HandlePacket(cfg, t.session, buf[..left])), left)
      else if left <= MSG_MAX then (t.(phase := WaitSegment([], left)), 0)
      else (Close(t).(phase := WaitHandshake, session := t.session.(state := Command, progress := 0)), 0)
    case WaitSegment(b, left) =>
      var n := Min(left, |buf|);
      if n < left then (t.(phase := WaitSegment(b + buf[..n], left - n)), n)
      else (t.(phase := WaitHeader([]), session := HandlePacket(cfg, t.session, b + buf[..n])), n)
    case WaitDownload(left) =>
      var n := Min(left, |buf|);
      var s := HandlePacket(cfg, t.session, buf[..n]);
      (t.(phase := if n < left then WaitDownload(left - n) else WaitHeader([]), session := s), n)
  }

  /** States in which a pass may consume nothing rank above the states it leads to. */
  function Rank(p: Phase): nat {
    match p
    case WaitCommand(_) => 2
    case WaitDownload(_) => 1
    case WaitSegment(_, _) => 1
    case _ => 0
  }

  /** Consume all of `buf`. */
  function Recv(cfg: Config, t: Tcp, buf: seq<byte>): (r: Tcp)
    requires ConfigOk(cfg) && TcpOk(t)
    ensures TcpOk(r)
    decreases !t.closed, |buf|, Rank(t.phase)
  {
    if buf == [] || t.closed then t else
    var (t', n) := Step(cfg, t, buf);
    Recv(cfg, t', buf[n..])
  }

  // ---- the whole stream at once

  /** The reference: parse everything received since the handshake in one go. A
      packet is handled once it is complete and a byte is at hand (so an empty
      packet waits for the next byte); a download is stored as it arrives. */
  function Reference(cfg: Config, s: Session, x: seq<byte>): Tcp
    requires ConfigOk(cfg) && SessionOk(s)
    decreases |x|
  {
    if |x| < HEADER_LEN then Tcp(WaitHeader(x), false, s) else
    var len, body := Decode(x[..HEADER_LEN]), x[HEADER_LEN..];
    if body == [] then Tcp(Pending(s, len), false, s)
    else if |body| >= len then Reference(cfg, HandlePacket(cfg, s, body[..len]), body[len..])
    else if s.state == Download then Tcp(WaitDownload(len - |body|), false, HandleDownload(s, body))
    else Tcp(WaitSegment(body, len - |body|), false, s)
  }

  /** Just after a header. */
  function Pending(s: Session, len: nat): Phase {
    if s.state == Download then WaitDownload(len)
    else if len == 0 then WaitCommand(0) else WaitSegment([], len)
  }

  /** The stream keeps to the protocol: commands of at most MSG_MAX bytes, download
      packets within what is still expected. */
  ghost predicate WellFormed(cfg: Config, s: Session, x: seq<byte>)
    requires ConfigOk(cfg) && SessionOk(s)
    decreases |x|
  {
    |x| < HEADER_LEN ||
    var len, body := Decode(x[..HEADER_LEN]), x[HEADER_LEN..];
    && len <= (if s.state == Download then Left(s) else MSG_MAX)
    && (body == [] || |body| < len || WellFormed(cfg, HandlePacket(cfg, s, body[..len]), body[len..]))
  }

  /** A command whose header has arrived waits either way; forget which. */
  function Norm(t: Tcp): Tcp {
    if t.phase.WaitCommand? && 0 < t.phase.left <= MSG_MAX then t.(phase := WaitSegment([], t.phase.left)) else t
  }

  // ---- any segmentation gives the reference

  lemma HeaderOf(h: seq<byte>, body: seq<byte>)
    requires |h| == HEADER_LEN
    ensures (h + body)[..HEADER_LEN] == h && (h + body)[HEADER_LEN..] == body
  {
  }

  lemma CutAcross(b: seq<byte>, y: seq<byte>, n: nat)
    requires n <= |y|
    ensures (b + y)[..|b| + n] == b + y[..n] && (b + y)[|b| + n..] == y[n..]
    ensures (b + y[..n]) + y[n..] == b + y
  {
  }

  lemma CutWithin(b: seq<byte>, y: seq<byte>, n: nat)
    requires n <= |b|
    ensures (b + y)[..n] == b[..n] && (b + y)[n..] == b[n..] + y
  {
  }

  /** The reference on a header and its (possibly partial) body. */
  lemma {:induction false} ReferenceAt(cfg: Config, s: Session, h: seq<byte>, body: seq<byte>)
    requires ConfigOk(cfg) && SessionOk(s) && |h| == HEADER_LEN
    ensures var len := Decode(h);
            Reference(cfg, s, h + body) ==
            if body == [] then Tcp(Pending(s, len), false, s)
            else if |body| >= len then Reference(cfg, HandlePacket(cfg, s, body[..len]), body[len..])
            else if s.state == Download then Tcp(WaitDownload(len - |body|), false, HandleDownload(s, body))
            else Tcp(WaitSegment(body, len - |body|), false, s)
    ensures var len := Decode(h);
            WellFormed(cfg, s, h + body) <==>
            && len <= (if s.state == Download then Left(s) else MSG_MAX)
            && (body == [] || |body| < len || WellFormed(cfg, HandlePacket(cfg, s, body[..len]), body[len..]))
  {
    HeaderOf(h, body);
  }

  /** `t` is waiting inside the packet with header `h`, of whose body `b` has
      arrived. */
  ghost predicate Inside(cfg: Config, t: Tcp, s: Session, h: seq<byte>, b: seq<byte>) {
    && ConfigOk(cfg) && SessionOk(s) && TcpOk(t) && !t.closed && |h| == HEADER_LEN
    && var len := Decode(h);
       && (b == [] || |b| < len)
       && len <= (if s.state == Download then Left(s) else MSG_MAX)
       && match t.phase
          case WaitCommand(left) => s.state != Download && b == [] && left == len && t.session == s
          case WaitSegment(c, left) => s.state != Download && c == b && left == len - |b| && t.session == s
          case WaitDownload(left) =>
            s.state == Download && left == len - |b| && t.session == (if b == [] then s else HandleDownload(s, b))
          case _ => false
  }

  lemma {:induction false} InsideIsReference(cfg: Config, t: Tcp, s: Session, h: seq<byte>, b: seq<byte>)
    requires Inside(cfg, t, s, h, b) && (b == [] ==> !t.phase.WaitSegment? || 0 < Decode(h))
    ensures Norm(t) == Reference(cfg, s, h + b)
  {
    ReferenceAt(cfg, s, h, b);
  }

  /** One pass inside a packet: it stays inside, or hands the packet over. */
  lemma {:induction false} StepInside(cfg: Config, t: Tcp, s: Session, h: seq<byte>, b: seq<byte>, y: seq<byte>)
    requires Inside(cfg, t, s, h, b) && y != []
    ensures var (t', n) := Step(cfg, t, y);
            var len := Decode(h);
            || ((n == 0 || |b| + |y| < len) && Inside(cfg, t', s, h, b + y[..n]))
            || (n == len - |b| && t' == Tcp(WaitHeader([]), false, HandlePacket(cfg, s, b + y[..n])))
  {
    var len := Decode(h);
    match t.phase
    case WaitCommand(left) =>
      assert b + y[..0] == b;
      assert |y| >= left ==> b + y[..left] == y[..left];
    case WaitSegment(c, left) =>
    case WaitDownload(left) =>
      var n := Min(left, |y|);
      if b == [] {
        assert b + y[..n] == y[..n];
      } else {
        DownloadCompose(s, b, y[..n]);
      }
  }

  lemma {:induction false} RecvInside(cfg: Config, t: Tcp, s: Session, h: seq<byte>, b: seq<byte>, y: seq<byte>)
    requires Inside(cfg, t, s, h, b) && WellFormed(cfg, s, h + (b + y))
    ensures Norm(Recv(cfg, t, y)) == Reference(cfg, s, h + (b + y))
    decreases |y|, Rank(t.phase)
  {
    if y == [] {
      assert b + y == b;
      InsideIsReference(cfg, t, s, h, b);
    } else {
      var len := Decode(h);
      var (t', n) := Step(cfg, t, y);
      StepInside(cfg, t, s, h, b, y);
      CutAcross(b, y, n);
      if Inside(cfg, t', s, h, b + y[..n]) {
        RecvInside(cfg, t', s, h, b + y[..n], y[n..]);
      } else {
        ReferenceAt(cfg, s, h, b + y);
        assert [] + y[n..] == y[n..];
        RecvHeader(cfg, t', HandlePacket(cfg, s, b + y[..n]), [], y[n..]);
      }
    }
  }

  lemma {:induction false} RecvHeader(cfg: Config, t: Tcp, s: Session, x: seq<byte>, y: seq<byte>)
    requires ConfigOk(cfg) && SessionOk(s) && |x| < HEADER_LEN && t == Tcp(WaitHeader(x), false, s)
    requires WellFormed(cfg, s, x + y)
    ensures Norm(Recv(cfg, t, y)) == Reference(cfg, s, x + y)
    decreases |y|, Rank(t.phase)
  {
    if y == [] {
      assert x + y == x;
    } else {
      var (t', n) := Step(cfg, t, y);
      var h := x + y[..n];
      assert h + y[n..] == x + y;
      if |h| < HEADER_LEN {
        assert y[n..] == [];
      } else {
        assert [] + y[n..] == y[n..];
        ReferenceAt(cfg, s, h, y[n..]);
        RecvInside(cfg, t', s, h, [], y[n..]);
      }
    }
  }

  /** Feeding the stream segment by segment. */
  function Feed(cfg: Config, t: Tcp, segments: seq<seq<byte>>): (r: Tcp)
    requires ConfigOk(cfg) && TcpOk(t)
    ensures TcpOk(r)
    decreases segments
  {
    if segments == [] then t else Feed(cfg, Recv(cfg, t, segments[0]), segments[1..])
  }

  lemma {:induction false} OpenIsInside(cfg: Config, s: Session, h: seq<byte>, b: seq<byte>, t: Tcp)
    requires ConfigOk(cfg) && SessionOk(s) && TcpOk(t) && |h| == HEADER_LEN
    requires (b == [] || |b| < Decode(h)) && WellFormed(cfg, s, h + b)
    requires Norm(t) == Reference(cfg, s, h + b)
    ensures Inside(cfg, t, s, h, b)
  {
    ReferenceAt(cfg, s, h, b);
  }

  /** After any prefix `x` of the stream, in whatever form the state waits there,
      receiving `y` leads to the reference state for `x + y`. */
  lemma {:induction false} RecvAfter(cfg: Config, s: Session, x: seq<byte>, t: Tcp, y: seq<byte>)
    requires ConfigOk(cfg) && SessionOk(s) && TcpOk(t)
    requires WellFormed(cfg, s, x + y) && WellFormed(cfg, s, x) && Norm(t) == Reference(cfg, s, x)
    ensures Norm(Recv(cfg, t, y)) == Reference(cfg, s, x + y)
    decreases |x|
  {
    if |x| < HEADER_LEN {
      RecvHeader(cfg, t, s, x, y);
    } else {
      var h, b := x[..HEADER_LEN], x[HEADER_LEN..];
      var len := Decode(h);
      assert x == h + b && x + y == h + (b + y);
      if b == [] || |b| < len {
        OpenIsInside(cfg, s, h, b, t);
        RecvInside(cfg, t, s, h, b, y);
      } else {
        ReferenceAt(cfg, s, h, b);
        ReferenceAt(cfg, s, h, b + y);
        CutWithin(b, y, len);
        RecvAfter(cfg, HandlePacket(cfg, s, b[..len]), b[len..], t, y);
      }
    }
  }

  lemma {:induction false} WellFormedPrefix(cfg: Config, s: Session, x: seq<byte>, y: seq<byte>)
    requires ConfigOk(cfg) && SessionOk(s) && WellFormed(cfg, s, x + y)
    ensures WellFormed(cfg, s, x)
    decreases |x|
  {
    if |x| >= HEADER_LEN {
      var h, b := x[..HEADER_LEN], x[HEADER_LEN..];
      var len := Decode(h);
      assert x == h + b && x + y == h + (b + y);
      ReferenceAt(cfg, s, h, b);
      ReferenceAt(cfg, s, h, b + y);
      if b != [] && len <= |b| {
        CutWithin(b, y, len);
        WellFormedPrefix(cfg, HandlePacket(cfg, s, b[..len]), b[len..], y);
      }
    }
  }

  lemma {:induction false} RecvFirst(cfg: Config, s: Session, x: seq<byte>, t: Tcp, y: seq<byte>, rest: seq<byte>)
    returns (t': Tcp)
    requires ConfigOk(cfg) && SessionOk(s) && TcpOk(t)
    requires WellFormed(cfg, s, (x + y) + rest) && Norm(t) == Reference(cfg, s, x)
    ensures TcpOk(t') && t' == Recv(cfg, t, y) && Norm(t') == Reference(cfg, s, x + y)
  {
    t' := Recv(cfg, t, y);
    WellFormedPrefix(cfg, s, x + y, rest);
    WellFormedPrefix(cfg, s, x, y);
    RecvAfter(cfg, s, x, t, y);
  }

  lemma {:induction false} FeedAfter(cfg: Config, s: Session, x: seq<byte>, t: Tcp, segments: seq<seq<byte>>)
    requires ConfigOk(cfg) && SessionOk(s) && TcpOk(t)
    requires WellFormed(cfg, s, x + Joined(segments)) && Norm(t) == Reference(cfg, s, x)
    ensures Norm(Feed(cfg, t, segments)) == Reference(cfg, s, x + Joined(segments))
    decreases segments
  {
    if segments == [] {
      assert x + [] == x;
    } else {
      var y, rest := segments[0], Joined(segments[1..]);
      assert x + Joined(segments) == (x + y) + rest;
      var t' := RecvFirst(cfg, s, x, t, y, rest);
      FeedAfter(cfg, s, x + y, t', segments[1..]);
    }
  }

  /** The session once the handshake has been answered. */
  function Greeted(s: Session): Session {
    s.(events := s.events + [HandshakeReply])
  }

  /** The first segment that has bytes in it. */
  function Opening(segments: seq<seq<byte>>): seq<byte> {
    if segments == [] then [] else if segments[0] != [] then segments[0] else Opening(segments[1..])
  }

  /** Framing does not depend on segmentation: whatever way a well-formed stream is
      cut, the machine ends in the state of the one-pass reference exactly when
      the first bytes to arrive hold the whole handshake. */
  lemma {:induction false} SegmentationIndependent(cfg: Config, s: Session, x: seq<byte>, segments: seq<seq<byte>>)
    requires ConfigOk(cfg) && SessionOk(s) && WellFormed(cfg, Greeted(s), x)
    requires Joined(segments) == HANDSHAKE + x
    ensures Norm(Feed(cfg, Tcp(WaitHandshake, false, s), segments)) == Reference(cfg, Greeted(s), x) <==>
            |Opening(segments)| >= 4
    ensures |Opening(segments)| < 4 ==>
              Feed(cfg, Tcp(WaitHandshake, false, s), segments) == Tcp(WaitHandshake, true, s)
    decreases segments
  {
    if segments[0] == [] {
      SegmentationIndependent(cfg, s, x, segments[1..]);
    } else if |segments[0]| >= 4 {
      WholeHandshake(cfg, s, x, segments);
    } else {
      ShortHandshakeCloses(cfg, s, segments[0], segments[1..]);
      assert segments == [segments[0]] + segments[1..];
      ReferenceIsOpen(cfg, Greeted(s), x);
    }
  }

  lemma {:induction false} WholeHandshake(cfg: Config, s: Session, x: seq<byte>, segments: seq<seq<byte>>)
    requires ConfigOk(cfg) && SessionOk(s) && WellFormed(cfg, Greeted(s), x)
    requires segments != [] && |segments[0]| >= 4 && Joined(segments) == HANDSHAKE + x
    ensures Norm(Feed(cfg, Tcp(WaitHandshake, false, s), segments)) == Reference(cfg, Greeted(s), x)
  {
    var first, t := segments[0], Tcp(WaitHandshake, false, s);
    var y, rest := first[4..], Joined(segments[1..]);
    assert first == Joined(segments)[..|first|];
    assert first[..4] == HANDSHAKE;
    assert x == y + rest;
    var (t', n) := Step(cfg, t, first);
    assert t' == Tcp(WaitHeader([]), false, Greeted(s)) && n == 4;
    WellFormedPrefix(cfg, Greeted(s), y, rest);
    assert [] + y == y;
    RecvHeader(cfg, t', Greeted(s), [], y);
    FeedAfter(cfg, Greeted(s), y, Recv(cfg, t, first), segments[1..]);
  }

  /** A shorter opening closes the connection, for good. */
  lemma {:induction false} ShortHandshakeCloses(cfg: Config, s: Session, first: seq<byte>, rest: seq<seq<byte>>)
    requires ConfigOk(cfg) && SessionOk(s) && 0 < |first| < 4
    ensures Feed(cfg, Tcp(WaitHandshake, false, s), [first] + rest) == Tcp(WaitHandshake, true, s)
  {
    assert Recv(cfg, Tcp(WaitHandshake, false, s), first) == Tcp(WaitHandshake, true, s);
    assert ([first] + rest)[1..] == rest;
    ClosedStays(cfg, Tcp(WaitHandshake, true, s), rest);
  }

  lemma {:induction false} ClosedStays(cfg: Config, t: Tcp, segments: seq<seq<byte>>)
    requires ConfigOk(cfg) && TcpOk(t) && t.closed
    ensures Feed(cfg, t, segments) == t
    decreases segments
  {
    if segments != [] {
      ClosedStays(cfg, t, segments[1..]);
    }
  }

  lemma {:induction false} ReferenceIsOpen(cfg: Config, s: Session, x: seq<byte>)
    requires ConfigOk(cfg) && SessionOk(s)
    ensures !Reference(cfg, s, x).closed
    decreases |x|
  {
    if |x| >= HEADER_LEN {
      var len, body := Decode(x[..HEADER_LEN]), x[HEADER_LEN..];
      if body != [] && |body| >= len {
        ReferenceIsOpen(cfg, HandlePacket(cfg, s, body[..len]), body[len..]);
      }
    }
  }

  /** The first bytes decide: the four letters open the session and are answered, and
      anything else closes it. */
  lemma {:induction false} HandshakeExactly(cfg: Config, s: Session, first: seq<byte>)
    requires ConfigOk(cfg) && SessionOk(s) && first != []
    ensures var t := Recv(cfg, Tcp(WaitHandshake, false, s), first);
            if |first| >= 4 && first[..4] == [0x46, 0x42, 0x30, 0x31]
            then t == Recv(cfg, Tcp(WaitHeader([]), false, s.(events := s.events + [HandshakeReply])), first[4..])
            else t == Tcp(WaitHandshake, true, s)
  {
    var (t, n) := Step(cfg, Tcp(WaitHandshake, false, s), first);
    assert Recv(cfg, Tcp(WaitHandshake, false, s), first) == Recv(cfg, t, first[n..]);
  }

  /** A cut command that is too long ends the connection and the session starts over. */
  lemma {:induction false} LongCommandResets(cfg: Config, s: Session, len: nat, y: seq<byte>)
    requires ConfigOk(cfg) && SessionOk(s) && 0 < |y| < len && len > MSG_MAX
    ensures Recv(cfg, Tcp(WaitCommand(len), false, s), y) ==
            Tcp(WaitHandshake, true, s.(state := Command, progress := 0))
  {
    var (t, n) := Step(cfg, Tcp(WaitCommand(len), false, s), y);
    assert Recv(cfg, Tcp(WaitCommand(len), false, s), y) == Recv(cfg, t, y[n..]);
  }

  /** The bound on command lengths is needed too: a command cut by a segment boundary drops
      the connection exactly when it is longer than MSG_MAX. */
  lemma {:induction false} CutCommandExactly(cfg: Config, s: Session, len: nat, y: seq<byte>)
    requires ConfigOk(cfg) && SessionOk(s) && 0 < |y| < len
    ensures Recv(cfg, Tcp(WaitCommand(len), false, s), y).closed <==> len > MSG_MAX
  {
    var t := Tcp(WaitCommand(len), false, s);
    var (t', n) := Step(cfg, t, y);
    assert n == 0 && y[0..] == y;
    assert Recv(cfg, t, y) == Recv(cfg, t', y);
    if len <= MSG_MAX {
      var (t'', m) := Step(cfg, t', y);
      assert m == |y| && y[m..] == [] && !t''.closed;
      assert Recv(cfg, t', y) == Recv(cfg, t'', []);
    } else {
      assert t'.closed && Recv(cfg, t', y) == t';
    }
  }

  // ---- round trip with the sender's framing

  /** The `k` low bytes of `n`, most significant first. */
  function Encode(n: nat, k: nat): (s: seq<byte>)
    ensures |s| == k
  {
    if k == 0 then [] else Encode(n / 256, k - 1) + [(n % 256) as byte]
  }

  function Pow256(k: nat): nat {
    if k == 0 then 1 else 256 * Pow256(k - 1)
  }

  lemma {:induction false} DecodeEncode(n: nat, k: nat)
    requires n < Pow256(k)
    ensures Decode(Encode(n, k)) == n
  {
    if k > 0 {
      assert n / 256 < Pow256(k - 1);
      DecodeEncode(n / 256, k - 1);
      var s := Encode(n, k);
      assert s[..k - 1] == Encode(n / 256, k - 1);
    }
  }

  function Stream(frames: seq<seq<byte>>): seq<byte> {
    if frames == [] then [] else (Encode(|frames[0]|, HEADER_LEN) + frames[0]) + Stream(frames[1..])
  }

  function Deliver(cfg: Config, s: Session, frames: seq<seq<byte>>): Session
    requires ConfigOk(cfg) && SessionOk(s)
    decreases frames
  {
    if frames == [] then s else Deliver(cfg, HandlePacket(cfg, s, frames[0]), frames[1..])
  }

  ghost predicate FramesOk(cfg: Config, s: Session, frames: seq<seq<byte>>)
    requires ConfigOk(cfg) && SessionOk(s)
    decreases frames
  {
    frames != [] ==>
    && |frames[0]| < Pow256(HEADER_LEN)
    && |frames[0]| <= (if s.state == Download then Left(s) else MSG_MAX)
    && FramesOk(cfg, HandlePacket(cfg, s, frames[0]), frames[1..])
  }

  lemma {:induction false} StreamFirst(cfg: Config, s: Session, frames: seq<seq<byte>>)
    requires ConfigOk(cfg) && SessionOk(s) && FramesOk(cfg, s, frames) && frames != []
    ensures var f, rest := frames[0], Stream(frames[1..]);
            f + rest != [] ==>
              && Reference(cfg, s, Stream(frames)) == Reference(cfg, HandlePacket(cfg, s, f), rest)
              && (WellFormed(cfg, s, Stream(frames)) <==> WellFormed(cfg, HandlePacket(cfg, s, f), rest))
    ensures frames == [[]] ==> Reference(cfg, s, Stream(frames)) == Tcp(Pending(s, 0), false, s)
    ensures frames == [[]] ==> WellFormed(cfg, s, Stream(frames))
  {
    var f, rest := frames[0], Stream(frames[1..]);
    var h := Encode(|f|, HEADER_LEN);
    DecodeEncode(|f|, HEADER_LEN);
    assert Stream(frames) == h + (f + rest);
    ReferenceAt(cfg, s, h, f + rest);
    assert (f + rest)[..|f|] == f && (f + rest)[|f|..] == rest;
  }

  /** A packet list ends with an empty packet. */
  predicate EndsEmpty(frames: seq<seq<byte>>) {
    frames != [] && frames[|frames| - 1] == []
  }

  /** What the machine has done with a framed packet list: everything is handled,
      except that an empty packet at the end waits for another byte. */
  function Outcome(cfg: Config, s: Session, frames: seq<seq<byte>>): Tcp
    requires ConfigOk(cfg) && SessionOk(s)
  {
    if EndsEmpty(frames)
    then var s' := Deliver(cfg, s, frames[..|frames| - 1]); Tcp(Pending(s', 0), false, s')
    else Tcp(WaitHeader([]), false, Deliver(cfg, s, frames))
  }

  lemma {:induction false} OutcomeFirst(cfg: Config, s: Session, frames: seq<seq<byte>>)
    requires ConfigOk(cfg) && SessionOk(s) && frames != [] && frames != [[]]
    ensures Outcome(cfg, s, frames) == Outcome(cfg, HandlePacket(cfg, s, frames[0]), frames[1..])
  {
    if EndsEmpty(frames) {
      assert frames[..|frames| - 1][1..] == frames[1..][..|frames[1..]| - 1];
      assert frames[1..][|frames[1..]| - 1] == [];
    }
  }

  /** For every packet list within the protocol the framed stream is well-formed
      and comes out as stated above. */
  lemma {:induction false} FramesAreParsed(cfg: Config, s: Session, frames: seq<seq<byte>>)
    requires ConfigOk(cfg) && SessionOk(s) && FramesOk(cfg, s, frames)
    ensures WellFormed(cfg, s, Stream(frames))
    ensures Reference(cfg, s, Stream(frames)) == Outcome(cfg, s, frames)
    decreases frames
  {
    if frames != [] {
      StreamFirst(cfg, s, frames);
      if frames == [[]] {
        assert frames[..0] == [];
      } else {
        var f, rest := frames[0], Stream(frames[1..]);
        assert f + rest != [] by {
          if f == [] {
            assert frames == [f] + frames[1..];
            assert frames[1..] != [] && |rest| >= HEADER_LEN;
          }
        }
        FramesAreParsed(cfg, HandlePacket(cfg, s, f), frames[1..]);
        OutcomeFirst(cfg, s, frames);
      }
    }
  }

  /** What the sender frames is what the session handles, packet for packet, exactly
      when the last packet is not empty; an empty one at the end leaves the
      machine behind its header, with all packets before it handled. */
  lemma {:induction false} FramesAreDelivered(cfg: Config, s: Session, frames: seq<seq<byte>>)
    requires ConfigOk(cfg) && SessionOk(s) && FramesOk(cfg, s, frames)
    ensures WellFormed(cfg, s, Stream(frames))
    ensures Reference(cfg, s, Stream(frames)) == Tcp(WaitHeader([]), false, Deliver(cfg, s, frames)) <==>
            frames == [] || frames[|frames| - 1] != []
    ensures EndsEmpty(frames) ==>
              var r := Reference(cfg, s, Stream(frames));
              !r.phase.WaitHeader? && !r.closed && r.session == Deliver(cfg, s, frames[..|frames| - 1])
  {
    FramesAreParsed(cfg, s, frames);
  }

  /** From the host's packets to the session, through any segmentation: everything
      is handled exactly when the first bytes to arrive hold the handshake and
      the last packet is not empty. */
  lemma {:induction false} HostPacketsAreHandled(
    cfg: Config, s: Session, frames: seq<seq<byte>>, segments: seq<seq<byte>>)
    requires ConfigOk(cfg) && SessionOk(s) && FramesOk(cfg, Greeted(s), frames)
    requires Joined(segments) == HANDSHAKE + Stream(frames)
    ensures Feed(cfg, Tcp(WaitHandshake, false, s), segments) ==
            Tcp(WaitHeader([]), false, Deliver(cfg, Greeted(s), frames)) <==>
            |Opening(segments)| >= 4 && (frames == [] || frames[|frames| - 1] != [])
    ensures EndsEmpty(frames) && |Opening(segments)| >= 4 ==>
              var t := Feed(cfg, Tcp(WaitHandshake, false, s), segments);
              !t.phase.WaitHeader? && !t.closed && t.session == Deliver(cfg, Greeted(s), frames[..|frames| - 1])
  {
    FramesAreParsed(cfg, Greeted(s), frames);
    SegmentationIndependent(cfg, s, Stream(frames), segments);
    var t, r := Feed(cfg, Tcp(WaitHandshake, false, s), segments), Outcome(cfg, Greeted(s), frames);
    if |Opening(segments)| >= 4 {
      assert Norm(t) == r;
      NormOfOutcome(t, r);
    }
  }

  /** The outcome of a packet list is waiting for a command or a header, which Norm
      leaves alone. */
  lemma NormOfOutcome(t: Tcp, r: Tcp)
    requires Norm(t) == r && !r.phase.WaitSegment?
    ensures t == r
  {
  }
}
