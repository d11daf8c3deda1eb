/** In-order delivery: over every run of truthful segments, in any order and any
    number of times, the application gets a prefix of the peer's stream
    (section 3.3 of RFC 793 on sequence numbers). */
module UipDelivery {
  import opened Basics
  import opened UipTcp

  /** The peer: its initial sequence number and everything it will ever send. */
  datatype Peer = Peer(irs: nat, stream: seq<byte>)

  /** One connection with its history: the bytes handed to the application, how
      many stream bytes have been accepted, and whether the FIN has. */
  datatype Trace = Trace(conn: Conn, handed: seq<byte>, accepted: nat, finished: bool)

  /** The sequence number of stream offset `off`; offset -1 is the SYN. */
  function SeqOf(p: Peer, off: int): nat
    requires off >= -1
  {
    (p.irs + 1 + off) % U32
  }

  /** What the peer may send: a SYN, part of its stream with a FIN only at the end,
      or a bare acknowledgement. */
  ghost predicate Truthful(p: Peer, g: Segment, off: int) {
    if g.syn then off == -1 && g.seqno == SeqOf(p, -1) && g.data == [] && !g.fin
    else if g.data == [] && !g.fin then true
    else
      && 0 <= off && off + |g.data| <= |p.stream|
      && g.seqno == SeqOf(p, off) && g.data == p.stream[off..off + |g.data|]
      && (g.fin ==> off + |g.data| == |p.stream|)
  }

  /** The segment is not older or newer than half the sequence space. */
  ghost predicate Near(t: Trace, off: int) {
    -0x8000_0000 < off - t.accepted < 0x8000_0000
  }

  datatype Event =
    | Arrival(g: Segment, off: int, rto: byte, app: App)
    | TimerTick(app: App)
    | PollRequest(app: App)

  ghost predicate Allowed(p: Peer, t: Trace, e: Event) {
    e.Arrival? ==> Truthful(p, e.g, e.off) && (e.g.data != [] || e.g.fin ==> Near(t, e.off))
  }

  /** How many stream bytes the event made the connection accept. */
  function Taken(c: Conn, g: Segment): nat {
    if g.rst || Misplaced(c, g) then 0
    else match c.state
      case SynRcvd => if Acks(c, g) then |g.data| else 0
      case Established => if g.fin && c.len > 0 && !Acks(c, g) then 0 else |g.data|
      case FinWait1 => |g.data|
      case FinWait2 => |g.data|
      case _ => 0
  }

  function TakesFin(c: Conn, g: Segment): bool {
    !g.rst && !Misplaced(c, g) && g.fin &&
    match c.state
    case Established => c.len == 0 || Acks(c, g)
    case FinWait1 => true
    case FinWait2 => true
    case _ => false
  }

  function Step(cfg: Config, t: Trace, e: Event): Trace {
    match e
    case Arrival(g, _, rto, app) =>
      var o := Arrive(t.conn, g, rto, app);
      Trace(o.conn, t.handed + o.handed, t.accepted + Taken(t.conn, g), t.finished || TakesFin(t.conn, g))
    case TimerTick(app) => t.(conn := Tick(cfg, t.conn, app).conn, handed := t.handed + Tick(cfg, t.conn, app).handed)
    case PollRequest(app) => t.(conn := Polled(t.conn, app).conn, handed := t.handed + Polled(t.conn, app).handed)
  }

  function Fin(t: Trace): nat {
    if t.finished then 1 else 0
  }

  ghost predicate Inv(p: Peer, t: Trace) {
    && t.accepted <= |p.stream| && (t.finished ==> t.accepted == |p.stream|)
    && |t.handed| <= t.accepted && t.handed == p.stream[..|t.handed|]
    && match t.conn.state
       case Closed => true
       case SynSent => t.accepted == 0 && !t.finished
       case SynRcvd => Synced(p, t) && !t.finished && |t.handed| == t.accepted
       case Established => Synced(p, t) && !t.finished && |t.handed| == t.accepted
       case LastAck => Synced(p, t) && t.finished && |t.handed| == t.accepted
       case FinWait1 => Synced(p, t) && !t.finished
       case FinWait2 => Synced(p, t) && !t.finished
       case Closing => Synced(p, t) && t.finished
       case TimeWait => Synced(p, t) && t.finished
  }

  /** rcv_nxt is the number after what has been accepted. */
  ghost predicate Synced(p: Peer, t: Trace) {
    t.conn.rcvNxt == SeqOf(p, t.accepted + Fin(t))
  }

  lemma SameOffset(p: Peer, a: nat, b: nat)
    requires SeqOf(p, a) == SeqOf(p, b) && -(U32 as int) < (a as int) - (b as int) < U32
    ensures a == b
  {
    assert (p.irs + 1 + a) % U32 == (p.irs + 1 + b) % U32;
  }

  lemma SeqAdd(p: Peer, off: nat, n: nat)
    ensures Add32(SeqOf(p, off), n) == SeqOf(p, off + n)
  {
  }

  /** A segment that is taken starts exactly at the first byte not yet accepted. */
  lemma {:induction false} TakenIsNext(p: Peer, t: Trace, g: Segment, off: int)
    requires Inv(p, t) && Synced(p, t) && Truthful(p, g, off) && Near(t, off) && (g.data != [] || g.fin)
    requires g.seqno == t.conn.rcvNxt
    ensures !t.finished && off == t.accepted
  {
    SameOffset(p, off, t.accepted + Fin(t));
  }

  /** Appending a taken segment's data extends the prefix. */
  lemma PrefixGrows(s: seq<byte>, handed: seq<byte>, data: seq<byte>)
    requires |handed| + |data| <= |s| && handed == s[..|handed|] && data == s[|handed|..|handed| + |data|]
    ensures handed + data == s[..|handed + data|]
  {
  }

  /** A segment without data or FIN: only the opening handshake moves rcv_nxt. */
  lemma {:induction false} BareArrival(p: Peer, t: Trace, g: Segment, off: int, rto: byte, app: App, cfg: Config)
    requires Inv(p, t) && Truthful(p, g, off) && g.data == [] && !g.fin
    ensures Inv(p, Step(cfg, t, Arrival(g, off, rto, app)))
  {
    assert t.handed + [] == t.handed;
    if t.conn.state == SynSent {
      assert g.syn ==> Add32(g.seqno, 1) == SeqOf(p, 0);
    } else if t.conn.state != Closed {
      SeqAdd(p, t.accepted + Fin(t), 0);
    }
  }

  /** A segment that starts at the expected number, on a synchronised connection. */
  lemma {:induction false} NextArrival(p: Peer, t: Trace, g: Segment, off: int, rto: byte, app: App, cfg: Config)
    requires Inv(p, t) && Synced(p, t) && t.conn.state != SynSent && t.conn.state != Closed
    requires Truthful(p, g, off) && off == t.accepted && !t.finished && !g.rst && !Misplaced(t.conn, g)
    requires g.data != [] || g.fin
    ensures Inv(p, Step(cfg, t, Arrival(g, off, rto, app)))
  {
    assert t.handed + [] == t.handed;
    SeqAdd(p, t.accepted, |g.data|);
    SeqAdd(p, t.accepted, 1 + |g.data|);
    SeqAdd(p, t.accepted + |g.data|, 1);
    if |t.handed| == t.accepted {
      PrefixGrows(p.stream, t.handed, g.data);
    }
  }

  lemma {:induction false} ArrivalKeepsInv(p: Peer, t: Trace, g: Segment, off: int, rto: byte, app: App, cfg: Config)
    requires Inv(p, t) && Allowed(p, t, Arrival(g, off, rto, app))
    ensures Inv(p, Step(cfg, t, Arrival(g, off, rto, app)))
  {
    if g.data == [] && !g.fin {
      BareArrival(p, t, g, off, rto, app, cfg);
    } else if g.rst || Misplaced(t.conn, g) || t.conn.state == SynSent || t.conn.state == Closed {
      assert t.handed + [] == t.handed;
    } else {
      TakenIsNext(p, t, g, off);
      NextArrival(p, t, g, off, rto, app, cfg);
    }
  }

  lemma {:induction false} TimerKeepsInv(p: Peer, t: Trace, app: App, cfg: Config)
    requires Inv(p, t)
    ensures Inv(p, Step(cfg, t, TimerTick(app)))
  {
    assert t.handed + [] == t.handed;
  }

  lemma {:induction false} PollKeepsInv(p: Peer, t: Trace, app: App, cfg: Config)
    requires Inv(p, t)
    ensures Inv(p, Step(cfg, t, PollRequest(app)))
  {
    assert t.handed + [] == t.handed;
  }

  // ---- whole runs

  function Run(cfg: Config, t: Trace, es: seq<Event>): Trace
    decreases es
  {
    if es == [] then t else Run(cfg, Step(cfg, t, es[0]), es[1..])
  }

  ghost predicate AllAllowed(cfg: Config, p: Peer, t: Trace, es: seq<Event>)
    decreases es
  {
    es != [] ==> Allowed(p, t, es[0]) && AllAllowed(cfg, p, Step(cfg, t, es[0]), es[1..])
  }

  lemma {:induction false} RunKeepsInv(cfg: Config, p: Peer, t: Trace, es: seq<Event>)
    requires Inv(p, t) && AllAllowed(cfg, p, t, es)
    ensures Inv(p, Run(cfg, t, es))
    decreases es
  {
    if es != [] {
      match es[0] {
        case Arrival(g, off, rto, app) => ArrivalKeepsInv(p, t, g, off, rto, app, cfg);
        case TimerTick(app) => TimerKeepsInv(p, t, app, cfg);
        case PollRequest(app) => PollKeepsInv(p, t, app, cfg);
      }
      RunKeepsInv(cfg, p, Step(cfg, t, es[0]), es[1..]);
    }
  }

  /** A new connection, by either side's SYN. */
  ghost predicate Opened(cfg: Config, p: Peer, c: Conn) {
    || (exists g: Segment, iss: nat, mss: nat :: g.seqno == SeqOf(p, -1) && c == Accept(cfg, g, iss, mss))
    || (exists iss: nat, mss: nat, stale: nat :: c == Connect(cfg, iss, mss, stale))
  }

  /** In every run from an opening, the application has been handed exactly a prefix
      of the peer's stream: while the connection is established all that has been
      accepted, after the peer's FIN the whole stream; and rcv_nxt counts the
      SYN, the accepted bytes and the FIN, modulo 2^32. */
  lemma {:induction false} InOrderDelivery(cfg: Config, p: Peer, c: Conn, es: seq<Event>)
    requires Opened(cfg, p, c) && AllAllowed(cfg, p, Trace(c, [], 0, false), es)
    ensures var t := Run(cfg, Trace(c, [], 0, false), es);
            && |t.handed| <= t.accepted <= |p.stream| && t.handed == p.stream[..|t.handed|]
            && (t.conn.state == Established ==> t.handed == p.stream[..t.accepted])
            && (t.conn.state == LastAck ==> t.handed == p.stream)
            && (t.conn.state != Closed && t.conn.state != SynSent ==>
                  t.conn.rcvNxt == (p.irs + 1 + t.accepted + Fin(t)) % U32)
  {
    var t0 := Trace(c, [], 0, false);
    assert Inv(p, t0);
    RunKeepsInv(cfg, p, t0, es);
  }

  // ---- and the stream does get through

  /** The next `n` bytes of the stream arrive, unacknowledged data being none. */
  function Piece(p: Peer, off: nat, n: nat): Event
    requires off + n <= |p.stream|
  {
    Arrival(Segment(SeqOf(p, off), 0, false, false, false, false, true, p.stream[off..off + n], 0), off, 0, Nothing)
  }

  /** The peer sending its stream from `off` on in consecutive pieces. */
  function InOrder(p: Peer, off: nat, cuts: seq<nat>): seq<Event>
    requires off <= |p.stream|
    decreases cuts
  {
    if cuts == [] then [] else
    var n := Min(cuts[0], |p.stream| - off);
    [Piece(p, off, n)] + InOrder(p, off + n, cuts[1..])
  }

  function Sum(cuts: seq<nat>): nat {
    if cuts == [] then 0 else cuts[0] + Sum(cuts[1..])
  }

  /** One such piece is accepted, and the run goes on from there. */
  lemma {:induction false} AfterPiece(cfg: Config, p: Peer, t: Trace, n: nat, es: seq<Event>, k: nat) returns (t': Trace)
    requires Inv(p, t) && t.conn.state == Established && t.accepted + n <= |p.stream|
    ensures Inv(p, t') && t'.conn.state == Established && t'.accepted == t.accepted + n
    ensures Hands(cfg, p, t', es, k) ==> Hands(cfg, p, t, [Piece(p, t.accepted, n)] + es, k)
  {
    var e := Piece(p, t.accepted, n);
    t' := Step(cfg, t, e);
    assert ([e] + es)[1..] == es;
    ArrivalKeepsInv(p, t, e.g, t.accepted, 0, Nothing, cfg);
  }

  /** The bytes handed over in a run of allowed events. */
  ghost predicate Hands(cfg: Config, p: Peer, t: Trace, es: seq<Event>, k: nat) {
    k <= |p.stream| && AllAllowed(cfg, p, t, es) && Run(cfg, t, es).handed == p.stream[..k]
  }

  /** On an established connection, pieces arriving in order are all handed over. */
  lemma {:induction false} InOrderIsHanded(cfg: Config, p: Peer, t: Trace, cuts: seq<nat>)
    requires Inv(p, t) && t.conn.state == Established
    ensures Hands(cfg, p, t, InOrder(p, t.accepted, cuts), Min(|p.stream|, t.accepted + Sum(cuts)))
    decreases cuts
  {
    if cuts != [] {
      var n := Min(cuts[0], |p.stream| - t.accepted);
      var rest, k := InOrder(p, t.accepted + n, cuts[1..]), Min(|p.stream|, t.accepted + Sum(cuts));
      var t' := AfterPiece(cfg, p, t, n, rest, k);
      InOrderIsHanded(cfg, p, t', cuts[1..]);
    }
  }
}
