/** The life of a connection (section 3.2 of RFC 793), told from what has happened to it
    and not from its state: who opened it, whether the handshake is complete, which
    number our FIN has, whether it was acknowledged, whether the peer's FIN came,
    and whether something ended the connection early. */
module UipLife {
  import opened Basics
  import opened UipTcp
  import L = UipLiveness

  /** `fin` is the number of our FIN; `peerFirst` says that the peer's came first. */
  datatype Life = Life(
    passive: bool, up: bool, over: bool, fin: Option<nat>, finAcked: bool, peerFin: bool, peerFirst: bool)

  function Born(passive: bool): Life {
    Life(passive, false, false, None, false, false, false)
  }

  /** The state a connection with this life has to be in. */
  function StateOf(l: Life): TcpState {
    if l.over then Closed
    else if !l.up then (if l.passive then SynRcvd else SynSent)
    else if l.fin.None? then Established
    else if !l.peerFin then (if l.finAcked then FinWait2 else FinWait1)
    else if l.peerFirst then (if l.finAcked then Closed else LastAck)
    else if l.finAcked then TimeWait else Closing
  }

  predicate Ended(l: Life) {
    l.over || (l.peerFirst && l.finAcked)
  }

  // ---- what happens

  /** The segment is in sequence, or takes no sequence numbers, or is the expected part
      of the handshake. */
  predicate Heeded(l: Life, c: Conn, g: Segment) {
    || (g.data == [] && !g.syn && !g.fin)
    || g.seqno == c.rcvNxt
    || (!l.up && !g.fin && !g.psh && g.syn && g.ack != l.passive)
  }

  /** It acknowledges everything that was sent. */
  predicate AcksAll(c: Conn, g: Segment) {
    g.ack && c.len > 0 && g.ackno == (c.sndNxt + c.len) % U32
  }

  predicate AcksFin(l: Life, g: Segment) {
    l.fin.Some? && g.ack && g.ackno == (l.fin.value + 1) % U32
  }

  /** The application was called when `number` was the next number to send. */
  function Called(l: Life, number: nat, app: App): Life {
    match app
    case DoAbort => l.(over := true)
    case DoClose => l.(fin := Some(number))
    case _ => l
  }

  function Arrived(l: Life, c: Conn, g: Segment, app: App): Life {
    var number := if AcksAll(c, g) then (c.sndNxt + c.len) % U32 else c.sndNxt;
    if Ended(l) then l
    else if g.rst then l.(over := true)
    else if !Heeded(l, c, g) then l
    else if !l.up then
      if AcksAll(c, g) && (l.passive || (g.syn && !g.fin && !g.psh)) then Called(l.(up := true), number, app)
      else l.(over := !l.passive)
    else if l.fin.Some? then l.(finAcked := l.finAcked || AcksFin(l, g), peerFin := l.peerFin || g.fin)
    else if g.fin then
      if c.len > 0 && !AcksAll(c, g) then l else l.(peerFin := true, peerFirst := true, fin := Some(number))
    else if g.data != [] || AcksAll(c, g) then Called(l, number, app) else l
  }

  function Ticked(cfg: Config, l: Life, c: Conn, app: App): Life {
    if Ended(l) then l
    else if l.finAcked then l.(over := (c.timer + 1) % 256 == cfg.timeWait)
    else if c.len > 0 then
      l.(over := c.timer == 0 && (c.nrtx == cfg.maxRtx || (!l.up && c.nrtx == cfg.maxSynRtx)))
    else Called(l, c.sndNxt, app)
  }

  function Then(cfg: Config, l: Life, c: Conn, e: L.Event): Life {
    match e
    case Segment(g, _, app) => Arrived(l, c, g, app)
    case Timer(app) => Ticked(cfg, l, c, app)
    case Poll(app) => if !Ended(l) && l.up && l.fin.None? && c.len == 0 then Called(l, c.sndNxt, app) else l
  }

  // ---- the law

  /** What ties a connection to its life: the state, and that an unacknowledged FIN is
      all that is outstanding. */
  ghost predicate Lives(c: Conn, l: Life) {
    && c.state == StateOf(l)
    && (Ended(l) ==> c.state == Closed)
    && (!Ended(l) ==>
          && c.sndNxt < U32
          && (!l.up ==> c.len > 0 && l.fin.None?)
          && (l.fin.None? ==> !l.finAcked && !l.peerFin && !l.peerFirst)
          && (l.peerFirst ==> l.peerFin)
          && (l.fin.Some? && !l.finAcked ==> c.len == 1 && l.fin.value == c.sndNxt)
          && (l.finAcked ==> c.len == 0))
  }

  lemma {:induction false} OpeningLives(c: Conn, l: Life, g: Segment, rto: byte, app: App)
    requires Lives(c, l) && !Ended(l) && !l.up
    ensures Lives(Arrive(c, g, rto, app).conn, Arrived(l, c, g, app))
  {
  }

  lemma {:induction false} OpenLives(c: Conn, l: Life, g: Segment, rto: byte, app: App)
    requires Lives(c, l) && !Ended(l) && l.up && l.fin.None?
    ensures Lives(Arrive(c, g, rto, app).conn, Arrived(l, c, g, app))
  {
  }

  lemma {:induction false} ClosingLives(c: Conn, l: Life, g: Segment, rto: byte, app: App)
    requires Lives(c, l) && !Ended(l) && l.up && l.fin.Some?
    ensures Lives(Arrive(c, g, rto, app).conn, Arrived(l, c, g, app))
  {
  }

  lemma {:induction false} ArrivedLives(c: Conn, l: Life, g: Segment, rto: byte, app: App)
    requires Lives(c, l)
    ensures Lives(Arrive(c, g, rto, app).conn, Arrived(l, c, g, app))
  {
    if !Ended(l) {
      if !l.up {
        OpeningLives(c, l, g, rto, app);
      } else if l.fin.None? {
        OpenLives(c, l, g, rto, app);
      } else {
        ClosingLives(c, l, g, rto, app);
      }
    }
  }

  lemma {:induction false} TickedLives(cfg: Config, c: Conn, l: Life, app: App)
    requires Lives(c, l)
    ensures Lives(Tick(cfg, c, app).conn, Ticked(cfg, l, c, app))
  {
  }

  lemma {:induction false} ThenLives(cfg: Config, c: Conn, l: Life, e: L.Event)
    requires Lives(c, l)
    ensures Lives(L.Handle(cfg, c, e).conn, Then(cfg, l, c, e))
  {
    match e
    case Segment(g, rto, app) => ArrivedLives(c, l, g, rto, app);
    case Timer(app) => TickedLives(cfg, c, l, app);
    case Poll(app) =>
  }

  /** The life after a run of events. */
  function LifeAfter(cfg: Config, c: Conn, l: Life, es: seq<L.Event>): Life
    decreases es
  {
    if es == [] then l else LifeAfter(cfg, L.Handle(cfg, c, es[0]).conn, Then(cfg, l, c, es[0]), es[1..])
  }

  lemma {:induction false} RunLives(cfg: Config, c: Conn, l: Life, es: seq<L.Event>)
    requires Lives(c, l)
    ensures Lives(L.After(cfg, c, es), LifeAfter(cfg, c, l, es))
    decreases es
  {
    if es != [] {
      ThenLives(cfg, c, l, es[0]);
      RunLives(cfg, L.Handle(cfg, c, es[0]).conn, Then(cfg, l, c, es[0]), es[1..]);
    }
  }

  /** Over every run from an opening the state is the one the life calls for. */
  lemma {:induction false} StateIsLife(cfg: Config, g: Segment, iss: nat, mss: nat, stale: nat, es: seq<L.Event>)
    requires iss < U32
    ensures var c := Accept(cfg, g, iss, mss); L.After(cfg, c, es).state == StateOf(LifeAfter(cfg, c, Born(true), es))
    ensures var c := Connect(cfg, iss, mss, stale); L.After(cfg, c, es).state == StateOf(LifeAfter(cfg, c, Born(false), es))
  {
    RunLives(cfg, Accept(cfg, g, iss, mss), Born(true), es);
    RunLives(cfg, Connect(cfg, iss, mss, stale), Born(false), es);
  }

  /** So an established connection closes only by a reset, an abort, a limit or the end of
      the closing handshake: without the first three it is closed exactly when the
      peer's FIN came first and ours is acknowledged. */
  lemma {:induction false} ClosedExactly(c: Conn, l: Life)
    requires Lives(c, l) && !l.over
    ensures c.state == Closed <==> l.up && l.peerFirst && l.fin.Some? && l.finAcked && l.peerFin
  {
  }

  // ---- what is answered

  /** FINs and resets: whatever makes our FIN known sends it, the peer's FIN is answered,
      an abort sends a reset, and so does a refused handshake. */
  lemma {:induction false} LifeIsAnswered(cfg: Config, c: Conn, l: Life, e: L.Event)
    requires Lives(c, l) && !Ended(l)
    ensures Answered(l, Then(cfg, l, c, e), e, L.Handle(cfg, c, e).reply)
  {
    match e
    case Segment(g, rto, app) => ArrivalIsAnswered(cfg, c, l, g, rto, app);
    case Timer(app) => TickIsAnswered(cfg, c, l, app);
    case Poll(app) =>
  }

  ghost predicate Answered(l: Life, l': Life, e: L.Event, reply: Reply) {
    && (l.fin.None? && l'.fin.Some? ==> reply == SendFinAck)
    && (!l.peerFin && l'.peerFin && !l'.peerFirst ==> reply == SendAck)
    && (l'.over && !(e.Segment? && e.g.rst) && !l.finAcked ==> reply == SendReset)
    && (reply == SendReset ==> l'.over)
    && (e.Segment? && e.g.rst ==> reply == Drop)
    && (!l.up && l'.up && !l.passive && !l'.over && l'.fin.None? ==> reply == SendAck || reply.SendData?)
  }

  lemma {:induction false} ArrivalIsAnswered(cfg: Config, c: Conn, l: Life, g: Segment, rto: byte, app: App)
    requires Lives(c, l) && !Ended(l)
    ensures Answered(l, Arrived(l, c, g, app), L.Segment(g, rto, app), Arrive(c, g, rto, app).reply)
  {
  }

  lemma {:induction false} TickIsAnswered(cfg: Config, c: Conn, l: Life, app: App)
    requires Lives(c, l) && !Ended(l)
    ensures Answered(l, Ticked(cfg, l, c, app), L.Timer(app), Tick(cfg, c, app).reply)
  {
  }

  /** What is repeated while nothing arrives: the SYN, the SYN|ACK or the FIN, whichever
      is unacknowledged, and data only with the application's help. */
  lemma {:induction false} RepeatsUnacknowledged(cfg: Config, c: Conn, l: Life, app: App)
    requires Lives(c, l) && !Ended(l) && c.len > 0 && c.timer == 0 && !Ticked(cfg, l, c, app).over
    ensures Tick(cfg, c, app).reply ==
            if !l.up then (if l.passive then SendSynAck else SendSyn)
            else if l.fin.Some? then SendFinAck
            else if app.DoSend? && app.n > 0 then SendData(c.len) else Drop
  {
  }

  /** A repeated SYN is answered by the SYN|ACK again, and a poll repeats the SYN. */
  lemma {:induction false} HandshakeRepeats(c: Conn, l: Life, g: Segment, rto: byte, app: App)
    requires Lives(c, l) && !Ended(l) && !l.up
    ensures l.passive && g.syn && !g.fin && !g.rst && !g.ack && !g.psh ==> Arrive(c, g, rto, app).reply == SendSynAck
    ensures !l.passive ==> Polled(c, app).reply == SendSyn
  {
  }

  /** Silence takes `c.timer` ticks, without a reply, before the next repetition. */
  lemma {:induction false} WaitIsSilent(cfg: Config, c: Conn, apps: seq<App>)
    requires L.Retrying(c) && |apps| <= c.timer
    ensures L.Ticks(cfg, c, apps) == c.(timer := c.timer - |apps|)
    ensures |apps| > 0 ==> Tick(cfg, c, apps[0]).reply == Drop
    decreases apps
  {
    if apps != [] {
      WaitIsSilent(cfg, Tick(cfg, c, apps[0]).conn, apps[1..]);
    }
  }

  function Doubled(n: nat, times: nat): nat {
    if times == 0 then n else 2 * Doubled(n, times - 1)
  }

  /** Each repetition doubles the next wait, up to four times, within 8 bits, and counts
      one more; nothing else changes. */
  lemma {:induction false} WaitDoubles(cfg: Config, c: Conn, l: Life, app: App)
    requires Lives(c, l) && !Ended(l) && c.len > 0 && c.timer == 0 && !Ticked(cfg, l, c, app).over
    ensures Tick(cfg, c, app).conn ==
            c.(timer := (Doubled(cfg.rto, Min(c.nrtx, 4)) % 256) as byte, nrtx := (c.nrtx + 1) % 256)
  {
    assert Doubled(cfg.rto, 1) == 2 * cfg.rto;
    assert Doubled(cfg.rto, 2) == 4 * cfg.rto;
    assert Doubled(cfg.rto, 3) == 8 * cfg.rto;
    assert Doubled(cfg.rto, 4) == 16 * cfg.rto;
  }

  // ---- how much is sent, and when

  /** In answer to a segment that leaves nothing outstanding, as much is sent as was asked
      for, as the opening agreed, and as the segment's window holds, unless that is
      empty. */
  lemma {:induction false} SendsWhatFits(c: Conn, g: Segment, rto: byte, n: nat)
    requires c.state == Established && !g.rst && !g.fin && !g.syn && (g.data == [] || g.seqno == c.rcvNxt)
    requires n > 0 && c.initialMss > 0 && (AcksAll(c, g) || (c.len == 0 && g.data != []))
    ensures var o := Arrive(c, g, rto, DoSend(n));
            && o.reply == SendData(o.conn.len) && 0 < o.conn.len <= n && o.conn.len <= c.initialMss
            && (g.wnd > 0 ==> o.conn.len <= g.wnd)
            && (o.conn.len == n || o.conn.len == c.initialMss || o.conn.len == g.wnd)
  {
  }

  /** An acknowledgement restarts the timer; its round-trip estimate counts only when
      nothing was repeated. */
  lemma {:induction false} AckRestartsTimer(c: Conn, g: Segment, rto: byte, app: App)
    requires c.state == Established && !g.rst && !g.fin && !g.syn && (g.data == [] || g.seqno == c.rcvNxt)
    requires AcksAll(c, g)
    ensures var c' := Arrive(c, g, rto, app).conn;
            c'.timer == c'.rto == (if c.nrtx == 0 then rto else c.rto) && (app != DoAbort ==> c'.nrtx == 0)
  {
  }

  /** Waiting for the closing timer to expire starts over when the connection gets there. */
  lemma {:induction false} ClosingWaitStarts(cfg: Config, c: Conn, l: Life, e: L.Event)
    requires Lives(c, l) && !Ended(l)
    ensures var c' := L.Handle(cfg, c, e).conn;
            c'.state == TimeWait && c.state != TimeWait ==> c'.timer == 0
  {
  }

  /** Our FIN is all that is outstanding then, and its repetitions are counted anew. */
  lemma {:induction false} FinStartsCount(cfg: Config, c: Conn, l: Life, e: L.Event)
    requires Lives(c, l) && !Ended(l)
    ensures var c', l' := L.Handle(cfg, c, e).conn, Then(cfg, l, c, e);
            l.fin.None? && l'.fin.Some? ==> c'.len == 1 && c'.nrtx == 0 && l'.fin == Some(c'.sndNxt)
  {
  }

  /** Acknowledgements are not acknowledged: a segment without data, SYN and FIN is not
      answered once the handshake is over, unless the connection only waits for the
      closing timer or the application has something to say. */
  lemma {:induction false} AcksAreQuiet(c: Conn, l: Life, g: Segment, rto: byte)
    requires Lives(c, l) && !Ended(l) && l.up && c.state != TimeWait
    requires g.data == [] && !g.syn && !g.fin && !g.rst
    ensures Arrive(c, g, rto, Nothing).reply == Drop
  {
  }

  /** After a SYN the SYN|ACK is repeated when as many ticks as configured have passed in
      silence; an active open sends its SYN on the second tick. */
  lemma {:induction false} OpeningWaits(
    cfg: Config, g: Segment, iss: nat, mss: nat, stale: nat, apps: seq<App>, app: App)
    requires iss < U32 && cfg.maxRtx > 0 && cfg.maxSynRtx > 0
    ensures |apps| == cfg.rto % 256 ==>
              Tick(cfg, L.Ticks(cfg, Accept(cfg, g, iss, mss), apps), app).reply == SendSynAck
    ensures |apps| == 1 ==> Tick(cfg, L.Ticks(cfg, Connect(cfg, iss, mss, stale), apps), app).reply == SendSyn
  {
    if |apps| == cfg.rto % 256 {
      WaitIsSilent(cfg, Accept(cfg, g, iss, mss), apps);
    }
    if |apps| == 1 {
      WaitIsSilent(cfg, Connect(cfg, iss, mss, stale), apps);
    }
  }

  /** A new connection may send segments of the agreed size, and starts with the
      configured time-out. */
  lemma OpeningSizes(cfg: Config, g: Segment, iss: nat, mss: nat, stale: nat)
    ensures forall c :: c == Accept(cfg, g, iss, mss) || c == Connect(cfg, iss, mss, stale) ==>
              c.mss == c.initialMss == mss && c.rto == cfg.rto % 256 && c.nrtx == 0
  {
  }
}
