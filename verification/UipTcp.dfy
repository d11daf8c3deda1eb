/** The uIP TCP connection machine (src/net/uip.c): what an arriving segment, a
    timer tick and a poll do to one connection. */
module UipTcp {
  import opened Basics

  /** CONFIG_UIP_MAXRTX, _MAXSYNRTX, _RTO and _TIME_WAIT_TIMEOUT. */
  datatype Config = Config(maxRtx: nat, maxSynRtx: nat, rto: nat, timeWait: nat)

  datatype TcpState =
    | Closed | SynRcvd | SynSent | Established | FinWait1 | FinWait2 | Closing | TimeWait | LastAck

  datatype Conn = Conn(
    state: TcpState, rcvNxt: nat, sndNxt: nat, len: nat, timer: byte, nrtx: byte, rto: byte, mss: nat, initialMss: nat)

  datatype Segment = Segment(
    seqno: nat, ackno: nat, syn: bool, fin: bool, rst: bool, ack: bool, psh: bool, data: seq<byte>, wnd: nat)

  /** What the application does when it is called: nothing, uip_close, uip_abort or
      uip_send. */
  datatype App = Nothing | DoClose | DoAbort | DoSend(n: nat)

  datatype Reply = Drop | SendAck | SendSynAck | SendSyn | SendFinAck | SendData(n: nat) | SendReset

  /** The new connection, the bytes handed to the application, the reply. */
  datatype Outcome = Outcome(conn: Conn, handed: seq<byte>, reply: Reply)

  function Add32(a: nat, n: nat): nat {
    (a + n) % U32
  }

  predicate IsSyn(g: Segment) {
    g.syn && !g.fin && !g.rst && !g.ack && !g.psh
  }

  predicate IsSynAck(g: Segment) {
    g.syn && g.ack && !g.fin && !g.rst && !g.psh
  }

  // ---- sending after the application was called

  /** The appsend label. */
  function AppSend(c: Conn, acked: bool, newData: bool, handed: seq<byte>, app: App): Outcome {
    if app.DoAbort? then Outcome(c.(state := Closed), handed, SendReset)
    else if app.DoClose? then Outcome(c.(len := 1, state := FinWait1, nrtx := 0), handed, SendFinAck)
    else
      var slen := if app.DoSend? then app.n else 0;
      var len := if slen > 0 && acked then 0 else c.len;
      var len := if slen > 0 && len == 0 then Min(slen, c.mss) else len;
      Outcome(c.(len := len, nrtx := 0), handed,
              if slen > 0 && len > 0 then SendData(len) else if newData then SendAck else Drop)
  }

  // ---- a segment arrives

  /** The segment is refused because it does not start at the expected number. */
  predicate Misplaced(c: Conn, g: Segment) {
    && !(c.state == SynSent && IsSynAck(g)) && !(c.state == SynRcvd && IsSyn(g))
    && (g.data != [] || g.syn || g.fin) && g.seqno != c.rcvNxt
  }

  /** It acknowledges everything outstanding. */
  predicate Acks(c: Conn, g: Segment) {
    g.ack && c.len > 0 && g.ackno == Add32(c.sndNxt, c.len)
  }

  /** Book-keeping for an acknowledgement; `rto` is the new round-trip estimate. */
  function Acknowledged(c: Conn, rto: byte): Conn {
    var r := if c.nrtx == 0 then rto else c.rto;
    c.(sndNxt := Add32(c.sndNxt, c.len), len := 0, rto := r, timer := r)
  }

  function Advanced(c: Conn, n: nat): Conn {
    c.(rcvNxt := Add32(c.rcvNxt, n))
  }

  function InEstablished(c: Conn, g: Segment, acked: bool, app: App): Outcome {
    if g.fin then
      if c.len > 0 then Outcome(c, [], Drop)
      else Outcome(Advanced(c, 1 + |g.data|).(len := 1, state := LastAck, nrtx := 0), g.data, SendFinAck)
    else
      var c := Advanced(c, |g.data|).(mss := if g.wnd > c.initialMss || g.wnd == 0 then c.initialMss else g.wnd);
      if g.data != [] || acked then AppSend(c, acked, g.data != [], g.data, app) else Outcome(c, [], Drop)
  }

  function InFinWait1(c: Conn, g: Segment, acked: bool): Outcome {
    var c := Advanced(c, |g.data|);
    if g.fin then
      Outcome(Advanced(if acked then c.(state := TimeWait, timer := 0, len := 0) else c.(state := Closing), 1), [], SendAck)
    else if acked then Outcome(c.(state := FinWait2, len := 0), [], Drop)
    else Outcome(c, [], if g.data != [] then SendAck else Drop)
  }

  function InFinWait2(c: Conn, g: Segment): Outcome {
    var c := Advanced(c, |g.data|);
    if g.fin then Outcome(Advanced(c.(state := TimeWait, timer := 0), 1), [], SendAck)
    else Outcome(c, [], if g.data != [] then SendAck else Drop)
  }

  /** The switch on the connection state. */
  function Settle(c: Conn, g: Segment, acked: bool, app: App): Outcome {
    match c.state
    case Closed => Outcome(c, [], Drop)
    case SynRcvd =>
      if acked then AppSend(Advanced(c.(state := Established), |g.data|), false, g.data != [], g.data, app)
      else Outcome(c, [], if IsSyn(g) then SendSynAck else Drop)
    case SynSent =>
      if acked && IsSynAck(g)
      then AppSend(c.(state := Established, rcvNxt := Add32(g.seqno, 1)), false, true, [], app)
      else Outcome(c.(state := Closed), [], SendReset)
    case Established => InEstablished(c, g, acked, app)
    case LastAck => Outcome(if acked then c.(state := Closed) else c, [], Drop)
    case FinWait1 => InFinWait1(c, g, acked)
    case FinWait2 => InFinWait2(c, g)
    case TimeWait => Outcome(c, [], SendAck)
    case Closing => Outcome(if acked then c.(state := TimeWait, timer := 0) else c, [], Drop)
  }

  /** uip_process on a segment for this connection. */
  function Arrive(c: Conn, g: Segment, rto: byte, app: App): Outcome {
    if g.rst then Outcome(c.(state := Closed), [], Drop)
    else if Misplaced(c, g) then Outcome(c, [], SendAck)
    else Settle(if Acks(c, g) then Acknowledged(c, rto) else c, g, Acks(c, g), app)
  }

  // ---- the periodic timer and the poll request

  function Backoff(cfg: Config, nrtx: byte): byte {
    (cfg.rto * (match nrtx case 0 => 1 case 1 => 2 case 2 => 4 case 3 => 8 case _ => 16)) % 256
  }

  predicate GivesUp(cfg: Config, c: Conn) {
    c.nrtx == cfg.maxRtx || ((c.state == SynSent || c.state == SynRcvd) && c.nrtx == cfg.maxSynRtx)
  }

  function Retransmits(c: Conn, app: App): Reply {
    match c.state
    case SynRcvd => SendSynAck
    case SynSent => SendSyn
    case Established => if app.DoSend? && app.n > 0 && c.len > 0 then SendData(c.len) else Drop
    case FinWait1 => SendFinAck
    case Closing => SendFinAck
    case LastAck => SendFinAck
    case _ => Drop
  }

  /** uip_process on a timer tick. */
  function Tick(cfg: Config, c: Conn, app: App): Outcome {
    if c.state == TimeWait || c.state == FinWait2 then
      var t := (c.timer + 1) % 256;
      Outcome(c.(timer := t, state := if t == cfg.timeWait then Closed else c.state), [], Drop)
    else if c.state == Closed then Outcome(c, [], Drop)
    else if c.len > 0 then
      if c.timer != 0 then Outcome(c.(timer := c.timer - 1), [], Drop)
      else if GivesUp(cfg, c) then Outcome(c.(timer := 255, state := Closed), [], SendReset)
      else Outcome(c.(timer := Backoff(cfg, c.nrtx), nrtx := (c.nrtx + 1) % 256), [], Retransmits(c, app))
    else if c.state == Established then AppSend(c, false, false, [], app)
    else Outcome(c, [], Drop)
  }

  function Polled(c: Conn, app: App): Outcome {
    if c.state == Established && c.len == 0 then AppSend(c, false, false, [], app)
    else Outcome(c, [], if c.state == SynSent then SendSyn else Drop)
  }

  // ---- opening

  /** A SYN for a listening port. */
  function Accept(cfg: Config, g: Segment, iss: nat, mss: nat): Conn {
    Conn(SynRcvd, Add32(g.seqno, 1), iss, 1, (cfg.rto % 256) as byte, 0, (cfg.rto % 256) as byte, mss, mss)
  }

  /** uip_connect; rcvNxt is left from the slot's earlier use. */
  function Connect(cfg: Config, iss: nat, mss: nat, stale: nat): Conn {
    Conn(SynSent, stale, iss, 1, 1, 0, (cfg.rto % 256) as byte, mss, mss)
  }
}
