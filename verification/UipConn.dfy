/** The connection record and the code that updates it field by field
    (src/net/uip.c), with the gotos of uip_process turned into calls. */
module UipConn {
  import opened Basics
  import opened UipTcp

  class Connection {
    const cfg: Config
    var state: TcpState
    var rcvNxt: nat
    var sndNxt: nat
    var len: nat
    var timer: byte
    var nrtx: byte
    var rto: byte
    var mss: nat
    var initialMss: nat

    ghost function Value(): Conn
      reads this
    {
      Conn(state, rcvNxt, sndNxt, len, timer, nrtx, rto, mss, initialMss)
    }

    constructor Listen(cfg: Config, g: Segment, iss: nat, mss: nat)
      ensures Value() == Accept(cfg, g, iss, mss) && this.cfg == cfg
    {
      this.cfg := cfg;
      rto, timer, nrtx := cfg.rto % 256, cfg.rto % 256, 0;
      state, sndNxt, len := SynRcvd, iss, 1;
      rcvNxt := Add32(g.seqno, 1);
      this.mss, initialMss := mss, mss;
    }

    constructor Open(cfg: Config, iss: nat, mss: nat, stale: nat)
      ensures Value() == Connect(cfg, iss, mss, stale) && this.cfg == cfg
    {
      this.cfg := cfg;
      state, sndNxt, rcvNxt := SynSent, iss, stale;
      this.mss, initialMss := mss, mss;
      len, nrtx, timer, rto := 1, 0, 1, cfg.rto % 256;
    }

    /** The code at the appsend label, after the application was called. */
    method SendAfterCall(ackData: bool, newData: bool, ghost handed: seq<byte>, app: App) returns (reply: Reply)
      modifies this
      ensures var o := AppSend(old(Value()), ackData, newData, handed, app); Value() == o.conn && reply == o.reply
    {
      if app.DoAbort? {
        state := Closed;
        return SendReset;
      }
      if app.DoClose? {
        len := 1;
        state := FinWait1;
        nrtx := 0;
        return SendFinAck;
      }
      var slen := if app.DoSend? then app.n else 0;
      if slen > 0 {
        if ackData {
          len := 0;
        }
        if len == 0 {
          if slen > mss {
            slen := mss;
          }
          len := slen;
        } else {
          slen := len;
        }
      }
      nrtx := 0;
      if slen > 0 && len > 0 {
        return SendData(len);
      }
      return if newData then SendAck else Drop;
    }

    method AddRcvNxt(n: nat)
      modifies this`rcvNxt
      ensures rcvNxt == Add32(old(rcvNxt), n)
    {
      rcvNxt := Add32(rcvNxt, n);
    }

    /** "Check if the incoming segment acknowledges any outstanding data." */
    method CheckAck(g: Segment, newRto: byte) returns (ackData: bool)
      modifies this
      ensures ackData == Acks(old(Value()), g)
      ensures Value() == if ackData then Acknowledged(old(Value()), newRto) else old(Value())
    {
      if g.ack && len != 0 {
        var acc := Add32(sndNxt, len);
        if g.ackno == acc {
          sndNxt := acc;
          if nrtx == 0 {
            rto := newRto;
          }
          timer := rto;
          len := 0;
          return true;
        }
      }
      return false;
    }

    method EstablishedInput(g: Segment, ackData: bool, app: App) returns (handed: seq<byte>, reply: Reply)
      requires state == Established
      modifies this
      ensures Outcome(Value(), handed, reply) == InEstablished(old(Value()), g, ackData, app)
    {
      handed := [];
      if g.fin {
        if len != 0 {
          return [], Drop;
        }
        AddRcvNxt(1 + |g.data|);
        handed := g.data;
        len := 1;
        state := LastAck;
        nrtx := 0;
        return handed, SendFinAck;
      }
      var newData := false;
      if |g.data| > 0 {
        newData := true;
      }
      AddRcvNxt(|g.data|);
      var wnd := g.wnd;
      if wnd > initialMss || wnd == 0 {
        wnd := initialMss;
      }
      mss := wnd;
      if newData || ackData {
        handed := g.data;
        reply := SendAfterCall(ackData, newData, handed, app);
        return;
      }
      return [], Drop;
    }

    method FinWait1Input(g: Segment, ackData: bool) returns (reply: Reply)
      modifies this
      ensures Outcome(Value(), [], reply) == InFinWait1(old(Value()), g, ackData)
    {
      AddRcvNxt(|g.data|);
      if g.fin {
        if ackData {
          state := TimeWait;
          timer := 0;
          len := 0;
        } else {
          state := Closing;
        }
        AddRcvNxt(1);
        return SendAck;
      } else if ackData {
        state := FinWait2;
        len := 0;
        return Drop;
      }
      return if |g.data| > 0 then SendAck else Drop;
    }

    method FinWait2Input(g: Segment) returns (reply: Reply)
      modifies this
      ensures Outcome(Value(), [], reply) == InFinWait2(old(Value()), g)
    {
      AddRcvNxt(|g.data|);
      if g.fin {
        state := TimeWait;
        timer := 0;
        AddRcvNxt(1);
        return SendAck;
      }
      return if |g.data| > 0 then SendAck else Drop;
    }

    method SynRcvdInput(g: Segment, ackData: bool, app: App) returns (handed: seq<byte>, reply: Reply)
      requires state == SynRcvd && (ackData ==> len == 0)
      modifies this
      ensures Outcome(Value(), handed, reply) ==
              if ackData
              then AppSend(Advanced(old(Value()).(state := Established), |g.data|), false, g.data != [], g.data, app)
              else Outcome(old(Value()), [], if IsSyn(g) then SendSynAck else Drop)
    {
      if ackData {
        state := Established;
        len := 0;
        handed := g.data;
        AddRcvNxt(|g.data|);
        reply := SendAfterCall(false, |g.data| > 0, handed, app);
      } else {
        handed, reply := [], if IsSyn(g) then SendSynAck else Drop;
      }
    }

    method SynSentInput(g: Segment, ackData: bool, app: App) returns (reply: Reply)
      requires state == SynSent && (ackData ==> len == 0)
      modifies this
      ensures Outcome(Value(), [], reply) ==
              if ackData && IsSynAck(g)
              then AppSend(old(Value()).(state := Established, rcvNxt := Add32(g.seqno, 1)), false, true, [], app)
              else Outcome(old(Value()).(state := Closed), [], SendReset)
    {
      if ackData && IsSynAck(g) {
        state := Established;
        rcvNxt := Add32(g.seqno, 1);
        len := 0;
        reply := SendAfterCall(false, true, [], app);
      } else {
        state := Closed;
        reply := SendReset;
      }
    }

    method Dispatch(g: Segment, ackData: bool, app: App) returns (handed: seq<byte>, reply: Reply)
      requires ackData ==> len == 0
      modifies this
      ensures Outcome(Value(), handed, reply) == Settle(old(Value()), g, ackData, app)
    {
      handed := [];
      match state {
        case Closed =>
          reply := Drop;
        case SynRcvd =>
          handed, reply := SynRcvdInput(g, ackData, app);
        case SynSent =>
          reply := SynSentInput(g, ackData, app);
        case Established =>
          handed, reply := EstablishedInput(g, ackData, app);
        case LastAck =>
          if ackData {
            state := Closed;
          }
          reply := Drop;
        case FinWait1 =>
          reply := FinWait1Input(g, ackData);
        case FinWait2 =>
          reply := FinWait2Input(g);
        case TimeWait =>
          reply := SendAck;
        case Closing =>
          if ackData {
            state := TimeWait;
            timer := 0;
          }
          reply := Drop;
      }
    }

    /** uip_process(UIP_DATA), from the found label on. */
    method Input(g: Segment, newRto: byte, app: App) returns (handed: seq<byte>, reply: Reply)
      modifies this
      ensures Outcome(Value(), handed, reply) == Arrive(old(Value()), g, newRto, app)
    {
      if g.rst {
        state := Closed;
        return [], Drop;
      }
      if !((state == SynSent && IsSynAck(g)) || (state == SynRcvd && IsSyn(g))) {
        if (|g.data| > 0 || g.syn || g.fin) && g.seqno != rcvNxt {
          return [], SendAck;
        }
      }
      var ackData := CheckAck(g, newRto);
      handed, reply := Dispatch(g, ackData, app);
    }

    /** uip_process(UIP_TIMER) */
    method Periodic(app: App) returns (reply: Reply)
      modifies this
      ensures Outcome(Value(), [], reply) == Tick(cfg, old(Value()), app)
    {
      if state == TimeWait || state == FinWait2 {
        timer := (timer + 1) % 256;
        if timer == cfg.timeWait {
          state := Closed;
        }
        return Drop;
      }
      if state != Closed {
        if len != 0 {
          var was := timer;
          timer := (timer - 1) % 256;
          if was == 0 {
            if nrtx == cfg.maxRtx || ((state == SynSent || state == SynRcvd) && nrtx == cfg.maxSynRtx) {
              state := Closed;
              return SendReset;
            }
            timer := Backoff(cfg, nrtx);
            nrtx := (nrtx + 1) % 256;
            reply := Retransmits(Conn(state, rcvNxt, sndNxt, len, timer, nrtx, rto, mss, initialMss), app);
            return;
          }
        } else if state == Established {
          reply := SendAfterCall(false, false, [], app);
          return;
        }
      }
      return Drop;
    }

    /** uip_process(UIP_POLL_REQUEST) */
    method PollRequest(app: App) returns (reply: Reply)
      modifies this
      ensures Outcome(Value(), [], reply) == Polled(old(Value()), app)
    {
      if state == Established && len == 0 {
        reply := SendAfterCall(false, false, [], app);
      } else if state == SynSent {
        reply := SendSyn;
      } else {
        reply := Drop;
      }
    }
  }
}
