/** A silent connection always dies: timer ticks alone close it. */
module UipLiveness {
  import opened Basics
  import opened UipTcp

  /** The 8-bit counters can reach the configured limits. */
  ghost predicate ConfigOk(cfg: Config) {
    cfg.maxRtx < 256 && cfg.timeWait < 256
  }

  /** States in which something is always outstanding. */
  predicate Expecting(s: TcpState) {
    s == SynRcvd || s == SynSent || s == FinWait1 || s == Closing || s == LastAck
  }

  predicate Outstanding(c: Conn) {
    Expecting(c.state) ==> c.len > 0
  }

  ghost predicate Inv(cfg: Config, c: Conn) {
    Outstanding(c) && c.nrtx <= cfg.maxRtx
  }

  datatype Event = Segment(g: UipTcp.Segment, rto: byte, app: App) | Timer(app: App) | Poll(app: App)

  function Handle(cfg: Config, c: Conn, e: Event): Outcome {
    match e
    case Segment(g, rto, app) => Arrive(c, g, rto, app)
    case Timer(app) => Tick(cfg, c, app)
    case Poll(app) => Polled(c, app)
  }

  function After(cfg: Config, c: Conn, es: seq<Event>): Conn
    decreases es
  {
    if es == [] then c else After(cfg, Handle(cfg, c, es[0]).conn, es[1..])
  }

  /** Every event, whatever the configuration, leaves something outstanding in those
      states. */
  lemma {:induction false} HandleKeepsOutstanding(cfg: Config, c: Conn, e: Event)
    requires Outstanding(c)
    ensures Outstanding(Handle(cfg, c, e).conn)
  {
  }

  /** The retransmission counter only leaves its range if the limit does. */
  lemma {:induction false} HandleKeepsCount(cfg: Config, c: Conn, e: Event)
    requires ConfigOk(cfg) && c.nrtx <= cfg.maxRtx
    ensures Handle(cfg, c, e).conn.nrtx <= cfg.maxRtx
  {
  }

  /** Over every run from an opening, in every state but CLOSED, ESTABLISHED,
      TIME_WAIT and FIN_WAIT_2 something is outstanding. */
  lemma {:induction false} OutstandingOverRuns(cfg: Config, c: Conn, es: seq<Event>)
    requires Outstanding(c)
    ensures Outstanding(After(cfg, c, es))
    decreases es
  {
    if es != [] {
      HandleKeepsOutstanding(cfg, c, es[0]);
      OutstandingOverRuns(cfg, Handle(cfg, c, es[0]).conn, es[1..]);
    }
  }

  lemma {:induction false} CountOverRuns(cfg: Config, c: Conn, es: seq<Event>)
    requires ConfigOk(cfg) && c.nrtx <= cfg.maxRtx
    ensures After(cfg, c, es).nrtx <= cfg.maxRtx
    decreases es
  {
    if es != [] {
      HandleKeepsCount(cfg, c, es[0]);
      CountOverRuns(cfg, Handle(cfg, c, es[0]).conn, es[1..]);
    }
  }

  lemma OpeningsKeepInv(cfg: Config, g: UipTcp.Segment, iss: nat, mss: nat, stale: nat)
    ensures Inv(cfg, Accept(cfg, g, iss, mss)) && Inv(cfg, Connect(cfg, iss, mss, stale))
  {
  }

  /** The timer is running towards a close. */
  predicate Dying(c: Conn) {
    c.state == Closed || c.state == TimeWait || c.state == FinWait2 || c.len > 0
  }

  /** An upper bound on the ticks left. */
  ghost function TicksLeft(cfg: Config, c: Conn): nat
    requires ConfigOk(cfg) && Inv(cfg, c)
  {
    if c.state == Closed then 0
    else if c.state == TimeWait || c.state == FinWait2 then (cfg.timeWait - c.timer - 1) % 256 + 1
    else (cfg.maxRtx - c.nrtx) * 256 + c.timer + 1
  }

  /** One step of the 8-bit timer towards its limit. */
  lemma TimerNears(limit: nat, t: nat)
    requires limit < 256 && t < 256 && (t + 1) % 256 != limit
    ensures (limit - (t + 1) % 256 - 1) % 256 < (limit - t - 1) % 256
  {
    if t < limit {
      assert (limit - t - 1) % 256 == limit - t - 1;
    } else {
      assert (limit - t - 1) % 256 == limit - t - 1 + 256;
    }
  }

  lemma {:induction false} WaitCountsDown(cfg: Config, c: Conn, app: App)
    requires ConfigOk(cfg) && Inv(cfg, c) && (c.state == TimeWait || c.state == FinWait2)
    ensures var c' := Tick(cfg, c, app).conn;
            Inv(cfg, c') && Dying(c') && TicksLeft(cfg, c') < TicksLeft(cfg, c)
  {
    if (c.timer + 1) % 256 != cfg.timeWait {
      TimerNears(cfg.timeWait, c.timer);
    }
  }

  lemma {:induction false} RetryCountsDown(cfg: Config, c: Conn, app: App)
    requires ConfigOk(cfg) && Inv(cfg, c) && c.state != TimeWait && c.state != FinWait2 && c.state != Closed && c.len > 0
    ensures var c' := Tick(cfg, c, app).conn;
            Inv(cfg, c') && Dying(c') && TicksLeft(cfg, c') < TicksLeft(cfg, c)
  {
    if c.timer == 0 && !GivesUp(cfg, c) {
      assert c.nrtx < cfg.maxRtx && Backoff(cfg, c.nrtx) < 256;
    }
  }

  lemma {:induction false} TickCountsDown(cfg: Config, c: Conn, app: App)
    requires ConfigOk(cfg) && Inv(cfg, c) && Dying(c)
    ensures var c' := Tick(cfg, c, app).conn;
            Inv(cfg, c') && Dying(c') && (c.state == Closed ==> c' == c) &&
            (c.state != Closed ==> TicksLeft(cfg, c') < TicksLeft(cfg, c))
  {
    if c.state == TimeWait || c.state == FinWait2 {
      WaitCountsDown(cfg, c, app);
    } else if c.state != Closed {
      RetryCountsDown(cfg, c, app);
    }
  }

  function Ticks(cfg: Config, c: Conn, apps: seq<App>): Conn
    decreases apps
  {
    if apps == [] then c else Ticks(cfg, Tick(cfg, c, apps[0]).conn, apps[1..])
  }

  /** From any reachable state with outstanding data, or in TIME_WAIT or
      FIN_WAIT_2, that many silent ticks close the connection, whatever the
      application does. */
  lemma {:induction false} SilenceCloses(cfg: Config, c: Conn, apps: seq<App>)
    requires ConfigOk(cfg) && Inv(cfg, c) && Dying(c) && |apps| >= 256 * (cfg.maxRtx + 1)
    ensures Ticks(cfg, c, apps).state == Closed
  {
    assert TicksLeft(cfg, c) <= 256 * (cfg.maxRtx + 1);
    CountDown(cfg, c, apps);
  }

  lemma {:induction false} CountDown(cfg: Config, c: Conn, apps: seq<App>)
    requires ConfigOk(cfg) && Inv(cfg, c) && Dying(c) && |apps| >= TicksLeft(cfg, c)
    ensures Ticks(cfg, c, apps).state == Closed
    decreases apps
  {
    if apps != [] {
      TickCountsDown(cfg, c, apps[0]);
      CountDown(cfg, Tick(cfg, c, apps[0]).conn, apps[1..]);
    }
  }

  /** Whatever happened since a connection was opened, from then on silence closes it,
      unless it is established with nothing outstanding. */
  lemma {:induction false} SilentConnectionDies(cfg: Config, c: Conn, es: seq<Event>, apps: seq<App>)
    requires ConfigOk(cfg) && |apps| >= 256 * (cfg.maxRtx + 1)
    requires || (exists g, iss, mss :: c == Accept(cfg, g, iss, mss))
             || (exists iss, mss, stale :: c == Connect(cfg, iss, mss, stale))
    ensures var c' := After(cfg, c, es);
            (c'.state == Established && c'.len == 0) || Ticks(cfg, c', apps).state == Closed
  {
    forall g, iss, mss, stale {
      OpeningsKeepInv(cfg, g, iss, mss, stale);
    }
    assert Inv(cfg, c);
    OutstandingOverRuns(cfg, c, es);
    CountOverRuns(cfg, c, es);
    var c' := After(cfg, c, es);
    if c'.state != Established || c'.len > 0 {
      SilenceCloses(cfg, c', apps);
    }
  }

  /** The limit must fit the 8-bit timer: TIME_WAIT ends exactly when it does. */
  lemma {:induction false} TimeWaitEndsExactly(cfg: Config, c: Conn)
    requires c.state == TimeWait || c.state == FinWait2
    ensures (exists apps: seq<App> :: Ticks(cfg, c, apps).state == Closed) <==> cfg.timeWait < 256
  {
    if cfg.timeWait < 256 {
      var cfg' := cfg.(maxRtx := 255);
      var apps := seq(256 * 256, _ => Nothing);
      CountDown(cfg', c, apps);
      SameTicks(cfg, cfg', c, apps);
    } else {
      forall apps: seq<App>
        ensures Ticks(cfg, c, apps).state != Closed
      {
        NeverCloses(cfg, c, apps);
      }
    }
  }

  lemma {:induction false} SameTicks(cfg: Config, cfg': Config, c: Conn, apps: seq<App>)
    requires c.state == TimeWait || c.state == FinWait2 || c.state == Closed
    requires cfg.timeWait == cfg'.timeWait
    ensures Ticks(cfg, c, apps) == Ticks(cfg', c, apps)
    decreases apps
  {
    if apps != [] {
      SameTicks(cfg, cfg', Tick(cfg, c, apps[0]).conn, apps[1..]);
    }
  }

  lemma {:induction false} NeverCloses(cfg: Config, c: Conn, apps: seq<App>)
    requires (c.state == TimeWait || c.state == FinWait2) && cfg.timeWait >= 256
    ensures Ticks(cfg, c, apps).state == c.state
    decreases apps
  {
    if apps != [] {
      NeverCloses(cfg, Tick(cfg, c, apps[0]).conn, apps[1..]);
    }
  }

  // ---- giving up

  /** Something is outstanding and the timer is running. */
  predicate Retrying(c: Conn) {
    c.len > 0 && c.state != Closed && c.state != TimeWait && c.state != FinWait2
  }

  /** The counter value `limit` makes the connection give up. */
  predicate Limits(cfg: Config, s: TcpState, limit: nat) {
    limit == cfg.maxRtx || ((s == SynSent || s == SynRcvd) && limit == cfg.maxSynRtx)
  }

  /** Ticks left until the 8-bit counter, going round if need be, meets `limit`. */
  function RetriesLeft(limit: nat, c: Conn): nat {
    (limit - c.nrtx) % 256 * 256 + c.timer + 1
  }

  lemma {:induction false} TickNears(cfg: Config, c: Conn, app: App, limit: nat)
    requires Retrying(c) && limit < 256 && Limits(cfg, c.state, limit)
    ensures var c' := Tick(cfg, c, app).conn;
            c'.state == Closed || (Retrying(c') && c'.state == c.state && RetriesLeft(limit, c') < RetriesLeft(limit, c))
  {
    if c.timer == 0 && !GivesUp(cfg, c) {
      CounterNears(limit, c.nrtx);
    }
  }

  lemma CounterNears(limit: nat, n: nat)
    requires limit < 256 && n < 256 && n != limit
    ensures (limit - (n + 1) % 256) % 256 == (limit - n) % 256 - 1
  {
    if n < limit {
      assert (limit - n) % 256 == limit - n;
    } else {
      assert (limit - n) % 256 == limit - n + 256;
    }
  }

  lemma {:induction false} StaysClosed(cfg: Config, c: Conn, apps: seq<App>)
    requires c.state == Closed
    ensures Ticks(cfg, c, apps).state == Closed
    decreases apps
  {
    if apps != [] {
      StaysClosed(cfg, Tick(cfg, c, apps[0]).conn, apps[1..]);
    }
  }

  lemma {:induction false} RetriesRunOut(cfg: Config, c: Conn, apps: seq<App>, limit: nat)
    requires Retrying(c) && limit < 256 && Limits(cfg, c.state, limit) && |apps| >= RetriesLeft(limit, c)
    ensures Ticks(cfg, c, apps).state == Closed
    decreases apps
  {
    if apps != [] {
      TickNears(cfg, c, apps[0], limit);
      var c' := Tick(cfg, c, apps[0]).conn;
      if c'.state == Closed {
        StaysClosed(cfg, c', apps[1..]);
      } else {
        RetriesRunOut(cfg, c', apps[1..], limit);
      }
    }
  }

  lemma {:induction false} NeverGivesUp(cfg: Config, c: Conn, apps: seq<App>)
    requires Retrying(c) && !CanGiveUp(cfg, c.state)
    ensures Ticks(cfg, c, apps).state == c.state
    decreases apps
  {
    if apps != [] {
      NeverGivesUp(cfg, Tick(cfg, c, apps[0]).conn, apps[1..]);
    }
  }

  /** Some limit for this state fits the 8-bit counter. */
  predicate CanGiveUp(cfg: Config, s: TcpState) {
    cfg.maxRtx < 256 || ((s == SynSent || s == SynRcvd) && cfg.maxSynRtx < 256)
  }

  /** So must a limit on retransmissions: whenever something is outstanding, in every
      state and from every counter value, silence closes the connection exactly
      when a limit for its state fits the 8-bit counter; and then 65536 ticks are
      enough, whatever the application does. */
  lemma {:induction false} GivesUpExactly(cfg: Config, c: Conn)
    requires Retrying(c)
    ensures (exists apps: seq<App> :: Ticks(cfg, c, apps).state == Closed) <==> CanGiveUp(cfg, c.state)
    ensures CanGiveUp(cfg, c.state) ==>
              forall apps: seq<App> :: |apps| >= 0x1_0000 ==> Ticks(cfg, c, apps).state == Closed
  {
    if CanGiveUp(cfg, c.state) {
      var limit := if cfg.maxRtx < 256 then cfg.maxRtx else cfg.maxSynRtx;
      forall apps: seq<App> | |apps| >= 0x1_0000
        ensures Ticks(cfg, c, apps).state == Closed
      {
        RetriesRunOut(cfg, c, apps, limit);
      }
      var apps := seq(0x1_0000, _ => Nothing);
      assert Ticks(cfg, c, apps).state == Closed;
    } else {
      forall apps: seq<App>
        ensures Ticks(cfg, c, apps).state != Closed
      {
        NeverGivesUp(cfg, c, apps);
      }
    }
  }

  /** Silence can end a connection in this state. */
  predicate CanEnd(cfg: Config, s: TcpState) {
    match s
    case Closed => true
    case TimeWait => cfg.timeWait < 256
    case FinWait2 => cfg.timeWait < 256
    case _ => CanGiveUp(cfg, s)
  }

  /** All together, for every configuration: whatever happened since a connection was
      opened, unless it is established with nothing outstanding, ticks alone can
      close it exactly when the limit for its state fits its counter. */
  lemma {:induction false} SilenceClosesExactly(cfg: Config, c: Conn, es: seq<Event>)
    requires || (exists g, iss, mss :: c == Accept(cfg, g, iss, mss))
             || (exists iss, mss, stale :: c == Connect(cfg, iss, mss, stale))
    ensures var c' := After(cfg, c, es);
            || (c'.state == Established && c'.len == 0)
            || ((exists apps: seq<App> :: Ticks(cfg, c', apps).state == Closed) <==> CanEnd(cfg, c'.state))
  {
    OutstandingOverRuns(cfg, c, es);
    var c' := After(cfg, c, es);
    if c'.state == TimeWait || c'.state == FinWait2 {
      TimeWaitEndsExactly(cfg, c');
    } else if c'.state == Closed {
      var none: seq<App> := [];
      StaysClosed(cfg, c', none);
    } else if c'.len > 0 {
      GivesUpExactly(cfg, c');
    }
  }
}
