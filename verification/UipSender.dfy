/** The sending side of the connection machine (src/net/uip.c): one piece of data at
    a time, repeated unchanged until all of it is acknowledged. */
module UipSender {
  import opened Basics
  import opened UipTcp
  import L = UipLiveness

  /** The current segment size never exceeds the one agreed at the opening, nor does
      the outstanding data of an established connection. */
  ghost predicate SendOk(c: Conn) {
    c.mss <= c.initialMss && (c.state == Established ==> c.len <= c.initialMss)
  }

  /** The event acknowledges everything outstanding. */
  predicate Acking(c: Conn, e: L.Event) {
    e.Segment? && !e.g.rst && !Misplaced(c, e.g) && Acks(c, e.g)
  }

  lemma {:induction false} HandleKeepsSendOk(cfg: Config, c: Conn, e: L.Event)
    requires SendOk(c)
    ensures SendOk(L.Handle(cfg, c, e).conn) && L.Handle(cfg, c, e).conn.initialMss == c.initialMss
  {
  }

  /** What is sent is what is outstanding, and never more than agreed. */
  lemma {:induction false} SentIsOutstanding(cfg: Config, c: Conn, e: L.Event)
    requires SendOk(c)
    ensures var o := L.Handle(cfg, c, e);
            o.reply.SendData? ==> o.conn.state == Established && 0 < o.reply.n == o.conn.len <= c.initialMss
  {
  }

  /** Outstanding data is neither replaced nor forgotten: as long as the connection
      is established it changes only by being acknowledged. */
  lemma {:induction false} OutstandingStays(cfg: Config, c: Conn, e: L.Event)
    requires c.state == Established && c.len > 0 && !Acking(c, e)
    ensures var c' := L.Handle(cfg, c, e).conn;
            c'.sndNxt == c.sndNxt && (c'.state == Established ==> c'.len == c.len)
  {
  }

  /** The send number moves over the outstanding length when that is acknowledged,
      and never otherwise. */
  lemma {:induction false} NumberMovesByAcks(cfg: Config, c: Conn, e: L.Event)
    requires c.sndNxt < U32
    ensures L.Handle(cfg, c, e).conn.sndNxt == if Acking(c, e) then Add32(c.sndNxt, c.len) else c.sndNxt
  {
  }

  /** How much a run of events acknowledges, the SYN and the FIN counting one. */
  function Acknowledgements(cfg: Config, c: Conn, es: seq<L.Event>): nat
    decreases es
  {
    if es == [] then 0 else
    (if Acking(c, es[0]) then c.len else 0) + Acknowledgements(cfg, L.Handle(cfg, c, es[0]).conn, es[1..])
  }

  lemma AddTwice(a: nat, m: nat, n: nat)
    ensures (Add32(a, m) + n) % U32 == (a + (m + n)) % U32
  {
  }

  /** Over every run the agreed size bounds what is sent, and the send number is the
      initial one plus everything acknowledged, modulo 2^32. */
  lemma {:induction false} NumberCountsAcks(cfg: Config, c: Conn, es: seq<L.Event>)
    requires c.sndNxt < U32 && SendOk(c)
    ensures var c' := L.After(cfg, c, es);
            && SendOk(c') && c'.initialMss == c.initialMss
            && c'.sndNxt == (c.sndNxt + Acknowledgements(cfg, c, es)) % U32
    decreases es
  {
    if es != [] {
      var a, c1 := AfterFirst(cfg, c, es);
      NumberCountsAcks(cfg, c1, es[1..]);
      AddTwice(c.sndNxt, a, Acknowledgements(cfg, c1, es[1..]));
    }
  }

  /** What the first event of a run acknowledges, and the connection behind it. */
  lemma {:induction false} AfterFirst(cfg: Config, c: Conn, es: seq<L.Event>) returns (a: nat, c1: Conn)
    requires c.sndNxt < U32 && SendOk(c) && es != []
    ensures SendOk(c1) && c1.initialMss == c.initialMss && c1.sndNxt == Add32(c.sndNxt, a)
    ensures L.After(cfg, c, es) == L.After(cfg, c1, es[1..])
    ensures Acknowledgements(cfg, c, es) == a + Acknowledgements(cfg, c1, es[1..])
  {
    a, c1 := if Acking(c, es[0]) then c.len else 0, L.Handle(cfg, c, es[0]).conn;
    NumberMovesByAcks(cfg, c, es[0]);
    HandleKeepsSendOk(cfg, c, es[0]);
  }

  /** A connection just opened, from either side. */
  ghost predicate Opened(cfg: Config, c: Conn, iss: nat, mss: nat) {
    (exists g :: c == Accept(cfg, g, iss, mss)) || (exists stale :: c == Connect(cfg, iss, mss, stale))
  }

  /** So over every run from an opening: the send number is the initial one plus
      everything acknowledged, and what is outstanding on an established
      connection never exceeds the agreed segment size. */
  lemma {:induction false} SendingFromOpening(cfg: Config, c: Conn, iss: nat, mss: nat, es: seq<L.Event>)
    requires iss < U32 && Opened(cfg, c, iss, mss)
    ensures var c' := L.After(cfg, c, es);
            && c'.sndNxt == (iss + Acknowledgements(cfg, c, es)) % U32
            && c'.mss <= mss && (c'.state == Established ==> c'.len <= mss)
  {
    NumberCountsAcks(cfg, c, es);
  }

  /** A state that takes the data of this segment when it is in sequence. */
  predicate Accepts(c: Conn, g: Segment) {
    match c.state
    case SynRcvd => Acks(c, g)
    case Established => !g.fin || c.len == 0 || Acks(c, g)
    case FinWait1 => true
    case FinWait2 => true
    case _ => false
  }

  /** Data out of sequence changes nothing and is always answered with the expected
      number. Data in sequence that is taken is answered at once, except exactly
      when it comes without a FIN in the segment that acknowledges our own: that
      one moves FIN_WAIT_1 to FIN_WAIT_2 without an answer. Data that is not
      taken is answered in SYN_SENT and TIME_WAIT only. */
  lemma {:induction false} DataIsAnsweredExactly(c: Conn, g: Segment, rto: byte, app: App)
    requires !g.rst && !g.syn && g.data != []
    ensures g.seqno != c.rcvNxt ==> Arrive(c, g, rto, app) == Outcome(c, [], SendAck)
    ensures Arrive(c, g, rto, app).reply == Drop <==>
            && g.seqno == c.rcvNxt
            && if Accepts(c, g) then c.state == FinWait1 && Acks(c, g) && !g.fin
               else c.state != SynSent && c.state != TimeWait
  {
  }
}
