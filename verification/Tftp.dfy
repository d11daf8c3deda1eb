/** The TFTP client (src/netboot/tftp.c): a lock-step receiver with 16-bit block
    numbers, as sections 2, 4 and 6 of RFC 1350 describe the protocol. */
module Tftp {
  import opened Basics

  const BLOCK_SIZE: nat := 512
  const WRAP: nat := 0x1_0000
  const OP_DATA: nat := 3
  const OP_ERROR: nat := 5

  datatype Status = Pending | Success | Failure

  datatype Sent = ReadRequest | Acked(port: nat, number: nat)

  /** The static variables of the transfer; `written` is what has been copied to
      the destination, `rport` is 0 until the server's port is known. */
  datatype Client = Client(
    status: Status, gotResponse: bool, blocknum: nat, written: seq<byte>, maxSize: nat, rport: nat, sent: seq<Sent>)

  function Start(maxSize: nat): Client {
    Client(Pending, false, 1, [], maxSize, 0, [ReadRequest])
  }

  function Word(payload: seq<byte>, i: nat): nat
    requires i + 1 < |payload|
  {
    (payload[i] as int) * 256 + payload[i + 1] as int
  }

  predicate IsData(payload: seq<byte>) {
    |payload| >= 4 && Word(payload, 0) == OP_DATA
  }

  /** The UDP layer hands over packets from the bound port only. */
  predicate Hears(c: Client, port: nat) {
    c.rport == 0 || c.rport == port
  }

  /** The packet callback. */
  function Receive(c: Client, port: nat, payload: seq<byte>): Client {
    if |payload| < 2 then c else
    var c := c.(rport := if c.rport == 0 then port else c.rport);
    if Word(payload, 0) == OP_ERROR then c.(status := Failure)
    else if !IsData(payload) then c
    else if Word(payload, 2) != c.blocknum % WRAP then c
    else if |payload| - 4 > BLOCK_SIZE then c
    else if |payload| - 4 > c.maxSize - |c.written| then c.(status := Failure)
    else
      var c := c.(written := c.written + payload[4..],
                  sent := c.sent + [Acked(c.rport, c.blocknum % WRAP)], gotResponse := true);
      if |payload| - 4 < BLOCK_SIZE then c.(status := Success) else c.(blocknum := c.blocknum + 1)
  }

  /** No response in time: send the last packet again. */
  function Resend(c: Client): Client {
    if c.blocknum == 1 then c.(rport := 0, sent := c.sent + [ReadRequest])
    else c.(sent := c.sent + [Acked(c.rport, (c.blocknum - 1) % WRAP)])
  }

  /** One round of the poll loop: at most one packet arrives. */
  datatype Poll = Poll(packet: seq<(nat, seq<byte>)>, timedOut: bool)

  function Round(c: Client, e: Poll): Client {
    var c := c.(gotResponse := false);
    var c := if e.packet != [] && Hears(c, e.packet[0].0) then Receive(c, e.packet[0].0, e.packet[0].1) else c;
    if !c.gotResponse && e.timedOut then Resend(c) else c
  }

  function Rounds(c: Client, es: seq<Poll>): Client
    decreases es
  {
    if c.status != Pending || es == [] then c else Rounds(Round(c, es[0]), es[1..])
  }

  /** What every packet, from any server, preserves. */
  ghost predicate ClientOk(c: Client) {
    && |c.written| <= c.maxSize && 1 <= c.blocknum
    && (c.status == Pending ==> |c.written| == BLOCK_SIZE * (c.blocknum - 1))
  }

  lemma ReceiveKeepsOk(c: Client, port: nat, payload: seq<byte>)
    requires ClientOk(c) && c.status == Pending
    ensures ClientOk(Receive(c, port, payload))
    ensures c.written <= Receive(c, port, payload).written
    ensures Receive(c, port, payload).blocknum <= c.maxSize / BLOCK_SIZE + 1
  {
  }

  /** What one round of polling sends, told from the data received: nothing but the
      acknowledgement of a block that arrived, or after a timeout without one the
      read request, with the port forgotten, while there is no data, and else the
      acknowledgement of the last block. */
  lemma RoundSends(c: Client, e: Poll)
    requires ClientOk(c) && c.status == Pending
    ensures var c' := Round(c, e);
            var arrived := c'.gotResponse;
            && (arrived ==> c'.sent == c.sent + [Acked(c'.rport, (|c.written| / BLOCK_SIZE + 1) % WRAP)])
            && (!arrived ==> c'.written == c.written)
            && (!arrived && !e.timedOut ==> c'.sent == c.sent)
            && (!arrived && e.timedOut && c.written == [] ==> c'.rport == 0 && c'.sent == c.sent + [ReadRequest])
            && (!arrived && e.timedOut && c.written != [] ==>
                  c'.sent == c.sent + [Acked(c'.rport, |c.written| / BLOCK_SIZE % WRAP)])
  {
  }

  /** A packet from a port the client listens to, by its bytes: an error packet ends
      the transfer, the awaited block is taken when it fits and ends it when it does
      not, a short block completes it, and all else changes nothing but the port. */
  lemma RoundReceives(c: Client, port: nat, p: seq<byte>, timedOut: bool)
    requires ClientOk(c) && c.status == Pending && Hears(c, port)
    ensures var c' := Round(c, Poll([(port, p)], timedOut));
            var awaited := |p| >= 4 && p[..2] == [0, 3] && |p| <= 4 + BLOCK_SIZE
                           && p[2] as int * 256 + p[3] as int == (|c.written| / BLOCK_SIZE + 1) % WRAP;
            && (c'.status == Failure <==>
                  || (|p| >= 2 && p[..2] == [0, 5])
                  || (awaited && |c.written| + |p| - 4 > c.maxSize))
            && (c'.gotResponse <==> awaited && |c.written| + |p| - 4 <= c.maxSize)
            && c'.written == (if c'.gotResponse then c.written + p[4..] else c.written)
            && (c'.status == Success <==> c'.gotResponse && |p| < 4 + BLOCK_SIZE)
            && (c.rport != 0 && c.written != [] ==> c'.rport == c.rport)
            && (c.rport == 0 && |p| >= 2 && !timedOut ==> c'.rport == port)
  {
    if |p| >= 2 {
      assert p[..2] == [p[0], p[1]];
    }
  }

  /** Packets from elsewhere are not heard. */
  lemma RoundIgnores(c: Client, port: nat, p: seq<byte>, timedOut: bool)
    requires !Hears(c, port)
    ensures Round(c, Poll([(port, p)], timedOut)) == Round(c, Poll([], timedOut))
  {
  }

  /** The first round that ends the transfer is the last one that counts. */
  lemma {:induction false} EndedStays(c: Client, es: seq<Poll>, later: seq<Poll>)
    requires Rounds(c, es).status != Pending
    ensures Rounds(c, es + later) == Rounds(c, es)
    decreases es
  {
    if c.status == Pending && es != [] {
      assert (es + later)[1..] == es[1..] + later;
      EndedStays(Round(c, es[0]), es[1..], later);
    }
  }

  // ---- the client as the source has it

  class TftpClient {
    var status: Status
    var gotResponse: bool
    var blocknum: nat
    const dest: array<byte>
    var destOffset: nat
    var totalSize: nat
    const maxSize: nat
    var rport: nat
    var sent: seq<Sent>

    ghost predicate Valid()
      reads this, dest
    {
      && maxSize <= dest.Length && destOffset == totalSize <= maxSize
      && ClientOk(Value())
    }

    ghost function Value(): Client
      requires destOffset <= dest.Length
      reads this, dest
    {
      Client(status, gotResponse, blocknum, dest[..destOffset], maxSize, rport, sent)
    }

    constructor (dest: array<byte>, maxSize: nat)
      requires maxSize <= dest.Length
      ensures Valid() && Value() == Start(maxSize)
      ensures this.dest == dest
    {
      this.dest, this.maxSize := dest, maxSize;
      status, gotResponse, blocknum, destOffset, totalSize := Pending, false, 1, 0, 0;
      rport, sent := 0, [ReadRequest];
    }

    /** memcpy to the destination and move past it. */
    method Store(data: seq<byte>)
      requires maxSize <= dest.Length && destOffset == totalSize && totalSize + |data| <= maxSize
      modifies this`destOffset, this`totalSize, dest
      ensures destOffset == totalSize == old(totalSize) + |data|
      ensures dest[..destOffset] == old(dest[..destOffset]) + data
      ensures forall i :: totalSize <= i < dest.Length ==> dest[i] == old(dest[i])
    {
      forall i | 0 <= i < |data| {
        dest[destOffset + i] := data[i];
      }
      destOffset := destOffset + |data|;
      totalSize := totalSize + |data|;
    }

    method Callback(port: nat, payload: seq<byte>)
      requires Valid() && status == Pending
      modifies this, dest
      ensures Valid() && Value() == Receive(old(Value()), port, payload)
      ensures totalSize >= old(totalSize)
      ensures forall i :: totalSize <= i < dest.Length ==> dest[i] == old(dest[i])
    {
      ReceiveKeepsOk(Value(), port, payload);
      if |payload| < 2 {
        return;
      }
      if rport == 0 {
        rport := port;
      }
      var opcode := Word(payload, 0);
      if opcode == OP_ERROR {
        status := Failure;
        return;
      }
      if opcode != OP_DATA || |payload| < 4 {
        return;
      }
      if Word(payload, 2) != blocknum % WRAP {
        return;
      }
      var newDataLen := |payload| - 4;
      if newDataLen > BLOCK_SIZE {
        return;
      }
      if newDataLen > maxSize - totalSize {
        status := Failure;
        return;
      }
      Store(payload[4..]);
      sent := sent + [Acked(rport, blocknum % WRAP)];
      gotResponse := true;
      if newDataLen < BLOCK_SIZE {
        status := Success;
        return;
      }
      blocknum := blocknum + 1;
    }

    /** One pass through the body of the poll loop. */
    method PollOnce(e: Poll)
      requires Valid() && status == Pending
      modifies this, dest
      ensures Valid() && Value() == Round(old(Value()), e)
      ensures totalSize >= old(totalSize)
      ensures forall i :: totalSize <= i < dest.Length ==> dest[i] == old(dest[i])
    {
      gotResponse := false;
      if e.packet != [] && (rport == 0 || rport == e.packet[0].0) {
        Callback(e.packet[0].0, e.packet[0].1);
      }
      if gotResponse || !e.timedOut {
        return;
      }
      if blocknum == 1 {
        rport := 0;
        sent := sent + [ReadRequest];
      } else {
        sent := sent + [Acked(rport, (blocknum - 1) % WRAP)];
      }
    }

    /** The poll loop of tftp_read; `ret` is 0 and `size` set on success, -1 on
        failure, and 1 when the given rounds end with the transfer still pending. */
    method Read(events: seq<Poll>) returns (ret: int, size: nat)
      requires Valid() && Value() == Start(maxSize)
      modifies this, dest
      ensures Valid() && Value() == Rounds(Start(maxSize), events)
      ensures ret == (match status case Success => 0 case Failure => -1 case Pending => 1)
      ensures ret == 0 ==> size == |Rounds(Start(maxSize), events).written|
      ensures forall i :: totalSize <= i < dest.Length ==> dest[i] == old(dest[i])
    {
      var n := 0;
      assert events[0..] == events;
      while status == Pending && n < |events|
        invariant Valid() && n <= |events|
        invariant Rounds(Value(), events[n..]) == Rounds(Start(maxSize), events)
        invariant forall i :: totalSize <= i < dest.Length ==> dest[i] == old(dest[i])
      {
        assert events[n..][1..] == events[n + 1..];
        PollOnce(events[n]);
        n := n + 1;
      }
      ret := if status == Success then 0 else if status == Failure then -1 else 1;
      size := totalSize;
    }
  }
}
