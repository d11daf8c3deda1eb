/** The client composed with lock-step servers over a network that loses,
    duplicates and reorders: every packet sent may arrive any number of times, in
    any order, until it is lost. */
module TftpSystem {
  import opened Basics
  import opened Tftp

  /** The number of blocks of a file; the last one is short, possibly empty. */
  function Blocks(file: seq<byte>): (n: nat)
    ensures n >= 1
  {
    |file| / BLOCK_SIZE + 1
  }

  function Block(file: seq<byte>, k: nat): seq<byte>
    requires 1 <= k <= Blocks(file)
  {
    file[BLOCK_SIZE * (k - 1)..Min(BLOCK_SIZE * k, |file|)]
  }

  function DataPacket(file: seq<byte>, k: nat): seq<byte>
    requires 1 <= k <= Blocks(file)
  {
    [0, OP_DATA as byte, (k % WRAP / 256) as byte, (k % 256) as byte] + Block(file, k)
  }

  /** `port` identifies the server's transfer; `index` is the block's place in the
      file, which the wire carries modulo 65536 only. */
  datatype Packet = Packet(port: nat, index: nat, payload: seq<byte>)
  datatype Ack = Ack(port: nat, index: nat, number: nat)

  /** `serving` maps each server transfer to the block it has sent last; the rest is
      what is in the network. All read requests are alike. */
  datatype System =
    System(client: Client, serving: map<nat, nat>, data: set<Packet>, acks: set<Ack>, requested: bool)

  ghost predicate Init(s: System, maxSize: nat) {
    s == System(Start(maxSize), map[], {}, {}, ReadRequest in Start(maxSize).sent)
  }

  /** A packet about block `index` may still arrive: in a network that ages packets,
      if fewer than 65535 blocks of its transfer were sent after it. */
  predicate Alive(aged: bool, s: System, port: nat, index: nat) {
    port in s.serving && (aged ==> s.serving[port] < index + 65535)
  }

  datatype Step =
    | Begin(port: nat)
    | Advance(ack: Ack)
    | Deliver(packet: Packet)
    | DeliverOther(port: nat, payload: seq<byte>)
    | Timeout
    | Repeat(port: nat)
    | Lose(data: set<Packet>, acks: set<Ack>, request: bool)

  /** A (possibly duplicated) read request reaches a server, which starts a
      transfer under a new port and sends block 1. */
  ghost predicate BeginStep(file: seq<byte>, s: System, s': System, port: nat) {
    && s.requested && port != 0 && port !in s.serving
    && s' == s.(serving := s.serving[port := 1], data := s.data + {Packet(port, 1, DataPacket(file, 1))})
  }

  /** An acknowledgement carrying the number of the block sent last makes the
      server send the next one, if there is one. */
  ghost predicate AdvanceStep(aged: bool, file: seq<byte>, s: System, s': System, a: Ack) {
    && a in s.acks && Alive(aged, s, a.port, a.index)
    && a.number == s.serving[a.port] % WRAP
    && s.serving[a.port] < Blocks(file)
    && var k := s.serving[a.port] + 1;
       s' == s.(serving := s.serving[a.port := k], data := s.data + {Packet(a.port, k, DataPacket(file, k))})
  }

  /** The acknowledgements in the network after the client moved to `c'`. */
  function AcksAfter(s: System, c': Client, index: nat): set<Ack> {
    if |c'.sent| > |s.client.sent| && c'.sent[|c'.sent| - 1].Acked?
    then var m := c'.sent[|c'.sent| - 1]; s.acks + {Ack(m.port, index, m.number)}
    else s.acks
  }

  /** Whether a read request is in the network then. */
  predicate RequestedAfter(s: System, c': Client) {
    s.requested || (|c'.sent| > |s.client.sent| && c'.sent[|c'.sent| - 1] == ReadRequest)
  }

  ghost predicate DeliverStep(aged: bool, s: System, s': System, p: Packet) {
    && s.client.status == Pending && p in s.data && Alive(aged, s, p.port, p.index) && Hears(s.client, p.port)
    && var c' := Receive(s.client, p.port, p.payload);
       s' == s.(client := c', acks := AcksAfter(s, c', s.client.blocknum))
  }

  /** Anything that is not a data packet may arrive at any time from anywhere:
      errors, fragments, stray acknowledgements. */
  ghost predicate OtherStep(s: System, s': System, port: nat, payload: seq<byte>) {
    && s.client.status == Pending && !IsData(payload) && port != 0 && Hears(s.client, port)
    && s' == s.(client := Receive(s.client, port, payload))
  }

  ghost predicate TimeoutStep(s: System, s': System) {
    && s.client.status == Pending && s.client.blocknum >= 1
    && var c' := Resend(s.client);
       s' == s.(client := c', acks := AcksAfter(s, c', s.client.blocknum - 1), requested := RequestedAfter(s, c'))
  }

  /** A server that has waited long enough, or was sent an old acknowledgement, sends
      its last block again. */
  ghost predicate RepeatStep(file: seq<byte>, s: System, s': System, port: nat) {
    && port in s.serving && 1 <= s.serving[port] <= Blocks(file)
    && s' == s.(data := s.data + {Packet(port, s.serving[port], DataPacket(file, s.serving[port]))})
  }

  /** All copies of some packets are lost. */
  ghost predicate LoseStep(s: System, s': System, data: set<Packet>, acks: set<Ack>, request: bool) {
    s' == s.(data := s.data - data, acks := s.acks - acks, requested := s.requested && !request)
  }

  ghost predicate Next(aged: bool, file: seq<byte>, s: System, s': System, step: Step) {
    match step
    case Begin(port) => BeginStep(file, s, s', port)
    case Advance(a) => AdvanceStep(aged, file, s, s', a)
    case Deliver(p) => DeliverStep(aged, s, s', p)
    case DeliverOther(port, payload) => OtherStep(s, s', port, payload)
    case Timeout => TimeoutStep(s, s')
    case Repeat(port) => RepeatStep(file, s, s', port)
    case Lose(data, acks, request) => LoseStep(s, s', data, acks, request)
  }

  // ---- the invariant

  ghost predicate NetworkOk(file: seq<byte>, s: System) {
    && (forall t :: t in s.serving ==> t != 0 && 1 <= s.serving[t] <= Blocks(file))
    && (forall p :: p in s.data ==>
          p.port in s.serving && 1 <= p.index <= s.serving[p.port] && p.payload == DataPacket(file, p.index))
    && (forall a :: a in s.acks ==>
          && a.port in s.serving && 1 <= a.index <= s.serving[a.port] && a.number == a.index % WRAP
          && a.index < s.client.blocknum && a.port == s.client.rport)
  }

  /** While the transfer is pending, the transfer the client follows is at the
      block the client expects or the one before, and no other has moved. */
  ghost predicate LockStep(s: System) {
    var b := s.client.blocknum;
    && (b > 1 ==> s.client.rport in s.serving && b - 1 <= s.serving[s.client.rport] <= b)
    && (forall t :: t in s.serving && (b == 1 || t != s.client.rport) ==> s.serving[t] == 1)
  }

  ghost predicate Inv(file: seq<byte>, s: System) {
    && ClientOk(s.client)
    && match s.client.status
       case Pending =>
         && NetworkOk(file, s) && LockStep(s)
         && |s.client.written| <= |file| && s.client.written == file[..|s.client.written|]
       case Success => s.client.written == file
       case Failure => true
  }

  /** No number has come round yet, or packets age before it does. */
  predicate Settled(aged: bool, s: System) {
    aged || (s.client.status == Pending ==> s.client.blocknum <= WRAP)
  }

  lemma {:induction false} ShortIsSettled(file: seq<byte>, s: System)
    requires Inv(file, s) && Blocks(file) <= WRAP
    ensures Settled(false, s)
  {
  }

  lemma BlocksCover(file: seq<byte>, k: nat)
    requires 1 <= k <= Blocks(file)
    ensures BLOCK_SIZE * (k - 1) <= |file| && |Block(file, k)| <= BLOCK_SIZE
    ensures k < Blocks(file) <==> |Block(file, k)| == BLOCK_SIZE
    ensures file[..BLOCK_SIZE * (k - 1)] + Block(file, k) == file[..Min(BLOCK_SIZE * k, |file|)]
    ensures k == Blocks(file) ==> Min(BLOCK_SIZE * k, |file|) == |file|
  {
  }

  lemma PacketNumber(file: seq<byte>, k: nat)
    requires 1 <= k <= Blocks(file)
    ensures |DataPacket(file, k)| >= 4 && IsData(DataPacket(file, k))
    ensures Word(DataPacket(file, k), 2) == k % WRAP
    ensures DataPacket(file, k)[4..] == Block(file, k)
  {
    var p := DataPacket(file, k);
    assert p[0] == 0 && p[1] == 3;
  }

  /** The client takes block `k` when it waits for block `b` exactly when the two
      agree modulo 65536: a stale block is kept out by its age alone. */
  lemma AcceptsIffCongruent(file: seq<byte>, c: Client, port: nat, k: nat)
    requires 1 <= k <= Blocks(file) && c.status == Pending && ClientOk(c)
    requires |Block(file, k)| <= c.maxSize - |c.written| && |Block(file, k)| > 0
    ensures Receive(c, port, DataPacket(file, k)).written == c.written + Block(file, k) <==>
            k % WRAP == c.blocknum % WRAP
  {
    PacketNumber(file, k);
    BlocksCover(file, k);
  }

  lemma {:induction false} BeginKeeps(file: seq<byte>, s: System, s': System, port: nat)
    requires Inv(file, s) && BeginStep(file, s, s', port)
    ensures Inv(file, s')
  {
  }

  /** Numbers that agree modulo 65536 and are less than that apart are equal. */
  lemma Congruent(a: nat, b: nat)
    requires a % WRAP == b % WRAP && a <= b < a + WRAP
    ensures a == b
  {
  }

  lemma {:induction false} AdvanceKeeps(aged: bool, file: seq<byte>, s: System, s': System, a: Ack)
    requires Inv(file, s) && Settled(aged, s) && AdvanceStep(aged, file, s, s', a)
    ensures Inv(file, s')
  {
    if s.client.status == Pending {
      // The acknowledgement is for the block sent last, which the client has.
      Congruent(a.index, s.serving[a.port]);
    }
  }

  /** A packet the client takes is the block it waits for. */
  lemma {:induction false} ExpectedBlock(aged: bool, file: seq<byte>, s: System, p: Packet)
    requires Inv(file, s) && s.client.status == Pending && Settled(aged, s)
    requires p in s.data && Alive(aged, s, p.port, p.index) && Hears(s.client, p.port)
    requires p.index % WRAP == s.client.blocknum % WRAP
    ensures p.index == s.client.blocknum
  {
    if s.client.blocknum > 1 {
      Congruent(p.index, s.client.blocknum);
    }
  }

  lemma {:induction false} DeliverKeeps(aged: bool, file: seq<byte>, s: System, s': System, p: Packet)
    requires Inv(file, s) && Settled(aged, s) && DeliverStep(aged, s, s', p)
    ensures Inv(file, s')
  {
    var c := s.client;
    ReceiveKeepsOk(c, p.port, p.payload);
    PacketNumber(file, p.index);
    BlocksCover(file, p.index);
    if p.index % WRAP == c.blocknum % WRAP {
      ExpectedBlock(aged, file, s, p);
    }
  }

  lemma {:induction false} OtherKeeps(s: System, s': System, file: seq<byte>, port: nat, payload: seq<byte>)
    requires Inv(file, s) && OtherStep(s, s', port, payload)
    ensures Inv(file, s')
  {
    ReceiveKeepsOk(s.client, port, payload);
  }

  lemma {:induction false} TimeoutKeeps(file: seq<byte>, s: System, s': System)
    requires Inv(file, s) && TimeoutStep(s, s')
    ensures Inv(file, s')
  {
  }

  // ---- whole runs

  ghost predicate IsRun(aged: bool, file: seq<byte>, maxSize: nat, run: seq<System>, steps: seq<Step>) {
    && |run| == |steps| + 1 && Init(run[0], maxSize)
    && (forall i {:trigger steps[i]} :: 0 <= i < |steps| ==> Next(aged, file, run[i], run[i + 1], steps[i]))
  }

  lemma {:induction false} RunKeepsInv(
    aged: bool, file: seq<byte>, maxSize: nat, run: seq<System>, steps: seq<Step>, i: nat)
    requires IsRun(aged, file, maxSize, run, steps) && i < |run| && (aged || Blocks(file) <= WRAP)
    ensures Inv(file, run[i]) && run[i].client.maxSize == maxSize
  {
    if i > 0 {
      RunKeepsInv(aged, file, maxSize, run, steps, i - 1);
      assert Next(aged, file, run[i - 1], run[i], steps[i - 1]);
      if !aged {
        ShortIsSettled(file, run[i - 1]);
      }
      StepKeepsInv(aged, file, run[i - 1], run[i], steps[i - 1]);
    }
  }

  lemma {:induction false} StepKeepsInv(aged: bool, file: seq<byte>, s: System, s': System, step: Step)
    requires Inv(file, s) && Next(aged, file, s, s', step) && Settled(aged, s)
    ensures Inv(file, s') && s'.client.maxSize == s.client.maxSize
  {
    match step
    case Begin(port) => BeginKeeps(file, s, s', port);
    case Advance(a) => AdvanceKeeps(aged, file, s, s', a);
    case Deliver(p) => DeliverKeeps(aged, file, s, s', p);
    case DeliverOther(port, payload) => OtherKeeps(s, s', file, port, payload);
    case Timeout => TimeoutKeeps(file, s, s');
    case Repeat(port) =>
    case Lose(data, acks, request) =>
  }

  /** End to end: in every reachable state the destination holds the blocks before
      the one awaited, and success means it holds the whole file, within the
      size limit. Files of up to 65536 blocks need no assumption on the age of
      packets. */
  lemma {:induction false} EndToEnd(
    aged: bool, file: seq<byte>, maxSize: nat, run: seq<System>, steps: seq<Step>, i: nat)
    requires IsRun(aged, file, maxSize, run, steps) && i < |run| && (aged || Blocks(file) <= WRAP)
    ensures var c := run[i].client;
            && |c.written| <= maxSize
            && (c.status == Pending ==>
                  && 1 <= c.blocknum && BLOCK_SIZE * (c.blocknum - 1) <= |file|
                  && c.written == file[..BLOCK_SIZE * (c.blocknum - 1)])
            && (c.status == Success ==> c.written == file && |file| <= maxSize)
  {
    RunKeepsInv(aged, file, maxSize, run, steps, i);
  }

  // ---- and the transfer can succeed

  /** The client waits for block `b`, and the server has sent the first `top`. */
  ghost predicate Waiting(file: seq<byte>, maxSize: nat, s: System, b: nat, top: nat) {
    && 1 <= b && 1 <= top <= Blocks(file)
    && s.client.status == Pending && s.client.blocknum == b && s.client.maxSize == maxSize
    && |s.client.written| == BLOCK_SIZE * (b - 1) && Hears(s.client, 1)
    && s.serving == map[1 := top]
    && (forall j {:trigger DataPacket(file, j)} :: 1 <= j <= top ==> Packet(1, j, DataPacket(file, j)) in s.data)
  }

  /** Blocks before `b` have been acknowledged. */
  ghost predicate Acknowledged(s: System, b: nat) {
    forall j {:trigger Ack(1, j, j % WRAP)} :: 1 <= j < b ==> Ack(1, j, j % WRAP) in s.acks
  }

  lemma {:induction false} ExtendRun(
    aged: bool, file: seq<byte>, maxSize: nat, run: seq<System>, steps: seq<Step>, s': System, step: Step)
    requires IsRun(aged, file, maxSize, run, steps) && Next(aged, file, run[|steps|], s', step)
    ensures IsRun(aged, file, maxSize, run + [s'], steps + [step])
  {
  }

  /** Block `k` arrives at a client that takes it for block `b`. */
  lemma {:induction false} DeliverBlock(
    aged: bool, file: seq<byte>, maxSize: nat, s: System, b: nat, top: nat, k: nat) returns (s': System)
    requires Waiting(file, maxSize, s, b, top) && 1 <= k <= top && (aged ==> top < k + 65535)
    requires k % WRAP == b % WRAP && BLOCK_SIZE * (b - 1) + |Block(file, k)| <= maxSize
    ensures DeliverStep(aged, s, s', Packet(1, k, DataPacket(file, k)))
    ensures s'.client.written == s.client.written + Block(file, k) && s.acks <= s'.acks
    ensures if k < Blocks(file)
            then Waiting(file, maxSize, s', b + 1, top) && Ack(1, b, b % WRAP) in s'.acks
            else s'.client.status == Success
  {
    PacketNumber(file, k);
    BlocksCover(file, k);
    var c' := Receive(s.client, 1, DataPacket(file, k));
    s' := s.(client := c', acks := AcksAfter(s, c', b));
  }

  lemma {:induction false} ReachBlock(aged: bool, file: seq<byte>, maxSize: nat, k: nat)
    returns (run: seq<System>, steps: seq<Step>)
    requires 1 <= k <= Blocks(file) && BLOCK_SIZE * (k - 1) <= maxSize
    ensures IsRun(aged, file, maxSize, run, steps) && Waiting(file, maxSize, run[|steps|], k, k)
    ensures Acknowledged(run[|steps|], k)
  {
    if k == 1 {
      var s := System(Start(maxSize), map[], {}, {}, true);
      var s' := s.(serving := map[1 := 1], data := {Packet(1, 1, DataPacket(file, 1))});
      run, steps := [s, s'], [Begin(1)];
      assert s.data + {Packet(1, 1, DataPacket(file, 1))} == s'.data;
    } else {
      run, steps := ReachBlock(aged, file, maxSize, k - 1);
      BlocksCover(file, k - 1);
      var s1 := DeliverBlock(aged, file, maxSize, run[|steps|], k - 1, k - 1, k - 1);
      ExtendRun(aged, file, maxSize, run, steps, s1, Deliver(Packet(1, k - 1, DataPacket(file, k - 1))));
      run, steps := run + [s1], steps + [Deliver(Packet(1, k - 1, DataPacket(file, k - 1)))];
      var s2 := NextBlock(aged, file, maxSize, s1, k);
      ExtendRun(aged, file, maxSize, run, steps, s2, Advance(Ack(1, k - 1, (k - 1) % WRAP)));
      run, steps := run + [s2], steps + [Advance(Ack(1, k - 1, (k - 1) % WRAP))];
    }
  }

  lemma {:induction false} NextBlock(aged: bool, file: seq<byte>, maxSize: nat, s: System, k: nat) returns (s': System)
    requires 1 < k <= Blocks(file) && Waiting(file, maxSize, s, k, k - 1) && Ack(1, k - 1, (k - 1) % WRAP) in s.acks
    ensures AdvanceStep(aged, file, s, s', Ack(1, k - 1, (k - 1) % WRAP)) && Waiting(file, maxSize, s', k, k)
    ensures s'.acks == s.acks && s'.client == s.client
  {
    s' := s.(serving := s.serving[1 := k], data := s.data + {Packet(1, k, DataPacket(file, k))});
    assert s'.serving == map[1 := k];
  }

  /** A file that fits can be transferred: some run ends in success with it. */
  lemma {:induction false} TransferPossible(file: seq<byte>, maxSize: nat) returns (run: seq<System>, steps: seq<Step>)
    requires |file| <= maxSize
    ensures IsRun(true, file, maxSize, run, steps)
    ensures run[|steps|].client.status == Success && run[|steps|].client.written == file
  {
    var n := Blocks(file);
    run, steps := ReachBlock(true, file, maxSize, n);
    BlocksCover(file, n);
    var s' := DeliverBlock(true, file, maxSize, run[|steps|], n, n, n);
    ExtendRun(true, file, maxSize, run, steps, s', Deliver(Packet(1, n, DataPacket(file, n))));
    run, steps := run + [s'], steps + [Deliver(Packet(1, n, DataPacket(file, n)))];
    RunKeepsInv(true, file, maxSize, run, steps, |steps|);
  }

  // ---- and it recovers from every loss

  /** A server the client listens to has sent the awaited block. */
  ghost predicate Offered(file: seq<byte>, s: System, port: nat) {
    && s.client.status == Pending && Hears(s.client, port)
    && port in s.serving && 1 <= s.serving[port] == s.client.blocknum <= Blocks(file)
    && Packet(port, s.client.blocknum, DataPacket(file, s.client.blocknum)) in s.data
  }

  /** A run and its last state, for the lemmas that continue it. */
  ghost predicate Reached(
    aged: bool, file: seq<byte>, maxSize: nat, run: seq<System>, steps: seq<Step>, s: System)
  {
    && IsRun(aged, file, maxSize, run, steps) && run[|steps|] == s
    && Inv(file, s) && s.client.maxSize == maxSize && Settled(aged, s)
  }

  lemma {:induction false} PendingFits(file: seq<byte>, s: System)
    requires Inv(file, s) && s.client.status == Pending
    ensures s.client.blocknum <= Blocks(file)
  {
  }

  /** Any step leads on. */
  lemma {:induction false} Continue(
    aged: bool, file: seq<byte>, maxSize: nat, run: seq<System>, steps: seq<Step>, s: System, step: Step, s': System)
    requires Reached(aged, file, maxSize, run, steps, s) && Next(aged, file, s, s', step)
    requires aged || Blocks(file) <= WRAP
    ensures Reached(aged, file, maxSize, run + [s'], steps + [step], s')
  {
    StepKeepsInv(aged, file, s, s', step);
    ExtendRun(aged, file, maxSize, run, steps, s', step);
    if !aged {
      ShortIsSettled(file, s');
    }
  }

  /** The awaited block arrives: the last one completes the file, any other one is
      acknowledged. */
  lemma {:induction false} TakeBlock(aged: bool, file: seq<byte>, s: System, port: nat) returns (s': System)
    requires Inv(file, s) && Offered(file, s, port) && |file| <= s.client.maxSize
    ensures DeliverStep(aged, s, s', Packet(port, s.client.blocknum, DataPacket(file, s.client.blocknum)))
    ensures var b := s.client.blocknum;
            if b == Blocks(file) then s'.client.status == Success
            else
              && s'.client.status == Pending && s'.client.blocknum == b + 1 && s'.client.rport == port
              && s'.serving == s.serving && Ack(port, b, b % WRAP) in s'.acks
  {
    var b := s.client.blocknum;
    PacketNumber(file, b);
    BlocksCover(file, b);
    var c' := Receive(s.client, port, DataPacket(file, b));
    s' := s.(client := c', acks := AcksAfter(s, c', b));
  }

  /** The acknowledgement of the block before makes the server send the awaited one. */
  lemma {:induction false} AskNext(aged: bool, file: seq<byte>, s: System, port: nat) returns (s': System)
    requires Inv(file, s) && s.client.status == Pending && s.client.rport == port
    requires s.client.blocknum > 1 && port in s.serving && s.serving[port] == s.client.blocknum - 1
    requires Ack(port, s.client.blocknum - 1, (s.client.blocknum - 1) % WRAP) in s.acks
    ensures var b := s.client.blocknum;
            AdvanceStep(aged, file, s, s', Ack(port, b - 1, (b - 1) % WRAP)) && Offered(file, s', port)
  {
    PendingFits(file, s);
    var b := s.client.blocknum;
    s' := s.(serving := s.serving[port := b], data := s.data + {Packet(port, b, DataPacket(file, b))});
  }

  /** From an offered block on the transfer can be completed. */
  lemma {:induction false} Finish(
    aged: bool, file: seq<byte>, maxSize: nat, run: seq<System>, steps: seq<Step>, s: System, port: nat)
    returns (run': seq<System>, steps': seq<Step>)
    requires Reached(aged, file, maxSize, run, steps, s) && Offered(file, s, port)
    requires |file| <= maxSize && (aged || Blocks(file) <= WRAP)
    ensures IsRun(aged, file, maxSize, run', steps') && run <= run'
    ensures run'[|steps'|].client.status == Success && run'[|steps'|].client.written == file
    decreases Blocks(file) - s.client.blocknum
  {
    var b := s.client.blocknum;
    var s1 := TakeBlock(aged, file, s, port);
    var step1 := Deliver(Packet(port, b, DataPacket(file, b)));
    Continue(aged, file, maxSize, run, steps, s, step1, s1);
    if b == Blocks(file) {
      run', steps' := run + [s1], steps + [step1];
    } else {
      var s2 := AskNext(aged, file, s1, port);
      var step2 := Advance(Ack(port, b, b % WRAP));
      Continue(aged, file, maxSize, run + [s1], steps + [step1], s1, step2, s2);
      run', steps' := Finish(aged, file, maxSize, run + [s1] + [s2], steps + [step1] + [step2], s2, port);
    }
  }

  /** What the timeout puts into the network: the read request while nothing has been
      received, the port being forgotten, and afterwards the acknowledgement of the
      last block. */
  lemma {:induction false} TimeoutAsks(file: seq<byte>, s: System) returns (s': System)
    requires Inv(file, s) && s.client.status == Pending
    ensures TimeoutStep(s, s') && s'.serving == s.serving && s'.data == s.data
    ensures s'.client == s.client.(rport := s'.client.rport, sent := s'.client.sent)
    ensures if s.client.written == [] then s'.requested && s'.client.rport == 0
            else var b := |s.client.written| / BLOCK_SIZE;
                 s'.client.rport == s.client.rport && Ack(s.client.rport, b, b % WRAP) in s'.acks
  {
    var c' := Resend(s.client);
    s' := s.(client := c', acks := AcksAfter(s, c', s.client.blocknum - 1), requested := RequestedAfter(s, c'));
  }

  /** After a timeout some server can offer the awaited block. */
  lemma {:induction false} Offer(aged: bool, file: seq<byte>, s: System) returns (s': System, step: Step, port: nat)
    requires Inv(file, s) && s.client.status == Pending
    requires if s.client.written == [] then s.requested && s.client.rport == 0
             else var b := |s.client.written| / BLOCK_SIZE; Ack(s.client.rport, b, b % WRAP) in s.acks
    ensures Next(aged, file, s, s', step) && Offered(file, s', port) && s'.client == s.client
  {
    var b := s.client.blocknum;
    PendingFits(file, s);
    if b == 1 && s.serving == map[] {
      port, step := 1, Begin(1);
      s' := s.(serving := s.serving[1 := 1], data := s.data + {Packet(1, 1, DataPacket(file, 1))});
    } else {
      port := if b == 1 then AnyServer(s) else s.client.rport;
      if s.serving[port] == b {
        step := Repeat(port);
        s' := s.(data := s.data + {Packet(port, b, DataPacket(file, b))});
      } else {
        s' := AskNext(aged, file, s, port);
        step := Advance(Ack(port, b - 1, (b - 1) % WRAP));
      }
    }
  }

  ghost function AnyServer(s: System): nat
    requires s.serving != map[]
    ensures AnyServer(s) in s.serving
  {
    var t :| t in s.serving;
    t
  }

  /** From every reachable state of a pending transfer, whatever the network has lost,
      even when it is empty, a timeout makes some continuation end in success with
      the file. */
  lemma {:induction false} RecoversFromLoss(
    aged: bool, file: seq<byte>, maxSize: nat, run: seq<System>, steps: seq<Step>)
    returns (run': seq<System>, steps': seq<Step>)
    requires IsRun(aged, file, maxSize, run, steps) && run[|steps|].client.status == Pending
    requires |file| <= maxSize && (aged || Blocks(file) <= WRAP)
    ensures IsRun(aged, file, maxSize, run', steps') && run <= run'
    ensures run'[|steps'|].client.status == Success && run'[|steps'|].client.written == file
  {
    var s := run[|steps|];
    RunKeepsInv(aged, file, maxSize, run, steps, |steps|);
    if !aged {
      ShortIsSettled(file, s);
    }
    var s1 := TimeoutAsks(file, s);
    Continue(aged, file, maxSize, run, steps, s, Timeout, s1);
    var s2, step, port := Offer(aged, file, s1);
    Continue(aged, file, maxSize, run + [s1], steps + [Timeout], s1, step, s2);
    run', steps' := Finish(aged, file, maxSize, run + [s1] + [s2], steps + [Timeout] + [step], s2, port);
  }

  // ---- packets of any age

  /** A run that reports success with something else than the file, in a network
      where packets may be any age. */
  ghost predicate WrongRun(file: seq<byte>, maxSize: nat, run: seq<System>, steps: seq<Step>) {
    && IsRun(false, file, maxSize, run, steps)
    && run[|steps|].client.status == Success && run[|steps|].client.written != file
  }

  lemma SameNumber(k: nat)
    ensures (k + WRAP) % WRAP == k % WRAP
  {
  }

  /** One more step of a run: block `k` arrives as block `b`. */
  lemma {:induction false} RunDeliver(
    file: seq<byte>, maxSize: nat, run: seq<System>, steps: seq<Step>, b: nat, top: nat, k: nat)
    returns (run': seq<System>, steps': seq<Step>)
    requires IsRun(false, file, maxSize, run, steps) && Waiting(file, maxSize, run[|steps|], b, top)
    requires 1 <= k <= top && k % WRAP == b % WRAP && BLOCK_SIZE * (b - 1) + |Block(file, k)| <= maxSize
    ensures IsRun(false, file, maxSize, run', steps')
    ensures var s, s' := run[|steps|], run'[|steps'|];
            && s'.client.written == s.client.written + Block(file, k) && s.acks <= s'.acks
            && if k < Blocks(file) then Waiting(file, maxSize, s', b + 1, top) && Ack(1, b, b % WRAP) in s'.acks
               else s'.client.status == Success
  {
    var s' := DeliverBlock(false, file, maxSize, run[|steps|], b, top, k);
    ExtendRun(false, file, maxSize, run, steps, s', Deliver(Packet(1, k, DataPacket(file, k))));
    run', steps' := run + [s'], steps + [Deliver(Packet(1, k, DataPacket(file, k)))];
  }

  // Three ways to go wrong. The first: a client waiting for the last block takes old
  // blocks for the ones after it, each 65536 before its place, for a whole round.

  lemma {:induction false} GoRound(file: seq<byte>, maxSize: nat, m: nat) returns (run: seq<System>, steps: seq<Step>)
    requires Blocks(file) > WRAP && m <= WRAP && |file| + WRAP * BLOCK_SIZE <= maxSize
    ensures IsRun(false, file, maxSize, run, steps)
    ensures Waiting(file, maxSize, run[|steps|], Blocks(file) + m, Blocks(file))
  {
    var n := Blocks(file);
    if m == 0 {
      run, steps := ReachBlock(false, file, maxSize, n);
    } else {
      run, steps := GoRound(file, maxSize, m - 1);
      var b, k := n + m - 1, n + m - 1 - WRAP;
      BlocksCover(file, k);
      SameNumber(k);
      run, steps := RunDeliver(file, maxSize, run, steps, b, n, k);
    }
  }

  lemma {:induction false} TooLong(file: seq<byte>, maxSize: nat) returns (run: seq<System>, steps: seq<Step>)
    requires Blocks(file) > WRAP && |file| + WRAP * BLOCK_SIZE <= maxSize
    ensures WrongRun(file, maxSize, run, steps)
  {
    var n := Blocks(file);
    run, steps := GoRound(file, maxSize, WRAP);
    BlocksCover(file, n);
    SameNumber(n);
    run, steps := RunDeliver(file, maxSize, run, steps, n + WRAP, n, n);
  }

  // The second: one block is replaced by the one 65536 before it.

  /** From block `b` on the transfer can be completed, keeping what was received. */
  lemma {:induction false} Complete(file: seq<byte>, maxSize: nat, run: seq<System>, steps: seq<Step>, b: nat)
    returns (run': seq<System>, steps': seq<Step>)
    requires IsRun(false, file, maxSize, run, steps) && Waiting(file, maxSize, run[|steps|], b, b) && |file| <= maxSize
    ensures IsRun(false, file, maxSize, run', steps') && run'[|steps'|].client.status == Success
    ensures run[|steps|].client.written <= run'[|steps'|].client.written
    decreases Blocks(file) - b
  {
    BlocksCover(file, b);
    run', steps' := RunDeliver(file, maxSize, run, steps, b, b, b);
    if b < Blocks(file) {
      run', steps' := SendNext(file, maxSize, run', steps', b + 1);
      run', steps' := Complete(file, maxSize, run', steps', b + 1);
    }
  }

  /** The server answers the acknowledgement of block `k - 1`. */
  lemma {:induction false} SendNext(file: seq<byte>, maxSize: nat, run: seq<System>, steps: seq<Step>, k: nat)
    returns (run': seq<System>, steps': seq<Step>)
    requires IsRun(false, file, maxSize, run, steps) && 1 < k <= Blocks(file)
    requires Waiting(file, maxSize, run[|steps|], k, k - 1) && Ack(1, k - 1, (k - 1) % WRAP) in run[|steps|].acks
    ensures IsRun(false, file, maxSize, run', steps') && Waiting(file, maxSize, run'[|steps'|], k, k)
    ensures run'[|steps'|].client == run[|steps|].client
  {
    var s' := NextBlock(false, file, maxSize, run[|steps|], k);
    ExtendRun(false, file, maxSize, run, steps, s', Advance(Ack(1, k - 1, (k - 1) % WRAP)));
    run', steps' := run + [s'], steps + [Advance(Ack(1, k - 1, (k - 1) % WRAP))];
  }

  lemma {:induction false} Swapped(file: seq<byte>, maxSize: nat, b: nat) returns (run: seq<System>, steps: seq<Step>)
    requires WRAP < b < Blocks(file) && Block(file, b) != Block(file, b - WRAP) && |file| <= maxSize
    ensures WrongRun(file, maxSize, run, steps)
  {
    run, steps := ReachBlock(false, file, maxSize, b);
    var w := run[|steps|].client.written;
    BlocksCover(file, b);
    BlocksCover(file, b - WRAP);
    SameNumber(b - WRAP);
    run, steps := RunDeliver(file, maxSize, run, steps, b, b, b - WRAP);
    run, steps := SendNext(file, maxSize, run, steps, b + 1);
    run, steps := Complete(file, maxSize, run, steps, b + 1);
    SliceDiffers(file, w, b, run[|steps|].client.written);
  }

  lemma {:induction false} SliceDiffers(file: seq<byte>, w: seq<byte>, b: nat, all: seq<byte>)
    requires WRAP < b < Blocks(file) && Block(file, b) != Block(file, b - WRAP)
    requires |w| == BLOCK_SIZE * (b - 1) && w + Block(file, b - WRAP) <= all
    ensures all != file
  {
    BlocksCover(file, b);
    BlocksCover(file, b - WRAP);
    var stale := Block(file, b - WRAP);
    assert (w + stale)[|w|..] == stale;
    assert all[..|w + stale|] == w + stale;
    assert all[|w|..|w| + |stale|] == all[..|w + stale|][|w|..];
  }

  // The third: old acknowledgements make the server run ahead of the client, which
  // then takes the last block for an earlier one.

  /** With a full round of acknowledgements in the network the server can go on to
      any block while the client waits. */
  lemma {:induction false} RunAhead(file: seq<byte>, maxSize: nat, b: nat, top: nat)
    returns (run: seq<System>, steps: seq<Step>)
    requires WRAP < b <= top <= Blocks(file) && BLOCK_SIZE * (b - 1) <= maxSize
    ensures IsRun(false, file, maxSize, run, steps) && Waiting(file, maxSize, run[|steps|], b, top)
    ensures Acknowledged(run[|steps|], b)
    decreases top
  {
    if top == b {
      run, steps := ReachBlock(false, file, maxSize, b);
    } else {
      run, steps := RunAhead(file, maxSize, b, top - 1);
      var s' := SendAhead(file, maxSize, run[|steps|], b, top);
      var a := Residue(top - 1);
      ExtendRun(false, file, maxSize, run, steps, s', Advance(Ack(1, a, a % WRAP)));
      run, steps := run + [s'], steps + [Advance(Ack(1, a, a % WRAP))];
    }
  }

  /** The block of the first round with the same number. */
  function Residue(k: nat): (a: nat)
    requires k > 0
    ensures 1 <= a <= WRAP && a % WRAP == k % WRAP
  {
    (k - 1) % WRAP + 1
  }

  lemma {:induction false} SendAhead(file: seq<byte>, maxSize: nat, s: System, b: nat, top: nat) returns (s': System)
    requires WRAP < b < top <= Blocks(file) && Waiting(file, maxSize, s, b, top - 1) && Acknowledged(s, b)
    ensures var a := Residue(top - 1); AdvanceStep(false, file, s, s', Ack(1, a, a % WRAP))
    ensures Waiting(file, maxSize, s', b, top) && Acknowledged(s', b)
  {
    var a := Residue(top - 1);
    assert Ack(1, a, a % WRAP) in s.acks;
    s' := s.(serving := s.serving[1 := top], data := s.data + {Packet(1, top, DataPacket(file, top))});
    assert s'.serving == map[1 := top];
  }

  /** The first block behind one round that has the number of the last block. */
  function EarlyEnd(file: seq<byte>): nat {
    Residue(Blocks(file)) + WRAP
  }

  lemma {:induction false} TooShort(file: seq<byte>, maxSize: nat) returns (run: seq<System>, steps: seq<Step>)
    requires Blocks(file) > 2 * WRAP
    requires BLOCK_SIZE * (EarlyEnd(file) - 1) + |Block(file, Blocks(file))| <= maxSize
    ensures WrongRun(file, maxSize, run, steps)
  {
    var n, b := Blocks(file), EarlyEnd(file);
    SameNumber(Residue(n));
    BlocksCover(file, n);
    run, steps := RunAhead(file, maxSize, b, n);
    run, steps := RunDeliver(file, maxSize, run, steps, b, n, n);
  }

  // There are no others.

  /** Full blocks 65536 apart are the same. */
  ghost predicate Repeats(file: seq<byte>) {
    forall b {:trigger Block(file, b)} :: WRAP < b < Blocks(file) ==> Block(file, b) == Block(file, b - WRAP)
  }

  /** What holds once the client waits for a block behind the first 65536. */
  ghost predicate Late(file: seq<byte>, s: System) {
    var c, n := s.client, Blocks(file);
    && ClientOk(c) && n > WRAP && c.blocknum > WRAP
    && match c.status
       case Pending =>
         && DataOk(file, s)
         && (n <= 2 * WRAP && Repeats(file) && c.blocknum <= n ==> Begins(file, c.written))
       case Success =>
         && c.blocknum % WRAP == n % WRAP
         && |c.written| == BLOCK_SIZE * (c.blocknum - 1) + |Block(file, n)|
         && (n <= 2 * WRAP && Repeats(file) && c.blocknum == n ==> c.written == file)
       case Failure => true
  }

  ghost predicate Begins(file: seq<byte>, w: seq<byte>) {
    |w| <= |file| && w == file[..|w|]
  }

  ghost predicate DataOk(file: seq<byte>, s: System) {
    && (forall t :: t in s.serving ==> 1 <= s.serving[t] <= Blocks(file))
    && (forall p :: p in s.data ==>
          p.port in s.serving && 1 <= p.index <= s.serving[p.port] && p.payload == DataPacket(file, p.index))
  }

  /** Over every run: as if packets aged, until the numbers have come round. */
  ghost predicate Loose(file: seq<byte>, s: System) {
    (Inv(file, s) && Settled(false, s)) || Late(file, s)
  }

  lemma {:induction false} EarlyKeepsLoose(file: seq<byte>, s: System, s': System, step: Step)
    requires Inv(file, s) && Settled(false, s) && Next(false, file, s, s', step)
    ensures Loose(file, s')
  {
    StepKeepsInv(false, file, s, s', step);
    if !Settled(false, s') {
      assert DataOk(file, s');
      assert Blocks(file) > WRAP;
    }
  }

  /** Block `k` is taken for block `b` of the second round. */
  lemma {:induction false} TakenRepeats(file: seq<byte>, b: nat, k: nat)
    requires WRAP < b < Blocks(file) <= 2 * WRAP && 1 <= k < Blocks(file) && k % WRAP == b % WRAP && Repeats(file)
    ensures Block(file, k) == Block(file, b)
  {
    assert k == b || k == b - WRAP;
    assert Block(file, b) == Block(file, b - WRAP);
  }

  lemma {:induction false} LateDeliver(file: seq<byte>, s: System, s': System, p: Packet)
    requires Late(file, s) && DeliverStep(false, s, s', p)
    ensures Late(file, s')
  {
    var c, n, k := s.client, Blocks(file), p.index;
    ReceiveKeepsOk(c, p.port, p.payload);
    PacketNumber(file, k);
    BlocksCover(file, k);
    if k % WRAP == c.blocknum % WRAP && |Block(file, k)| <= c.maxSize - |c.written| {
      if n <= 2 * WRAP && Repeats(file) && c.blocknum <= n {
        LateBlock(file, c.written, c.blocknum, k);
      }
      assert s'.client.written == c.written + Block(file, k);
    }
  }

  /** What is received goes on being the file while its blocks repeat. */
  lemma {:induction false} LateBlock(file: seq<byte>, w: seq<byte>, b: nat, k: nat)
    requires WRAP < b <= Blocks(file) <= 2 * WRAP && Repeats(file) && 1 <= k <= Blocks(file) && k % WRAP == b % WRAP
    requires |w| == BLOCK_SIZE * (b - 1) && Begins(file, w)
    ensures k < Blocks(file) && b < Blocks(file) ==> Begins(file, w + Block(file, k))
    ensures k == b == Blocks(file) ==> w + Block(file, k) == file
  {
    BlocksCover(file, b);
    BlocksCover(file, k);
    if k < Blocks(file) && b < Blocks(file) {
      TakenRepeats(file, b, k);
    }
  }

  lemma {:induction false} LateStep(file: seq<byte>, s: System, s': System, step: Step)
    requires Late(file, s) && Next(false, file, s, s', step)
    ensures Late(file, s')
  {
    match step
    case Begin(port) =>
    case Advance(a) =>
    case Deliver(p) => LateDeliver(file, s, s', p);
    case DeliverOther(port, payload) => ReceiveKeepsOk(s.client, port, payload);
    case Timeout =>
    case Repeat(port) =>
    case Lose(data, acks, request) =>
  }

  lemma {:induction false} RunIsLoose(file: seq<byte>, maxSize: nat, run: seq<System>, steps: seq<Step>, i: nat)
    requires IsRun(false, file, maxSize, run, steps) && i < |run|
    ensures Loose(file, run[i]) && run[i].client.maxSize == maxSize
  {
    if i > 0 {
      RunIsLoose(file, maxSize, run, steps, i - 1);
      assert Next(false, file, run[i - 1], run[i], steps[i - 1]);
      StepKeepsLoose(file, run[i - 1], run[i], steps[i - 1]);
    }
  }

  lemma {:induction false} StepKeepsLoose(file: seq<byte>, s: System, s': System, step: Step)
    requires Loose(file, s) && Next(false, file, s, s', step)
    ensures Loose(file, s') && s'.client.maxSize == s.client.maxSize
  {
    if Late(file, s) {
      LateStep(file, s, s', step);
    } else {
      EarlyKeepsLoose(file, s, s', step);
    }
  }

  /** When old packets can make the client report success with a wrong file. Of more
      than 131072 blocks: when the limit lets it reach the early end. Of 65537 to
      131072 blocks: when there is room for one more round, or the file fits and
      two of its full blocks 65536 apart differ. */
  ghost predicate CanGoWrong(file: seq<byte>, maxSize: nat) {
    var n := Blocks(file);
    && n > WRAP
    && if n > 2 * WRAP then BLOCK_SIZE * (EarlyEnd(file) - 1) + |Block(file, n)| <= maxSize
       else |file| + WRAP * BLOCK_SIZE <= maxSize || (|file| <= maxSize && !Repeats(file))
  }

  lemma {:induction false} WrongEnds(file: seq<byte>, maxSize: nat, s: System)
    requires Late(file, s) && s.client.maxSize == maxSize
    requires s.client.status == Success && s.client.written != file
    ensures CanGoWrong(file, maxSize)
  {
    var n, b := Blocks(file), s.client.blocknum;
    BlocksCover(file, n);
    LateEnds(n, b);
    if n <= 2 * WRAP && b != n {
      assert b >= n + WRAP;
    }
  }

  lemma LateEnds(n: nat, b: nat)
    requires n > WRAP && b > WRAP && b % WRAP == n % WRAP
    ensures b >= Residue(n) + WRAP && (n <= 2 * WRAP ==> Residue(n) + WRAP == n && (b == n || b >= n + WRAP))
  {
  }

  /** The age of packets matters exactly then, for every file and every limit. */
  lemma {:induction false} AgeMattersExactly(file: seq<byte>, maxSize: nat)
    ensures (exists run, steps :: WrongRun(file, maxSize, run, steps)) <==> CanGoWrong(file, maxSize)
  {
    if CanGoWrong(file, maxSize) {
      var run, steps := GoWrong(file, maxSize);
    }
    forall run, steps | WrongRun(file, maxSize, run, steps)
      ensures CanGoWrong(file, maxSize)
    {
      RunIsLoose(file, maxSize, run, steps, |steps|);
      WrongEnds(file, maxSize, run[|steps|]);
    }
  }

  lemma {:induction false} GoWrong(file: seq<byte>, maxSize: nat) returns (run: seq<System>, steps: seq<Step>)
    requires CanGoWrong(file, maxSize)
    ensures WrongRun(file, maxSize, run, steps)
  {
    if Blocks(file) > 2 * WRAP {
      run, steps := TooShort(file, maxSize);
    } else if |file| + WRAP * BLOCK_SIZE <= maxSize {
      run, steps := TooLong(file, maxSize);
    } else {
      var b :| WRAP < b < Blocks(file) && Block(file, b) != Block(file, b - WRAP);
      run, steps := Swapped(file, maxSize, b);
    }
  }
}
