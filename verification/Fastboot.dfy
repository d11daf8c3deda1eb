/** The fastboot session (src/fastboot/fastboot.c): command dispatch and the
    download staging area. */
module Fastboot {
  import opened Basics

  datatype FbState = Command | Download | Finished | Reboot | Disconnected

  datatype Event =
    | HandshakeReply
    | Ran(command: nat, arg: seq<byte>)
    | UnknownCommand
    | TooMuchData
    | DownloadDone

  /** `memory` is the staging area; `events` is what the host and the handlers
      have seen, in order. */
  datatype Session = Session(
    state: FbState, hasStagedData: bool, bufferLen: nat, progress: nat, memory: seq<byte>, events: seq<Event>)

  datatype Entry = Entry(name: seq<byte>, hasArgs: bool, sep: byte)

  /** The command table and what its handlers do to a session. */
  datatype Config = Config(table: seq<Entry>, handler: (nat, Session, seq<byte>) -> Session)

  ghost predicate SessionOk(s: Session) {
    s.bufferLen <= |s.memory| && (s.state == Download ==> s.progress <= s.bufferLen)
  }

  ghost predicate ConfigOk(cfg: Config) {
    && (forall i :: 0 <= i < |cfg.table| ==> cfg.table[i].name != [])
    && (forall i, s, a :: SessionOk(s) ==> SessionOk(cfg.handler(i, s, a)))
  }

  // ---- commands

  predicate Selects(e: Entry, cmd: seq<byte>) {
    && |e.name| <= |cmd| && cmd[..|e.name|] == e.name
    && (e.hasArgs ==> |e.name| < |cmd| && cmd[|e.name|] == e.sep)
  }

  function Argument(e: Entry, cmd: seq<byte>): seq<byte>
    requires Selects(e, cmd)
  {
    cmd[|e.name| + (if e.hasArgs then 1 else 0)..]
  }

  /** The first table entry that selects the command, from `i` on. */
  function Lookup(table: seq<Entry>, cmd: seq<byte>, i: nat): (k: nat)
    requires i <= |table|
    ensures i <= k <= |table|
    ensures k < |table| ==> Selects(table[k], cmd)
    ensures forall j :: i <= j < k ==> !Selects(table[j], cmd)
    decreases |table| - i
  {
    if i == |table| || Selects(table[i], cmd) then i else Lookup(table, cmd, i + 1)
  }

  function HandleCommand(cfg: Config, s: Session, cmd: seq<byte>): Session {
    var k := Lookup(cfg.table, cmd, 0);
    if k == |cfg.table| then s.(events := s.events + [UnknownCommand])
    else
      var arg := Argument(cfg.table[k], cmd);
      cfg.handler(k, s.(events := s.events + [Ran(k, arg)]), arg)
  }

  // ---- downloads

  function Left(s: Session): nat
    requires SessionOk(s) && s.state == Download
  {
    s.bufferLen - s.progress
  }

  function HandleDownload(s: Session, data: seq<byte>): (r: Session)
    requires SessionOk(s) && s.state == Download
    ensures SessionOk(r)
  {
    if |data| > Left(s) then s.(events := s.events + [TooMuchData], state := Command)
    else
      var s1 := s.(memory := Over(s.memory, s.progress, data), progress := s.progress + |data|);
      if |data| < Left(s) then s1
      else s1.(hasStagedData := true, progress := 0, state := Command, events := s.events + [DownloadDone])
  }

  function HandlePacket(cfg: Config, s: Session, data: seq<byte>): (r: Session)
    requires SessionOk(s) && ConfigOk(cfg)
    ensures SessionOk(r)
  {
    match s.state
    case Command => HandleCommand(cfg, s, data)
    case Download => HandleDownload(s, data)
    case _ => s
  }

  /** fastboot_prepare_download: what the download command's handler does. */
  function PrepareDownload(s: Session, bytes: nat): (r: Session)
    requires bytes <= |s.memory|
    ensures SessionOk(r) && r.state == Download && Left(r) == bytes && !r.hasStagedData
    ensures r.memory == s.memory && r.events == s.events
  {
    s.(bufferLen := bytes, progress := 0, hasStagedData := false, state := Download)
  }

  /** Two pieces of a download that stay within what is expected land as one. */
  lemma DownloadCompose(s: Session, a: seq<byte>, b: seq<byte>)
    requires SessionOk(s) && s.state == Download && |a| < Left(s) && |a| + |b| <= Left(s)
    ensures HandleDownload(s, a).state == Download
    ensures HandleDownload(HandleDownload(s, a), b) == HandleDownload(s, a + b)
  {
    OverCompose(s.memory, s.progress, a, b);
  }

  lemma OverCompose(m: seq<byte>, at: nat, a: seq<byte>, b: seq<byte>)
    requires at + |a| + |b| <= |m|
    ensures Over(Over(m, at, a), at + |a|, b) == Over(m, at, a + b)
  {
  }

  // ---- what a packet means, by its bytes

  /** `p` is a use of the command: its name, the separator when it takes arguments, and
      anything behind. */
  ghost predicate Uses(e: Entry, p: seq<byte>) {
    if e.hasArgs then exists a :: p == e.name + [e.sep] + a else exists a :: p == e.name + a
  }

  lemma {:induction false} SelectsIsUses(e: Entry, p: seq<byte>)
    ensures Selects(e, p) <==> Uses(e, p)
  {
    if Selects(e, p) {
      if e.hasArgs {
        assert p == e.name + [e.sep] + p[|e.name| + 1..];
      } else {
        assert p == e.name + p[|e.name|..];
      }
    }
  }

  /** The first command in the table that a packet uses is run, with exactly what stands
      behind the separator as its argument. */
  lemma {:induction false} CommandWithArgument(cfg: Config, s: Session, k: nat, a: seq<byte>)
    requires k < |cfg.table| && cfg.table[k].hasArgs
    requires forall j :: 0 <= j < k ==> !Uses(cfg.table[j], cfg.table[k].name + [cfg.table[k].sep] + a)
    ensures HandleCommand(cfg, s, cfg.table[k].name + [cfg.table[k].sep] + a) ==
            cfg.handler(k, s.(events := s.events + [Ran(k, a)]), a)
  {
    var e := cfg.table[k];
    var p := e.name + [e.sep] + a;
    FirstUse(cfg.table, p, k);
    assert p[|e.name| + 1..] == a;
  }

  /** The same for a command without arguments. */
  lemma {:induction false} CommandWithout(cfg: Config, s: Session, k: nat, a: seq<byte>)
    requires k < |cfg.table| && !cfg.table[k].hasArgs
    requires forall j :: 0 <= j < k ==> !Uses(cfg.table[j], cfg.table[k].name + a)
    ensures HandleCommand(cfg, s, cfg.table[k].name + a) ==
            cfg.handler(k, s.(events := s.events + [Ran(k, a)]), a)
  {
    var e := cfg.table[k];
    FirstUse(cfg.table, e.name + a, k);
    assert (e.name + a)[|e.name|..] == a;
  }

  lemma {:induction false} FirstUse(table: seq<Entry>, p: seq<byte>, k: nat)
    requires k < |table| && Uses(table[k], p) && forall j :: 0 <= j < k ==> !Uses(table[j], p)
    ensures Lookup(table, p, 0) == k && Selects(table[k], p)
  {
    forall j | 0 <= j < |table|
      ensures Selects(table[j], p) <==> Uses(table[j], p)
    {
      SelectsIsUses(table[j], p);
    }
  }

  /** A packet that uses no command is reported and changes nothing else. */
  lemma {:induction false} CommandUnknown(cfg: Config, s: Session, p: seq<byte>)
    requires forall j :: 0 <= j < |cfg.table| ==> !Uses(cfg.table[j], p)
    ensures HandleCommand(cfg, s, p) == s.(events := s.events + [UnknownCommand])
  {
    var k := Lookup(cfg.table, p, 0);
    if k < |cfg.table| {
      SelectsIsUses(cfg.table[k], p);
    }
  }

  function Joined(pieces: seq<seq<byte>>): seq<byte> {
    if pieces == [] then [] else pieces[0] + Joined(pieces[1..])
  }

  /** The pieces of a download, one packet after the other. */
  function Packets(cfg: Config, s: Session, pieces: seq<seq<byte>>): (r: Session)
    requires SessionOk(s) && ConfigOk(cfg)
    ensures SessionOk(r)
    decreases pieces
  {
    if pieces == [] then s else Packets(cfg, HandlePacket(cfg, s, pieces[0]), pieces[1..])
  }

  lemma {:induction false} PiecesLand(cfg: Config, s: Session, pieces: seq<seq<byte>>)
    requires SessionOk(s) && ConfigOk(cfg) && s.state == Download && |Joined(pieces)| == Left(s)
    requires pieces != [] && forall i :: 0 <= i < |pieces| ==> pieces[i] != []
    ensures Packets(cfg, s, pieces) ==
            s.(state := Command, hasStagedData := true, progress := 0,
               memory := Over(s.memory, s.progress, Joined(pieces)), events := s.events + [DownloadDone])
    decreases pieces
  {
    var a, rest := pieces[0], Joined(pieces[1..]);
    if pieces[1..] == [] {
      assert a + [] == a;
      assert Packets(cfg, HandlePacket(cfg, s, a), []) == HandlePacket(cfg, s, a);
    } else {
      assert pieces[1..][0] != [] && |rest| > 0;
      PiecesLand(cfg, HandlePacket(cfg, s, a), pieces[1..]);
      OverCompose(s.memory, s.progress, a, rest);
    }
  }

  /** A download of announced length: however it is cut, its bytes are then at the front
      of the staging area, nothing behind them has changed, and the session takes
      commands again. */
  lemma {:induction false} DownloadLands(cfg: Config, s: Session, pieces: seq<seq<byte>>)
    requires ConfigOk(cfg) && |Joined(pieces)| <= |s.memory|
    requires pieces != [] && forall i :: 0 <= i < |pieces| ==> pieces[i] != []
    ensures var n, r := |Joined(pieces)|, Packets(cfg, PrepareDownload(s, |Joined(pieces)|), pieces);
            && r.state == Command && r.hasStagedData && r.bufferLen == n && r.progress == 0
            && r.memory[..n] == Joined(pieces) && r.memory[n..] == s.memory[n..]
            && r.events == s.events + [DownloadDone]
  {
    PiecesLand(cfg, PrepareDownload(s, |Joined(pieces)|), pieces);
  }

  /** A piece that goes beyond what was announced is refused and ends the download. */
  lemma SurplusIsRefused(cfg: Config, s: Session, data: seq<byte>)
    requires SessionOk(s) && ConfigOk(cfg) && s.state == Download && s.progress + |data| > s.bufferLen
    ensures HandlePacket(cfg, s, data) == s.(state := Command, events := s.events + [TooMuchData])
  {
  }

  /** A session that is over ignores packets. */
  lemma OverIgnoresPackets(cfg: Config, s: Session, data: seq<byte>)
    requires SessionOk(s) && ConfigOk(cfg)
    requires s.state == Finished || s.state == Reboot || s.state == Disconnected
    ensures HandlePacket(cfg, s, data) == s
  {
  }

  // ---- the session object

  class Ops {
    const cfg: Config
    var state: FbState
    var hasStagedData: bool
    var bufferLen: nat
    var progress: nat
    var memory: seq<byte>
    var events: seq<Event>

    ghost function Value(): Session
      reads this
    {
      Session(state, hasStagedData, bufferLen, progress, memory, events)
    }

    ghost predicate Valid()
      reads this
    {
      ConfigOk(cfg) && SessionOk(Value())
    }

    constructor (cfg: Config, memory: seq<byte>)
      requires ConfigOk(cfg)
      ensures Valid() && this.cfg == cfg
      ensures Value() == Session(Command, false, 0, 0, memory, [])
    {
      this.cfg, this.memory := cfg, memory;
      state, hasStagedData, bufferLen, progress, events := Command, false, 0, 0, [];
    }

    method Assign(s: Session)
      modifies this
      ensures Value() == s
    {
      state, hasStagedData, bufferLen := s.state, s.hasStagedData, s.bufferLen;
      progress, memory, events := s.progress, s.memory, s.events;
    }

    /** Moves the argument to the front of the packet, ends it with a NUL and runs
        the handler. Only bytes of the packet itself are written. */
    method RunCommand(data: array<byte>, off: nat, cmd: nat, len: nat, i: nat)
      requires Valid() && i < |cfg.table| && off < cmd && cmd + len <= data.Length
      modifies this, data
      ensures Valid()
      ensures var arg := old(data[cmd..cmd + len]);
              Value() == cfg.handler(i, old(Value()).(events := old(events) + [Ran(i, arg)]), arg)
      ensures forall j :: 0 <= j < data.Length && !(off <= j < cmd + len) ==> data[j] == old(data[j])
    {
      var arg := data[cmd..cmd + len];
      forall j | 0 <= j < len {
        data[off + j] := arg[j];
      }
      data[off + len] := 0;
      events := events + [Ran(i, arg)];
      var s := cfg.handler(i, Session(state, hasStagedData, bufferLen, progress, memory, events), arg);
      Assign(s);
    }

    method HandleCommandAt(data: array<byte>, off: nat, size: nat)
      requires Valid() && off + size <= data.Length
      modifies this, data
      ensures Valid() && Value() == HandleCommand(cfg, old(Value()), old(data[off..off + size]))
      ensures forall j :: 0 <= j < data.Length && !(off <= j < off + size) ==> data[j] == old(data[j])
    {
      ghost var packet := data[off..off + size];
      var cmd, len, i := off, size, 0;
      while i < |cfg.table|
        invariant i <= |cfg.table| && cmd == off && len == size
        invariant data[off..off + size] == packet && unchanged(this) && unchanged(data)
        invariant Lookup(cfg.table, packet, 0) == Lookup(cfg.table, packet, i)
      {
        var cur := cfg.table[i];
        var n := |cur.name|;
        if n > len || data[cmd..cmd + n] != cur.name {
          i := i + 1;
          continue;
        }
        assert packet[..n] == cur.name;
        cmd, len := cmd + n, len - n;
        if cur.hasArgs {
          if len < 1 || data[cmd] != cur.sep {
            cmd, len := cmd - n, len + n;
            i := i + 1;
            continue;
          }
          cmd, len := cmd + 1, len - 1;
        }
        assert data[cmd..cmd + len] == Argument(cur, packet);
        RunCommand(data, off, cmd, len, i);
        return;
      }
      events := events + [UnknownCommand];
    }

    method HandleDownloadAt(data: array<byte>, off: nat, len: nat)
      requires Valid() && state == Download && off + len <= data.Length
      modifies this
      ensures Valid() && Value() == HandleDownload(old(Value()), data[off..off + len])
    {
      var left := bufferLen - progress;
      if len > left {
        events := events + [TooMuchData];
        state := Command;
        return;
      }
      memory := memory[..progress] + data[off..off + len] + memory[progress + len..];
      progress := progress + len;
      if len == left {
        hasStagedData := true;
        progress := 0;
        state := Command;
        events := events + [DownloadDone];
      }
    }

    method HandlePacketAt(data: array<byte>, off: nat, len: nat)
      requires Valid() && off + len <= data.Length
      modifies this, data
      ensures Valid() && Value() == HandlePacket(cfg, old(Value()), old(data[off..off + len]))
      ensures forall j :: 0 <= j < data.Length && !(off <= j < off + len) ==> data[j] == old(data[j])
    {
      match state
      case Command => HandleCommandAt(data, off, len);
      case Download => HandleDownloadAt(data, off, len);
      case _ =>
    }

    method ResetSession()
      requires Valid()
      modifies this
      ensures Valid() && Value() == old(Value()).(state := Command, progress := 0)
    {
      state := Command;
      progress := 0;
    }
  }
}
