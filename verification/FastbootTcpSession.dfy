/** The TCP session object (src/fastboot/tcp.c): handlers that work on the
    receive buffer in place, and the loop that drives them. */
module FastbootTcpSession {
  import opened Basics
  import opened Fastboot
  import opened FastbootTcp

  datatype State = Handshake | Header | CommandData | CommandSegment | DownloadData

  class TcpSession {
    const fb: Ops
    var state: State
    var closed: bool
    var headerCollected: nat
    const header: array<byte>
    var dataLeft: nat
    var segmentOffset: nat
    const segmentBuf: array<byte>

    ghost predicate Valid()
      reads this, fb, header, segmentBuf
    {
      && header.Length == HEADER_LEN && segmentBuf.Length == MSG_MAX && header != segmentBuf
      && fb.Valid()
      && (state == Header ==> headerCollected < HEADER_LEN)
      && (state == CommandSegment ==> 0 < dataLeft && segmentOffset + dataLeft <= MSG_MAX)
    }

    ghost function Value(): (t: Tcp)
      requires Valid()
      reads this, fb, header, segmentBuf
      ensures TcpOk(t)
    {
      var phase := match state
        case Handshake => WaitHandshake
        case Header => WaitHeader(header[..headerCollected])
        case CommandData => WaitCommand(dataLeft)
        case CommandSegment => WaitSegment(segmentBuf[..segmentOffset], dataLeft)
        case DownloadData => WaitDownload(dataLeft);
      Tcp(phase, closed, fb.Value())
    }

    constructor (fb: Ops)
      requires fb.Valid()
      ensures Valid() && Value() == Tcp(WaitHandshake, false, fb.Value())
      ensures this.fb == fb && fresh(header) && fresh(segmentBuf)
    {
      this.fb := fb;
      header := new byte[HEADER_LEN];
      segmentBuf := new byte[MSG_MAX];
      state, closed, headerCollected, dataLeft, segmentOffset := Handshake, false, 0, 0, 0;
    }

    method RecvHandshake(buf: array<byte>, off: nat, len: nat) returns (consumed: nat)
      requires Valid() && state == Handshake && 0 < len && off + len <= buf.Length
      modifies this, fb
      ensures Valid() && (Value(), consumed) == Step(fb.cfg, old(Value()), old(buf[off..off + len]))
    {
      if len < 4 || buf[off..off + 4] != HANDSHAKE {
        assert len >= 4 ==> buf[off..off + len][..4] == buf[off..off + 4];
        closed := true;
        return 0;
      }
      assert buf[off..off + len][..4] == buf[off..off + 4];
      fb.events := fb.events + [HandshakeReply];
      state, headerCollected := Header, 0;
      return 4;
    }

    method RecvHeader(buf: array<byte>, off: nat, len: nat) returns (consumed: nat)
      requires Valid() && state == Header && 0 < len && off + len <= buf.Length && buf != header && buf != segmentBuf
      modifies this, header
      ensures Valid() && (Value(), consumed) == Step(fb.cfg, old(Value()), old(buf[off..off + len]))
    {
      consumed := Min(len, HEADER_LEN - headerCollected);
      ghost var data := buf[off..off + len];
      ghost var c := header[..headerCollected] + data[..consumed];
      forall i | 0 <= i < consumed {
        header[headerCollected + i] := buf[off + i];
      }
      headerCollected := headerCollected + consumed;
      assert header[..headerCollected] == c;
      if headerCollected == HEADER_LEN {
        dataLeft := Decode(header[..]);
        assert header[..] == c;
        state := if fb.state == Download then DownloadData else CommandData;
      }
    }

    method RecvCommand(buf: array<byte>, off: nat, len: nat) returns (consumed: nat)
      requires Valid() && state == CommandData && 0 < len && off + len <= buf.Length
      requires buf != header && buf != segmentBuf
      modifies this, fb, buf
      ensures Valid() && (Value(), consumed) == Step(fb.cfg, old(Value()), old(buf[off..off + len]))
      ensures forall j :: off + consumed <= j < buf.Length ==> buf[j] == old(buf[j])
    {
      if len >= dataLeft {
        consumed := dataLeft;
        assert buf[off..off + len][..consumed] == buf[off..off + consumed];
        fb.HandlePacketAt(buf, off, consumed);
        state, headerCollected := Header, 0;
        return;
      }
      if dataLeft <= MSG_MAX {
        state, segmentOffset := CommandSegment, 0;
        return 0;
      }
      closed := true;
      fb.ResetSession();
      state := Handshake;
      return 0;
    }

    method RecvSegment(buf: array<byte>, off: nat, len: nat) returns (consumed: nat)
      requires Valid() && state == CommandSegment && 0 < len && off + len <= buf.Length
      requires buf != header && buf != segmentBuf
      modifies this, fb, segmentBuf
      ensures Valid() && (Value(), consumed) == Step(fb.cfg, old(Value()), old(buf[off..off + len]))
    {
      consumed := Min(dataLeft, len);
      ghost var data := buf[off..off + len];
      ghost var c := segmentBuf[..segmentOffset] + data[..consumed];
      forall i | 0 <= i < consumed {
        segmentBuf[segmentOffset + i] := buf[off + i];
      }
      segmentOffset := segmentOffset + consumed;
      dataLeft := dataLeft - consumed;
      assert segmentBuf[..segmentOffset] == c;
      if dataLeft == 0 {
        assert segmentBuf[0..segmentOffset] == c;
        fb.HandlePacketAt(segmentBuf, 0, segmentOffset);
        state, headerCollected := Header, 0;
      }
    }

    method RecvDownload(buf: array<byte>, off: nat, len: nat) returns (consumed: nat)
      requires Valid() && state == DownloadData && 0 < len && off + len <= buf.Length
      requires buf != header && buf != segmentBuf
      modifies this, fb, buf
      ensures Valid() && (Value(), consumed) == Step(fb.cfg, old(Value()), old(buf[off..off + len]))
      ensures forall j :: off + consumed <= j < buf.Length ==> buf[j] == old(buf[j])
    {
      consumed := Min(dataLeft, len);
      assert buf[off..off + len][..consumed] == buf[off..off + consumed];
      dataLeft := dataLeft - consumed;
      fb.HandlePacketAt(buf, off, consumed);
      if dataLeft == 0 {
        state, headerCollected := Header, 0;
      }
    }

    method RecvOnce(buf: array<byte>, off: nat, len: nat) returns (consumed: nat)
      requires Valid() && 0 < len && off + len <= buf.Length && buf != header && buf != segmentBuf
      modifies this, fb, header, segmentBuf, buf
      ensures Valid() && (Value(), consumed) == Step(fb.cfg, old(Value()), old(buf[off..off + len]))
      ensures forall j :: off + consumed <= j < buf.Length ==> buf[j] == old(buf[j])
    {
      match state
      case Handshake => consumed := RecvHandshake(buf, off, len);
      case Header => consumed := RecvHeader(buf, off, len);
      case CommandData => consumed := RecvCommand(buf, off, len);
      case CommandSegment => consumed := RecvSegment(buf, off, len);
      case DownloadData => consumed := RecvDownload(buf, off, len);
    }

    /** fastboot_tcp_recv: consume a whole segment. The loop ends although several
        states consume nothing, by the measure on closed flag, bytes left and rank. */
    method Receive(buf: array<byte>)
      requires Valid() && buf != header && buf != segmentBuf
      modifies this, fb, header, segmentBuf, buf
      ensures Valid() && Value() == Recv(fb.cfg, old(Value()), old(buf[..]))
    {
      var off: nat, datalen: nat := 0, buf.Length;
      assert buf[0..buf.Length] == buf[..];
      while datalen != 0 && !closed
        invariant Valid() && off + datalen == buf.Length
        invariant Recv(fb.cfg, Value(), buf[off..off + datalen]) == Recv(fb.cfg, old(Value()), old(buf[..]))
        decreases !closed, datalen, Rank(Value().phase)
      {
        ghost var rest := buf[off..off + datalen];
        var consumed := RecvOnce(buf, off, datalen);
        datalen := datalen - consumed;
        off := off + consumed;
        assert buf[off..off + datalen] == rest[consumed..];
      }
    }
  }
}
