/** The TFTP calls of the device on their shared globals. */
module TftpDevice {
  import opened Bytes
  import opened TftpClient
  import opened TftpWire
  import Q = Request

  /** memcpy */
  method Copy(dst: array<Byte>, at: nat, s: seq<Byte>)
    requires at + |s| <= dst.Length
    modifies dst
    ensures dst[..] == Overlay(old(dst[..]), at, s)
  {
    var i := 0;
    while i < |s|
      invariant 0 <= i <= |s|
      invariant dst[..] == Overlay(old(dst[..]), at, s[..i])
    {
      dst[at + i] := s[i];
      i := i + 1;
      assert s[..i] == s[..i - 1] + [s[i - 1]];
    }
    assert s[..i] == s;
  }

  /** The four bytes in front of a packet: its type and block number. */
  method Header(dst: array<Byte>, kind: Byte, blk: Word)
    requires dst.Length >= 4
    modifies dst
    ensures dst[..] == Overlay(old(dst[..]), 0, [0, kind, Hi(blk), Lo(blk)])
  {
    dst[0] := 0;
    dst[1] := kind;
    dst[2] := Hi(blk);
    dst[3] := Lo(blk);
    assert dst[..] == Overlay(old(dst[..]), 0, [0, kind, Hi(blk), Lo(blk)]);
  }

  lemma HeaderKeeps(buf: seq<Byte>, header: seq<Byte>, s: seq<Byte>)
    requires |header| == 4 && 4 + |s| <= |buf| && buf[4..4 + |s|] == s
    ensures Overlay(buf, 0, header)[4..4 + |s|] == s
  {
    assert Overlay(buf, 0, header)[4..] == buf[4..];
  }

  /** The globals of the client. `sent` collects what goes out through sendUdp. */
  class Tftp {
    var request: Request
    var error: bool
    var blknum: Word
    var lastblk: Word
    var lastgot: Word
    var available: nat
    var endOfData: bool
    var clearToSend: bool
    const data: array<Byte>
    var sent: seq<Packet>

    constructor ()
      ensures fresh(data) && ValidClient(State()) && request == NoRq && sent == []
    {
      request, error, blknum, lastblk, lastgot := NoRq, false, 0, 0xFFFF, 0;
      available, endOfData, clearToSend, sent := 0, false, false, [];
      data := new Byte[BLKSIZE + 4](_ => 0);
    }

    ghost function State(): Client
      reads this, data
    {
      Client(request, error, blknum, lastblk, lastgot, available, endOfData, clearToSend, data[..])
    }

    /** tftp_build_ack and tftp_send_ack: the first four bytes of the buffer go out. */
    method SendAck(blk: Word)
      requires ValidClient(State())
      modifies `sent, data
      ensures (State(), sent) == (TftpClient.SendAck(old(State()), blk).0, old(sent) + [Ack(blk)])
      ensures data[0] == 0 && data[1] == 4 && data[2] as int * 0x100 + data[3] as int == blk
      ensures ReadPacket(data[..4]) == Some(Ack(blk))
    {
      hide ReadPacket, Uint16, Hi, Lo, Overlay;
      ghost var was: seq<Byte> := data[..];
      Header(data, 4, blk);
      sent := sent + [Ack(blk)];
      HeaderLies(data[..], was, 4, blk);
    }

    /** tftp_send_rrq and tftp_send_wrq, up to sendUdp: the size of the packet, or 0. */
    method StartRequest(kind: Request, mode: Word, name: seq<Byte>) returns (size: nat)
      requires ValidClient(State()) && kind != NoRq
      modifies `request, data
      ensures State() == TftpClient.StartRequest(old(State()), kind, mode, name)
      ensures size > 0 <==> old(request) == NoRq && |name| <= 20
      ensures size > 0 ==> size == |name| + 21 && data[..size] == Q.Packet(mode, name) && request == kind
      ensures size == 0 ==> request == old(request)
    {
      if request != NoRq {
        return 0;
      }
      ghost var was: seq<Byte> := data[..];
      size := Q.BuildRequest(data, name, mode);
      if size == 0 {
        return 0;
      }
      assert data[..] == data[..size] + data[size..] && data[size..] == was[size..];
      request := kind;
    }

    /** The request that went out is one to read `name`. */
    method GetFile(name: seq<Byte>)
      requires ValidClient(State())
      modifies this, data
      ensures var (c, out) := TftpClient.GetFile(old(State()), name); State() == c && sent == old(sent) + out
      ensures if old(request) == NoRq && |name| <= 20
              then
                && sent == old(sent) + [Rrq] && data[0] == 0 && data[1] == 1
                && data[2..2 + |name|] == name && data[2 + |name|] == 0 && Requests(data[..|name| + 21], 1, name)
                && ReadPacket(data[..|name| + 21]) == Some(Rrq)
              else sent == old(sent)
    {
      hide Requests, Q.Packet, Overlay, TftpClient.StartRequest, ReadPacket, Uint16, NulFree, Q.Cstring, Q.Options;
      available := 0;
      endOfData := false;
      lastgot := 0;
      error := false;
      lastblk := 0xFFFF;
      assert sent + [] == sent;
      var size := StartRequest(Reading, 1, name);
      if size > 0 {
        sent := sent + [Rrq];
        RequestLies(data[..], 1, name);
      }
    }

    /** The request that went out is one to write `name`. */
    method PutFile(name: seq<Byte>)
      requires ValidClient(State())
      modifies this, data
      ensures var (c, out) := TftpClient.PutFile(old(State()), name); State() == c && sent == old(sent) + out
      ensures if old(request) == NoRq && |name| <= 20
              then
                && sent == old(sent) + [Wrq] && data[0] == 0 && data[1] == 2
                && data[2..2 + |name|] == name && data[2 + |name|] == 0 && Requests(data[..|name| + 21], 2, name)
                && ReadPacket(data[..|name| + 21]) == Some(Wrq)
              else sent == old(sent)
    {
      hide Requests, Q.Packet, Overlay, TftpClient.StartRequest, ReadPacket, Uint16, NulFree, Q.Cstring, Q.Options;
      clearToSend := false;
      error := false;
      lastblk := 0xFFFF;
      assert sent + [] == sent;
      var size := StartRequest(Writing, 2, name);
      if size > 0 {
        sent := sent + [Wrq];
        RequestLies(data[..], 2, name);
      }
    }

    /** tftp_recv_data */
    method RecvData(payload: seq<Byte>) returns (status: int)
      requires ValidClient(State()) && |payload| <= BLKSIZE
      modifies data
      ensures data[..] == Overlay(old(data[..]), 0, payload)
      ensures status == if |payload| != BLKSIZE then -1 else |payload|
    {
      var isLast := false;
      if |payload| != BLKSIZE || |payload| == 0 {
        isLast := true;
      }
      if |payload| > 0 {
        Copy(data, 0, payload);
      } else {
        assert data[..] == Overlay(data[..], 0, payload);
      }
      if isLast {
        return -1;
      }
      return |payload|;
    }

    method RecvPacket(p: Packet)
      requires ValidClient(State()) && (p.Data? ==> |p.payload| <= BLKSIZE)
      modifies this, data
      ensures ValidClient(State())
      ensures var (c, out) := TftpClient.RecvPacket(old(State()), p); State() == c && sent == old(sent) + out
    {
      hide ReadPacket;
      assert sent + [] == sent;
      blknum := BlkNum(p);
      if lastblk == blknum {
        return;
      }
      lastblk := blknum;
      if p.Oack? && request != Writing {
        SendAck(0);
      } else if p.Data? && request == Reading {
        var status := RecvData(p.payload);
        if status != 0 {
          available := |p.payload|;
        }
        if status == -1 {
          endOfData := true;
        }
      } else if (p.Ack? || p.Oack?) && request == Writing {
        if p.Oack? {
          blknum := 0;
        }
        clearToSend := true;
      } else if p.Err? {
        error := true;
        request := NoRq;
      }
    }

    /** Copies a new block to `receive` from `at` on and acknowledges it; returns its length. */
    method GetBlock(receive: array<Byte>, at: nat) returns (n: nat)
      requires ValidClient(State()) && receive != data && receive.Length == BLKSIZE + 1 && at <= 1
      modifies this, data, receive
      ensures var (c, block, acks) := TftpClient.GetBlock(old(State()));
        && ValidClient(c) && State() == c && sent == old(sent) + acks
        && n == |block| && receive[..] == Overlay(old(receive[..]), at, block)
    {
      hide ReadPacket;
      n := 0;
      assert receive[..] == Overlay(receive[..], at, []);
      assert sent + [] == sent;
      if available == 0 && !endOfData {
        return;
      }
      if lastgot != 0 && lastgot >= blknum {
        return;
      }
      ghost var block: seq<Byte> := data[..available];
      if available != 0 {
        Copy(receive, at, data[..available]);
      }
      lastgot := blknum;
      SendAck(blknum);
      if endOfData {
        request := NoRq;
      }
      n := available;
    }

    /** The packet of a block: header and payload. */
    method FillData(send: array<Byte>, size: nat, blk: Word)
      requires data.Length == BLKSIZE + 4 && send != data && size <= BLKSIZE && size <= send.Length
      modifies data
      ensures data[..] == Overlay(Overlay(old(data[..]), 4, send[..size]), 0, [0, 3, Hi(blk), Lo(blk)])
      ensures data[4..4 + size] == send[..size]
    {
      Copy(data, 4, send[..size]);
      ghost var filled: seq<Byte> := data[..];
      Header(data, 3, blk);
      HeaderKeeps(filled, [0, 3, Hi(blk), Lo(blk)], send[..size]);
    }

    /** Sends the first `size` bytes of `send` if the server is waiting for them. */
    method PutBlock(send: array<Byte>, size: nat) returns (accepted: bool)
      requires ValidClient(State()) && send != data && size <= BLKSIZE && size <= send.Length
      modifies this, data
      ensures ValidClient(State())
      ensures var (c, ok, out) := TftpClient.PutBlock(old(State()), send[..size]);
        State() == c && accepted == ok && sent == old(sent) + out
      ensures accepted ==>
        && data[0] == 0 && data[1] == 3 && data[2] as int * 0x100 + data[3] as int == (old(blknum) + 1) % 0x1_0000
        && data[4..4 + size] == send[..size]
        && ReadPacket(data[..4 + size]) == Some(sent[|sent| - 1]) && sent == old(sent) + [sent[|sent| - 1]]
    {
      hide Overlay;
      assert sent + [] == sent;
      if !clearToSend {
        return false;
      }
      clearToSend := false;
      var blk := (blknum + 1) % 0x1_0000;
      FillData(send, size, blk);
      sent := sent + [Data(blk, data[4..4 + size])];
      HeaderReads(data[..4 + size], 3, blk);
      NumberIs(data[..4 + size]);
      if size == 0 || size != BLKSIZE {
        request := NoRq;
      }
      return true;
    }
  }
}
