/** The TFTP class of the server: its instance variables, and the loop that serves one transfer. */
module TftpObject {
  import opened Bytes
  import opened TftpClient
  import S = TftpServer

  class Transfer {
    var status: S.Status
    var blocknum: int
    var lastPacket: bool
    var sendEmpty: bool
    var file: seq<Byte>     // the device, open for reading
    var pos: nat
    var written: seq<Byte>  // the device, open for writing
    var sent: seq<Packet>

    constructor (file: seq<Byte>)
      ensures State() == S.Fresh(file) && sent == []
    {
      status, blocknum, lastPacket, sendEmpty, pos := S.Ready, 0, false, false, 0;
      this.file := file;
      written, sent := [], [];
    }

    ghost function State(): S.Server
      reads this
    {
      S.Server(status, blocknum, lastPacket, sendEmpty, file, pos, written)
    }

    /** `@device.read(256)` */
    method Read() returns (data: seq<Byte>)
      modifies `pos
      ensures data == S.Chunk(file, old(pos)) && pos == old(pos) + |data|
    {
      if pos >= |file| {
        data := [];
      } else {
        var n := if pos + BLKSIZE <= |file| then BLKSIZE else |file| - pos;
        data := file[pos..pos + n];
        pos := pos + n;
      }
    }

    method SendData(empty: bool)
      modifies this
      ensures (State(), sent) == (S.SendData(old(State()), empty).0, old(sent) + S.SendData(old(State()), empty).1)
    {
      blocknum := blocknum + 1;
      if empty {
        sent := sent + [Data(S.Wire(blocknum), [])];
        lastPacket := true;
        sendEmpty := false;
      } else {
        var data := Read();
        sent := sent + [Data(S.Wire(blocknum), data)];
        if |data| < BLKSIZE {
          lastPacket := true;
          sendEmpty := false;
        } else if pos >= |file| && |data| == BLKSIZE {
          lastPacket := false;
          sendEmpty := true;
        } else {
          lastPacket := false;
          sendEmpty := false;
        }
      }
      status := S.WaitForAck;
    }

    /** One turn of the loop in `packet`: dispatch on the type of the packet at hand. */
    method Handle(p: Packet)
      requires status != S.Finished && status != S.Aborted
      modifies this
      ensures (State(), sent) == (S.Serve(old(State()), p).0, old(sent) + S.Serve(old(State()), p).1)
    {
      assert sent + [] == sent;
      match p
      case Rrq =>
        pos := 0;
        sent := sent + [Oack];
        status := S.WaitForAck;
      case Wrq =>
        written := [];
        sent := sent + [Oack];
        status := S.WaitForData;
      case Ack(b) =>
        if status == S.Ready {
          status := S.Aborted;
        } else {
          if lastPacket {
            blocknum := 0;
            status := S.Finished;
          } else {
            blocknum := b;
            SendData(sendEmpty);
          }
        }
      case Data(b, payload) =>
        if status == S.Ready {
          status := S.Aborted;
        } else {
          blocknum := b;
          written := written + payload;
          sent := sent + [Ack(S.Wire(blocknum))];
          status := S.WaitForData;
          if |payload| + 4 < BLKSIZE {
            status := S.Finished;
            blocknum := 0;
          }
        }
      case Err(_) => status := S.Aborted;
      case Oack => status := S.Aborted;
    }

    /** `packet`: the first packet, then one for every wait; a wait of five seconds ends the transfer. */
    method Packets(first: Packet, arrivals: seq<Option<Packet>>) returns (used: nat)
      requires status == S.Ready
      modifies this
      ensures used <= |arrivals|
      ensures (State(), sent) == (S.ServeAll(S.Serve(old(State()), first).0, arrivals[..used]).0,
        old(sent) + S.Serve(old(State()), first).1 + S.ServeAll(S.Serve(old(State()), first).0, arrivals[..used]).1)
      ensures used < |arrivals| ==> status == S.Finished || status == S.Aborted
    {
      S.NeverReady(State(), first);
      hide S.Serve, S.ServeAll;
      ghost var begin, out0 := S.Serve(State(), first).0, S.Serve(State(), first).1;
      ghost var before := sent + out0;
      Handle(first);
      S.ServeNone(begin, arrivals);
      assert before + [] == before;
      used := 0;
      while used < |arrivals| && (status == S.WaitForAck || status == S.WaitForData)
        invariant used <= |arrivals|
        invariant State() == S.ServeAll(begin, arrivals[..used]).0
        invariant sent == before + S.ServeAll(begin, arrivals[..used]).1
        invariant status != S.Ready
      {
        S.ServeMore(begin, arrivals, used);
        ghost var out := S.ServeAll(begin, arrivals[..used]).1;
        if arrivals[used].Some? {
          S.NeverReady(State(), arrivals[used].value);
          ghost var more := S.Serve(State(), arrivals[used].value).1;
          Handle(arrivals[used].value);
          assert before + (out + more) == before + out + more;
        } else {
          status := S.Aborted;
          assert sent + [] == sent;
        }
        used := used + 1;
      }
    }
  }
}
