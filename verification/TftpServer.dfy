/** The server side of TFTP: one TFTP object per transfer, driven by the packets it waits for. */
module TftpServer {
  import opened Bytes
  import opened TftpClient

  datatype Status = Ready | WaitForAck | WaitForData | Finished | Aborted

  /** The instance variables, with the open device as its bytes and read position. */
  datatype Server = Server(
    status: Status, blocknum: int, last: bool, sendEmpty: bool,
    file: seq<Byte>, pos: nat,      // open for reading
    written: seq<Byte>)             // open for writing

  function Fresh(file: seq<Byte>): Server {
    Server(Ready, 0, false, false, file, 0, [])
  }

  /** `pack("n")` keeps 16 bits. */
  function Wire(n: int): Word {
    n % 0x1_0000
  }

  /** What `@device.read(256)` returns: up to 256 bytes from the position on. */
  function Chunk(file: seq<Byte>, pos: nat): seq<Byte> {
    if pos >= |file| then [] else if pos + BLKSIZE <= |file| then file[pos..pos + BLKSIZE] else file[pos..]
  }

  /** send_data */
  function SendData(s: Server, empty: bool): (Server, seq<Packet>) {
    var blocknum := s.blocknum + 1;
    if empty then
      (s.(status := WaitForAck, blocknum := blocknum, last := true, sendEmpty := false), [Data(Wire(blocknum), [])])
    else
      var data := Chunk(s.file, s.pos);
      var pos := s.pos + |data|;
      (s.(status := WaitForAck, blocknum := blocknum, pos := pos,
          last := |data| < BLKSIZE, sendEmpty := |data| == BLKSIZE && pos >= |s.file|),
       [Data(Wire(blocknum), data)])
  }

  /** One turn of the packet loop. A request opens the file at its start; for writing, it empties it. */
  function Serve(s: Server, p: Packet): (Server, seq<Packet>) {
    match s.status
    case Finished => (s, [])
    case Aborted => (s, [])
    case _ =>
      match p
      case Rrq => (s.(status := WaitForAck, pos := 0), [Oack])
      case Wrq => (s.(status := WaitForData, written := []), [Oack])
      case Ack(b) =>
        if s.status == Ready then (s.(status := Aborted), []) // no device is open
        else if s.last then (s.(status := Finished, blocknum := 0), [])
        else SendData(s.(blocknum := b), s.sendEmpty)
      case Data(b, payload) =>
        if s.status == Ready then (s.(status := Aborted), []) else
        // the size compared with the block size counts the four header bytes
        var s1 := s.(blocknum := b, written := s.written + payload);
        (if |payload| + 4 < BLKSIZE then s1.(status := Finished, blocknum := 0) else s1.(status := WaitForData),
         [Ack(Wire(b))])
      case Err(_) => (s.(status := Aborted), [])
      case Oack => (s.(status := Aborted), [])
  }

  /** A whole transfer: every wait ends in a packet or, after five seconds, in giving up. */
  function ServeAll(s: Server, arrivals: seq<Option<Packet>>): (Server, seq<Packet>) {
    if arrivals == [] then (s, [])
    else
      var (s1, out1) := ServeAll(s, arrivals[..|arrivals| - 1]);
      match arrivals[|arrivals| - 1]
      case None => (if s1.status == Finished then s1 else s1.(status := Aborted), out1)
      case Some(p) =>
        var (s2, out2) := Serve(s1, p);
        (s2, out1 + out2)
  }

  lemma ServeMore(s: Server, arrivals: seq<Option<Packet>>, k: nat)
    requires k < |arrivals|
    ensures var (s1, out1) := ServeAll(s, arrivals[..k]);
            ServeAll(s, arrivals[..k + 1]) ==
            match arrivals[k]
            case None => (if s1.status == Finished then s1 else s1.(status := Aborted), out1)
            case Some(p) => (Serve(s1, p).0, out1 + Serve(s1, p).1)
  {
    assert arrivals[..k + 1][..k] == arrivals[..k];
  }

  lemma ServeNone(s: Server, arrivals: seq<Option<Packet>>)
    ensures ServeAll(s, arrivals[..0]) == (s, [])
  {
  }

  /** The server counts on from the number of the acknowledgement, whatever it sent last, and acknowledges
      the number of the block, whatever came before. */
  lemma CountsOn(s: Server, b: Word, payload: seq<Byte>)
    requires s.status == WaitForAck || s.status == WaitForData
    ensures var (s1, out) := Serve(s, Ack(b));
            if s.last then s1.status == Finished && out == []
            else |out| == 1 && out[0].Data? && out[0].blk == (b + 1) % 0x1_0000 && s1.status == WaitForAck
    ensures var (s1, out) := Serve(s, Data(b, payload));
            && out == [Ack(b)] && s1.written == s.written + payload
            && s1.status == if |payload| < 252 then Finished else WaitForData
  {
  }

  /** It gives up exactly on an error packet, an option acknowledgement, or an acknowledgement or block that
      comes before any request; a request starts over. */
  lemma GivesUp(s: Server, p: Packet)
    requires s.status != Finished && s.status != Aborted
    ensures Serve(s, p).0.status == Aborted <==> p.Err? || p.Oack? || (s.status == Ready && (p.Ack? || p.Data?))
    ensures Serve(s, p).0.status == Aborted ==> Serve(s, p) == (s.(status := Aborted), [])
    ensures p.Rrq? || p.Wrq? ==> Serve(s, p).1 == [Oack]
    ensures p.Rrq? ==> Serve(s, p).0.pos == 0 && Serve(s, p).0.status == WaitForAck
    ensures p.Wrq? ==> Serve(s, p).0.written == [] && Serve(s, p).0.status == WaitForData
  {
  }

  /** Once a packet has been handled the object is waiting or done. */
  lemma NeverReady(s: Server, p: Packet)
    ensures Serve(s, p).0.status != Ready
  {
  }
}
