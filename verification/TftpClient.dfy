/** The device side of TFTP: the shared globals of the client and what each call does to them. */
module TftpClient {
  import opened Bytes
  import Q = Request

  const BLKSIZE := 256

  datatype Packet =
    | Rrq
    | Wrq
    | Data(blk: Word, payload: seq<Byte>)
    | Ack(blk: Word)
    | Err(code: Word)
    | Oack              // build_packet puts block number 0 in front of the options

  datatype Request = NoRq | Reading | Writing

  /** The globals. `data` is the 260-byte buffer that sending and receiving share. */
  datatype Client = Client(
    request: Request, error: bool,
    blknum: Word, lastblk: Word, lastgot: Word,
    available: nat, endOfData: bool, clearToSend: bool,
    data: seq<Byte>)

  predicate ValidClient(c: Client) {
    |c.data| == BLKSIZE + 4 && c.available <= BLKSIZE
  }

  /** Bytes 2 and 3 of a packet, read as a block number whatever its type. */
  function BlkNum(p: Packet): Word {
    match p
    case Data(b, _) => b
    case Ack(b) => b
    case Err(code) => code
    case Oack => 0
    case Rrq => 0
    case Wrq => 0
  }

  /** Bytes copied over the start of a buffer part. */
  function Overlay(buf: seq<Byte>, at: nat, s: seq<Byte>): (r: seq<Byte>)
    requires at + |s| <= |buf|
    ensures |r| == |buf|
    ensures r[at..at + |s|] == s
    ensures r[..at] == buf[..at] && r[at + |s|..] == buf[at + |s|..]
  {
    buf[..at] + s + buf[at + |s|..]
  }

  /** The four bytes tftp_build_ack writes over the shared buffer. */
  function AckBytes(blk: Word): seq<Byte> {
    [0, 4, Hi(blk), Lo(blk)]
  }

  function SendAck(c: Client, blk: Word): (Client, seq<Packet>)
    requires ValidClient(c)
  {
    (c.(data := Overlay(c.data, 0, AckBytes(blk))), [Ack(blk)])
  }

  /** tftp_send_rrq and tftp_send_wrq: unless a request is in progress or the name is too long, the request
      is built in the shared buffer. */
  function StartRequest(c: Client, kind: Request, mode: Word, name: seq<Byte>): Client
    requires ValidClient(c)
  {
    if c.request != NoRq || |name| > Q.MAX_NAME then c
    else c.(request := kind, data := Overlay(c.data, 0, Q.Packet(mode, name)))
  }

  /** tftp_get_file: a read request goes out with the counters reset. */
  function GetFile(c: Client, name: seq<Byte>): (Client, seq<Packet>)
    requires ValidClient(c)
  {
    var c1 := c.(available := 0, endOfData := false, lastgot := 0, error := false, lastblk := 0xFFFF);
    var c2 := StartRequest(c1, Reading, 1, name);
    (c2, if c2.request != c.request then [Rrq] else [])
  }

  /** tftp_put_file */
  function PutFile(c: Client, name: seq<Byte>): (Client, seq<Packet>)
    requires ValidClient(c)
  {
    var c1 := c.(clearToSend := false, error := false, lastblk := 0xFFFF);
    var c2 := StartRequest(c1, Writing, 2, name);
    (c2, if c2.request != c.request then [Wrq] else [])
  }

  /** tftp_recv_data: any block that is not full, the empty one included, is the last. */
  function RecvData(c: Client, payload: seq<Byte>): Client
    requires ValidClient(c) && |payload| <= BLKSIZE
  {
    c.(data := Overlay(c.data, 0, payload), available := |payload|,
       endOfData := c.endOfData || |payload| != BLKSIZE)
  }

  /** tftp_recv_packet, once the packet is known to be UDP for our port. */
  function RecvPacket(c: Client, p: Packet): (Client, seq<Packet>)
    requires ValidClient(c) && (p.Data? ==> |p.payload| <= BLKSIZE)
  {
    var c1 := c.(blknum := BlkNum(p));
    if c1.lastblk == c1.blknum then (c1, [])
    else
      var c2 := c1.(lastblk := c1.blknum);
      if p.Oack? && c2.request != Writing then SendAck(c2, 0)
      else if p.Data? && c2.request == Reading then (RecvData(c2, p.payload), [])
      else if (p.Ack? || p.Oack?) && c2.request == Writing then
        (c2.(blknum := if p.Oack? then 0 else c2.blknum, clearToSend := true), [])
      else if p.Err? then (c2.(error := true, request := NoRq), [])
      else (c2, [])
  }

  /** A packet that repeats the last number, or of a kind the transfer is not waiting for, changes nothing
      but the numbers, and is not answered. */
  lemma Unexpected(c: Client, p: Packet)
    requires ValidClient(c) && (p.Data? ==> |p.payload| <= BLKSIZE)
    requires || BlkNum(p) == c.lastblk || p.Rrq? || p.Wrq? || (p.Data? && c.request != Reading)
             || (p.Ack? && c.request != Writing)
    ensures RecvPacket(c, p) == (c.(blknum := BlkNum(p), lastblk := BlkNum(p)), [])
  {
  }

  /** Whether tftp_get_block has a block its caller has not had. */
  predicate HasBlock(c: Client) {
    (c.available != 0 || c.endOfData) && !(c.lastgot != 0 && c.lastgot >= c.blknum)
  }

  /** tftp_get_block: the block, copied out before the acknowledgement overwrites the buffer. */
  function GetBlock(c: Client): (Client, seq<Byte>, seq<Packet>)
    requires ValidClient(c)
  {
    if !HasBlock(c) then (c, [], [])
    else
      var (c1, acks) := SendAck(c.(lastgot := c.blknum), c.blknum);
      (if c.endOfData then c1.(request := NoRq) else c1, c.data[..c.available], acks)
  }

  /** tftp_put_block: the block goes out once the server has acknowledged the one before. */
  function PutBlock(c: Client, block: seq<Byte>): (Client, bool, seq<Packet>)
    requires ValidClient(c) && |block| <= BLKSIZE
  {
    if !c.clearToSend then (c, false, [])
    else
      var blk := (c.blknum + 1) % 0x1_0000;
      var header := [0, 3, Hi(blk), Lo(blk)];
      var c1 := c.(clearToSend := false, data := Overlay(Overlay(c.data, 4, block), 0, header));
      (if |block| != BLKSIZE then c1.(request := NoRq) else c1, true, [Data(blk, block)])
  }
}
