/** TFTP packets as bytes: the type word in front, a number behind it, the payload from byte 4 on. */
module TftpWire {
  import opened Bytes
  import opened TftpClient
  import Q = Request

  /** The 16-bit number at `at`. */
  function Uint16(bytes: seq<Byte>, at: nat): Word
    requires at + 2 <= |bytes|
  {
    bytes[at] as int * 0x100 + bytes[at + 1] as int
  }

  lemma NumberIs(bytes: seq<Byte>)
    requires |bytes| >= 4
    ensures Uint16(bytes, 2) == bytes[2] as int * 0x100 + bytes[3] as int
  {
  }

  /** What a receiver, either side, makes of the bytes of a packet. Requests are told apart by their type
      alone; the name in them is read by `Q.Cstring`, as is the text of options and error messages. */
  function ReadPacket(bytes: seq<Byte>): Option<Packet> {
    if |bytes| < 4 then None
    else match Uint16(bytes, 0)
      case 1 => Some(Rrq)
      case 2 => Some(Wrq)
      case 3 => Some(Data(Uint16(bytes, 2), bytes[4..]))
      case 4 => Some(Ack(Uint16(bytes, 2)))
      case 5 => Some(Err(Uint16(bytes, 2)))
      case 6 => Some(Oack)
      case _ => None
  }

  /** `bytes` are a request of type `mode` for `name`, with the one option blksize = 256. */
  predicate Requests(bytes: seq<Byte>, mode: Word, name: seq<Byte>) {
    && |bytes| >= 4 && Uint16(bytes, 0) == mode
    && (name != [] && NulFree(name) ==>
          && Q.Cstring(bytes, 2) == Some(name)
          && Q.Options(bytes, 2 + |name| + 1) == Some(map[Q.BLKSIZE := Q.TWO_FIVE_SIX]))
  }

  lemma PacketRequests(mode: Word, name: seq<Byte>)
    ensures Requests(Q.Packet(mode, name), mode, name)
    ensures mode == 1 ==> ReadPacket(Q.Packet(mode, name)) == Some(Rrq)
    ensures mode == 2 ==> ReadPacket(Q.Packet(mode, name)) == Some(Wrq)
  {
    hide Q.Cstring, Q.Options;
    if name != [] && NulFree(name) {
      Q.RequestRoundTrip(mode, name);
    }
  }

  lemma RequestBytes(data: seq<Byte>, mode: Byte, name: seq<Byte>)
    requires |name| + 21 <= |data| && data[..|name| + 21] == Q.Packet(mode, name)
    ensures data[0] == 0 && data[1] == mode && data[2..2 + |name|] == name && data[2 + |name|] == 0
  {
    Q.PacketBytes(mode, name);
    var p := data[..|name| + 21];
    hide Q.Packet;
    assert p[2..2 + |name|] == data[2..2 + |name|] && p[0] == data[0] && p[1] == data[1];
    assert p[2 + |name|] == data[2 + |name|];
  }

  /** A request in the buffer, whole and byte by byte. */
  lemma RequestLies(data: seq<Byte>, mode: Byte, name: seq<Byte>)
    requires |name| + 21 <= |data| && data[..|name| + 21] == Q.Packet(mode, name)
    ensures data[0] == 0 && data[1] == mode && data[2..2 + |name|] == name && data[2 + |name|] == 0
    ensures Requests(data[..|name| + 21], mode, name)
    ensures mode == 1 ==> ReadPacket(data[..|name| + 21]) == Some(Rrq)
    ensures mode == 2 ==> ReadPacket(data[..|name| + 21]) == Some(Wrq)
  {
    hide *;
    PacketRequests(mode, name);
    RequestBytes(data, mode, name);
  }

  lemma HeaderReads(bytes: seq<Byte>, kind: Byte, number: Word)
    requires |bytes| >= 4 && bytes[..4] == [0, kind, Hi(number), Lo(number)] && 3 <= kind <= 5
    ensures bytes[0] == 0 && bytes[1] == kind && Uint16(bytes, 2) == number
    ensures ReadPacket(bytes) ==
            Some(if kind == 3 then Data(number, bytes[4..]) else if kind == 4 then Ack(number) else Err(number))
  {
    assert bytes[0] == bytes[..4][0] && bytes[1] == bytes[..4][1];
    assert bytes[2] == bytes[..4][2] && bytes[3] == bytes[..4][3];
  }

  lemma HeaderLies(buf: seq<Byte>, was: seq<Byte>, kind: Byte, number: Word)
    requires |was| >= 4 && buf == Overlay(was, 0, [0, kind, Hi(number), Lo(number)]) && 3 <= kind <= 5
    ensures |buf| == |was| && buf[0] == 0 && buf[1] == kind && buf[2] as int * 0x100 + buf[3] as int == number
    ensures kind == 4 ==> ReadPacket(buf[..4]) == Some(Ack(number))
  {
    hide ReadPacket, Hi, Lo;
    assert buf[0..0 + 4] == [0, kind, Hi(number), Lo(number)];
    HeaderReads(buf[..4], kind, number);
    NumberIs(buf[..4]);
  }

  /** The server's build_packet; `more` is what follows the number. */
  function Built(opcode: Word, number: Word, more: seq<Byte>): seq<Byte> {
    [Hi(opcode), Lo(opcode), Hi(number), Lo(number)] + more
  }

  /** The server's packets as the device reads them: block, acknowledgement, error, option acknowledgement. */
  lemma BuiltReads(number: Word, more: seq<Byte>)
    ensures ReadPacket(Built(3, number, more)) == Some(Data(number, more))
    ensures ReadPacket(Built(4, number, more)) == Some(Ack(number))
    ensures ReadPacket(Built(5, number, more)) == Some(Err(number))
    ensures ReadPacket(Built(6, 0, more)) == Some(Oack)
    ensures BlkNum(Data(number, more)) == BlkNum(Ack(number)) == BlkNum(Err(number)) == number && BlkNum(Oack) == 0
    ensures forall kind: Word :: |Built(kind, number, more)| >= 4 && Uint16(Built(kind, number, more), 2) == number
  {
    assert Built(3, number, more)[4..] == more;
  }
}
