/** Packets patched in place in the Ethernet buffer: UDP and IP headers, echo replies, TCP numbers. */
module TcpIp {
  import opened Bytes
  import opened Checksum

  const ETH_DST_MAC: Byte := 0
  const ETH_SRC_MAC: Byte := 6
  const ETH_TYPE: Byte := 0x0C
  const IP_P: Byte := 0x0E
  const IP_TOTLEN: Byte := 0x10
  const IP_FLAGS: Byte := 0x14
  const IP_TTL: Byte := 0x16
  const IP_PROTO: Byte := 0x17
  const IP_CHECKSUM: Byte := 0x18
  const IP_SRC: Byte := 0x1A
  const IP_DST: Byte := 0x1E
  const ICMP_TYPE: Byte := 0x22
  const ICMP_CHECKSUM: Byte := 0x24
  const SRC_PORT: Byte := 0x22
  const DST_PORT: Byte := 0x24
  const UDP_LEN: Byte := 0x26
  const UDP_CHECKSUM: Byte := 0x28
  const UDP_DATA: Byte := 0x2A
  const TCP_SEQ: Byte := 0x26
  const TCP_SEQACK: Byte := 0x2A
  const TCP_HEADER_LEN: Byte := 0x2E
  const TCP_CHECKSUM: Byte := 0x32
  const IP_HEADER_LEN: Word := 20
  const UDP_HEADER_LEN: Word := 8

  /** An area of the buffer verifies: its sum, folded, is all ones. */
  ghost predicate Checks(kind: Kind, gpb: seq<Byte>, from: nat, to: nat) {
    0 <= from <= to <= |gpb| && to - from < 0x1_0000 && Verifies(kind, gpb[from..to])
  }

  /** In the terms of RFC 1071: an IP header or message checks when its checksum is 0, a UDP datagram, from its
      addresses on, when that of its pseudo-header and itself is. */
  lemma ChecksIs(gpb: seq<Byte>, from: nat, to: nat)
    requires from <= to <= |gpb| && to - from < 0xFFFF
    ensures Checks(Plain, gpb, from, to) <==> Rfc1071(gpb[from..to]) == 0
    ensures to - from >= 16 && to - from < 0xFFEF ==>
              var n := to - from - 8;
              Checks(Udp, gpb, from, to) <==>
              Rfc1071(gpb[from..from + 8] + [0, 17, n / 0x100, n % 0x100] + gpb[from + 8..to]) == 0
  {
    hide Rfc1071, Verifies;
    PlainIsRfc(gpb[from..to]);
    assert Verifies(Plain, gpb[from..to]) <==> Rfc1071(gpb[from..to]) == 0 by { PlainVerifies(gpb[from..to]); }
    if to - from >= 16 && to - from < 0xFFEF {
      var src, dst, segment := gpb[from..from + 4], gpb[from + 4..from + 8], gpb[from + 8..to];
      VerifiesIs(Udp, src, dst, segment);
      assert gpb[from..to] == src + dst + segment && gpb[from..from + 8] == src + dst;
    }
  }

  lemma PlainVerifies(s: seq<Byte>)
    requires |s| < 0x1_0000
    ensures Verifies(Plain, s) <==> Rfc1071(s) == 0
  {
    PlainIsRfc(s);
  }

  /** Filling a zeroed field at an even place of its area. */
  lemma FillChecks(kind: Kind, was: seq<Byte>, now: seq<Byte>, dest: nat, from: nat, to: nat)
    requires 0 <= from <= dest && dest + 1 < to <= |was| && to - from < 0x1_0000 && (dest - from) % 2 == 0
    requires was[dest] == was[dest + 1] == 0
    requires var ck := 0xFFFF - Folded(kind, was[from..to]); now == was[dest := Hi(ck)][dest + 1 := Lo(ck)]
    ensures Checks(kind, now, from, to)
  {
    var area: seq<Byte> := was[from..to];
    var ck := 0xFFFF - Folded(kind, area);
    FilledVerifies(kind, area, dest - from);
    assert now[from..to] == area[dest - from := Hi(ck)][dest - from + 1 := Lo(ck)];
  }

  lemma ChecksKept(kind: Kind, was: seq<Byte>, now: seq<Byte>, from: nat, to: nat)
    requires Checks(kind, was, from, to) && to <= |now| && forall k :: from <= k < to ==> now[k] == was[k]
    ensures Checks(kind, now, from, to)
  {
    assert now[from..to] == was[from..to];
  }

  lemma Holds(gpb: array<Byte>, lo: nat, s: seq<Byte>)
    requires lo + |s| <= gpb.Length && forall k :: 0 <= k < |s| ==> gpb[lo + k] == s[k]
    ensures gpb[lo..lo + |s|] == s
    ensures lo + |s| == gpb.Length ==> gpb[lo..] == s
  {
  }

  /** fill_ip_hdr_checksum: don't-fragment, time to live 64, and a header that verifies. */
  method FillIpHdrChecksum(gpb: array<Byte>)
    requires gpb.Length >= 0x22
    modifies gpb
    ensures Checks(Plain, gpb[..], 0x0E, 0x22)
    ensures gpb[0x14] == 0x40 && gpb[0x15] == 0 && gpb[0x16] == 64
    ensures forall k :: 0 <= k < gpb.Length && k !in {0x14, 0x15, 0x16, 0x18, 0x19} ==> gpb[k] == old(gpb[k])
  {
    gpb[IP_CHECKSUM] := 0;
    gpb[IP_CHECKSUM + 1] := 0;
    gpb[IP_FLAGS] := 0x40;
    gpb[IP_FLAGS + 1] := 0;
    gpb[IP_TTL] := 64;
    ghost var was := gpb[..];
    assert gpb[IP_P..IP_P + IP_HEADER_LEN] == was[0x0E..0x22];
    FillChecksum(gpb, IP_CHECKSUM, IP_P, IP_HEADER_LEN, Plain);
    FillChecks(Plain, was, gpb[..], 0x18, 0x0E, 0x22);
  }

  const ALL_ONES: seq<Byte> := [0xFF, 0xFF, 0xFF, 0xFF, 0xFF, 0xFF]
  const IP_HEADER: seq<Byte> := [0x45, 0, 0, 0x82, 0, 0, 0x40, 0, 0x20]

  /** udpPrepare: addresses, ports and a zeroed checksum for a datagram to `dip`; a multicast address
      goes to all. */
  method UdpPrepare(gpb: array<Byte>, servermac: seq<Byte>, mymac: seq<Byte>, myip: seq<Byte>,
      sport: Word, dip: seq<Byte>, dport: Word)
    requires gpb.Length >= 0x2A && |servermac| == |mymac| == 6 && |myip| == |dip| == 4
    modifies gpb
    ensures gpb[0..6] == if 0xE0 <= dip[0] <= 0xEF then [0xFF, 0xFF, 0xFF, 0xFF, 0xFF, 0xFF] else servermac
    ensures gpb[6..12] == mymac && gpb[0x0C] == 8 && gpb[0x0D] == 0
    ensures gpb[0x0E] == 0x45 && gpb[0x0F] == 0 && gpb[0x10] == 0 && gpb[0x11] == 0x82 && gpb[0x12] == gpb[0x13] == 0
    ensures gpb[0x14] == 0x40 && gpb[0x15] == 0 && gpb[0x16] == 0x20 && gpb[0x17] == 17
    ensures gpb[0x1A..0x1E] == myip && gpb[0x1E..0x22] == dip
    ensures gpb[0x22] as int * 0x100 + gpb[0x23] as int == sport
    ensures gpb[0x24] as int * 0x100 + gpb[0x25] as int == dport
    ensures gpb[0x26] == gpb[0x28] == gpb[0x29] == 0
    ensures forall k :: k in {0x18, 0x19, 0x27} || 0x2A <= k < gpb.Length ==> gpb[k] == old(gpb[k])
  {
    ghost var mac := if dip[0] / 16 == 0x0E then ALL_ONES else servermac;
    PutAddresses(gpb, servermac, mymac, myip, dip);
    PutPorts(gpb, sport, dport);
    Holds(gpb, 0, mac);
    Holds(gpb, 6, mymac);
    Holds(gpb, 0x1A, myip);
    Holds(gpb, 0x1E, dip);
  }

  /** The part of it up to the addresses, and the first bytes of the IP header. */
  method PutAddresses(gpb: array<Byte>, servermac: seq<Byte>, mymac: seq<Byte>, myip: seq<Byte>, dip: seq<Byte>)
    requires gpb.Length >= 0x2A && |servermac| == |mymac| == 6 && |myip| == |dip| == 4
    modifies gpb
    ensures var mac := if dip[0] / 16 == 0x0E then ALL_ONES else servermac;
      forall k :: 0 <= k < 12 ==> gpb[k] == if k < 6 then mac[k] else mymac[k - 6]
    ensures forall k :: 0x1A <= k < 0x22 ==> gpb[k] == if k < 0x1E then myip[k - 0x1A] else dip[k - 0x1E]
    ensures gpb[ETH_TYPE] == 8 && gpb[ETH_TYPE + 1] == 0
    ensures forall k :: 0x0E <= k < 0x17 ==> gpb[k] == IP_HEADER[k - 0x0E]
    ensures forall k :: 0x17 <= k < 0x1A || 0x22 <= k < gpb.Length ==> gpb[k] == old(gpb[k])
  {
    SetMacAndIps(gpb, servermac, mymac, myip, dip);
    if dip[0] / 16 == 0x0E {
      CopyBytes(gpb, ETH_DST_MAC, ALL_ONES);
    }
    gpb[ETH_TYPE] := 8;
    gpb[ETH_TYPE + 1] := 0;
    CopyBytes(gpb, IP_P, IP_HEADER);
  }

  /** setMACandIPs */
  method SetMacAndIps(gpb: array<Byte>, mac: seq<Byte>, mymac: seq<Byte>, myip: seq<Byte>, dst: seq<Byte>)
    requires gpb.Length >= 0x22 && |mac| == |mymac| == 6 && |myip| == |dst| == 4
    modifies gpb
    ensures forall k :: 0 <= k < gpb.Length ==>
      gpb[k] == if k < 6 then mac[k] else if k < 12 then mymac[k - 6]
                else if 0x1A <= k < 0x1E then myip[k - 0x1A] else if 0x1E <= k < 0x22 then dst[k - 0x1E]
                else old(gpb[k])
  {
    CopyBytes(gpb, ETH_DST_MAC, mac);
    CopyBytes(gpb, ETH_SRC_MAC, mymac);
    CopyBytes(gpb, IP_DST, dst);
    CopyBytes(gpb, IP_SRC, myip);
  }

  /** Protocol and ports, and zeroes where udpTransmit has yet to write. */
  method PutPorts(gpb: array<Byte>, sport: Word, dport: Word)
    requires gpb.Length >= 0x2A
    modifies gpb
    ensures gpb[IP_PROTO] == IP_PROTO_UDP
    ensures Be16(gpb[SRC_PORT], gpb[SRC_PORT + 1]) == sport
    ensures Be16(gpb[DST_PORT], gpb[DST_PORT + 1]) == dport
    ensures gpb[0x10] == gpb[0x26] == gpb[0x28] == gpb[0x29] == 0
    ensures forall k :: 0 <= k < gpb.Length && k !in {0x10, 0x17, 0x22, 0x23, 0x24, 0x25, 0x26, 0x28, 0x29} ==>
      gpb[k] == old(gpb[k])
  {
    gpb[IP_TOTLEN] := 0;
    gpb[IP_PROTO] := IP_PROTO_UDP;
    gpb[DST_PORT] := Hi(dport);
    gpb[DST_PORT + 1] := Lo(dport);
    gpb[SRC_PORT] := Hi(sport);
    gpb[SRC_PORT + 1] := Lo(sport);
    gpb[UDP_LEN] := 0;
    gpb[UDP_CHECKSUM] := 0;
    gpb[UDP_CHECKSUM + 1] := 0;
  }

  /** What udpTransmit may change: total length, flags, time to live, both checksums and the UDP length. */
  const TRANSMIT_FIELDS: set<int> := {0x10, 0x11, 0x14, 0x15, 0x16, 0x18, 0x19, 0x26, 0x27, 0x28, 0x29}

  /** udpTransmit, on a buffer udpPrepare has filled in: both length fields are set, and both the IP
      header and the UDP datagram with its pseudo-header verify. */
  method UdpTransmit(gpb: array<Byte>, datalen: Word)
    requires UDP_DATA as int + datalen <= gpb.Length && datalen <= 0xFFFF - 28
    requires gpb[UDP_CHECKSUM] == gpb[UDP_CHECKSUM + 1] == 0
    modifies gpb
    ensures Checks(Plain, gpb[..], 0x0E, 0x22)
    ensures Checks(Udp, gpb[..], 0x1A, 0x2A + datalen as int)
    ensures gpb[0x10] as int * 0x100 + gpb[0x11] as int == 28 + datalen as int
    ensures gpb[0x26] as int * 0x100 + gpb[0x27] as int == 8 + datalen as int
    ensures gpb[0x14] == 0x40 && gpb[0x15] == 0 && gpb[0x16] == 64
    ensures forall k :: 0 <= k < gpb.Length && k !in TRANSMIT_FIELDS ==> gpb[k] == old(gpb[k])
  {
    hide Folded, Checks;
    var total: Word := IP_HEADER_LEN + UDP_HEADER_LEN + datalen;
    gpb[IP_TOTLEN] := Hi(total);
    gpb[IP_TOTLEN + 1] := Lo(total);
    FillIpHdrChecksum(gpb);
    ghost var headed := gpb[..];
    var length: Word := UDP_HEADER_LEN + datalen;
    gpb[UDP_LEN] := Hi(length);
    gpb[UDP_LEN + 1] := Lo(length);
    ghost var was := gpb[..];
    FillChecksum(gpb, UDP_CHECKSUM, IP_SRC, 16 + datalen, Udp);
    ChecksKept(Plain, headed, gpb[..], 0x0E, 0x22);
    FillChecks(Udp, was, gpb[..], 0x28, 0x1A, 0x2A + datalen as int);
  }

  // ---------------------------------------------------------------- echo replies

  /** The two bytes of the patched ICMP checksum. */
  function PatchHi(hi: Byte): Byte {
    var h: int := hi;
    (h + 8) % 256
  }

  function PatchLo(hi: Byte, lo: Byte): Byte {
    var l: int := lo;
    if hi > 0xFF - 8 then (l + 1) % 256 else lo
  }

  /** Two fewer 8s in the type, eight more in the checksum, and the carry of its high byte around: the
      patched message verifies unless that carry meets a low byte of 0xFF and is lost. */
  lemma PatchVerifies(s: seq<Byte>)
    requires 4 <= |s| < 0x1_0000 && s[0] == 8 && Verifies(Plain, s)
    ensures var r := s[0 := 0][2 := PatchHi(s[2])][3 := PatchLo(s[2], s[3])];
            Verifies(Plain, r) <==> !(s[2] >= 0xF8 && s[3] == 0xFF)
  {
    hide Fold, WordSum;
    var r := s[0 := 0][2 := PatchHi(s[2])][3 := PatchLo(s[2], s[3])];
    FirstFour(s);
    FirstFour(r);
    assert r[4..] == s[4..];
    AllOnes(WordSum(s));
    AllOnes(WordSum(r));
    PatchArithmetic(s[1], s[2], s[3], WordSum(s[4..]));
  }

  /** A request whose carry is lost: its checksum is 0xF8FF, and the reply's does not verify. */
  lemma LostPatch()
    ensures var s := [8, 0, 0xF8, 0xFF, 0xFE, 0xFF];
            && Verifies(Plain, s)
            && !Verifies(Plain, s[0 := 0][2 := PatchHi(s[2])][3 := PatchLo(s[2], s[3])])
  {
    var s: seq<Byte> := [8, 0, 0xF8, 0xFF, 0xFE, 0xFF];
    assert s[2..] == [0xF8, 0xFF, 0xFE, 0xFF] && s[2..][2..] == [0xFE, 0xFF] && s[2..][2..][2..] == [];
    assert WordSum(s) == 0x0800 + (0xF8FF + (0xFEFF + 0));
    AllOnes(WordSum(s));
    PatchVerifies(s);
  }

  lemma PatchArithmetic(code: Byte, hi: Byte, lo: Byte, rest: nat)
    requires var a := Be16(8, code) + Be16(hi, lo) + rest; a % 0xFFFF == 0
    ensures var b := Be16(0, code) + Be16(PatchHi(hi), PatchLo(hi, lo)) + rest;
            (b % 0xFFFF == 0 && b != 0) <==> !(hi >= 0xF8 && lo == 0xFF)
  {
    var a := Be16(8, code) + Be16(hi, lo) + rest;
    var b := Be16(0, code) + Be16(PatchHi(hi), PatchLo(hi, lo)) + rest;
    assert a == 0xFFFF * (a / 0xFFFF);
    if hi < 0xF8 {
      assert b == a;
    } else if lo < 0xFF {
      assert b == a - 0xFFFF;
      assert b == 0xFFFF * (a / 0xFFFF - 1);
    } else {
      assert b == a - 0xFFFF - 256;
      assert b == 0xFFFF * (a / 0xFFFF - 2) + (0xFFFF - 256);
    }
  }

  lemma FirstFour(s: seq<Byte>)
    requires |s| >= 4
    ensures WordSum(s) == Be16(s[0], s[1]) + Be16(s[2], s[3]) + WordSum(s[4..])
  {
    assert s[2..][2..] == s[4..];
  }

  /** make_eth_ip: addresses swapped, ours filled in, and a fresh IP header checksum. */
  method MakeEthIp(gpb: array<Byte>, mymac: seq<Byte>, myip: seq<Byte>)
    requires gpb.Length >= 0x22 && |mymac| == 6 && |myip| == 4
    modifies gpb
    ensures Checks(Plain, gpb[..], 0x0E, 0x22)
    ensures gpb[0..6] == old(gpb[6..12]) && gpb[6..12] == mymac
    ensures gpb[0x1E..0x22] == old(gpb[0x1A..0x1E]) && gpb[0x1A..0x1E] == myip
    ensures gpb[0x14] == 0x40 && gpb[0x15] == 0 && gpb[0x16] == 64
    ensures forall k :: 0x0C <= k < 0x1A && k !in {0x14, 0x15, 0x16, 0x18, 0x19} ==> gpb[k] == old(gpb[k])
    ensures gpb[0x22..] == old(gpb[0x22..])
  {
    hide Checks;
    var mac, ip := gpb[6..12], gpb[0x1A..0x1E];
    ghost var behind: seq<Byte> := gpb[0x22..];
    SetMacAndIps(gpb, mac, mymac, myip, ip);
    FillIpHdrChecksum(gpb);
    Holds(gpb, 0, mac);
    Holds(gpb, 6, mymac);
    Holds(gpb, 0x1A, myip);
    Holds(gpb, 0x1E, ip);
    Holds(gpb, 0x22, behind);
  }

  /** copyMac, copyIp */
  method CopyBytes(gpb: array<Byte>, at: nat, s: seq<Byte>)
    requires at + |s| <= gpb.Length
    modifies gpb
    ensures forall k :: 0 <= k < gpb.Length ==> gpb[k] == if at <= k < at + |s| then s[k - at] else old(gpb[k])
  {
    var i := 0;
    while i < |s|
      invariant 0 <= i <= |s|
      invariant forall k :: 0 <= k < gpb.Length ==>
        gpb[k] == if at <= k < at + i then s[k - at] else old(gpb[k])
    {
      gpb[at + i] := s[i];
      i := i + 1;
    }
  }

  /** make_echo_reply_from_request on a request whose ICMP message ends at `end`: the reply goes back to where
      the request came from; its IP header always verifies, its message exactly when the carry is not lost. */
  method MakeEchoReply(gpb: array<Byte>, mymac: seq<Byte>, myip: seq<Byte>, ghost end: nat)
    requires 0x26 <= end <= gpb.Length && end - 0x22 < 0x1_0000 && |mymac| == 6 && |myip| == 4
    requires gpb[ICMP_TYPE] == 8 && Checks(Plain, gpb[..], 0x22, end)
    modifies gpb
    ensures gpb[0x22] == 0 && gpb[0x23] == old(gpb[0x23]) && gpb[0x26..] == old(gpb[0x26..])
    ensures gpb[0..6] == old(gpb[6..12]) && gpb[6..12] == mymac
    ensures gpb[0x1E..0x22] == old(gpb[0x1A..0x1E]) && gpb[0x1A..0x1E] == myip
    ensures gpb[0x14] == 0x40 && gpb[0x15] == 0 && gpb[0x16] == 64
    ensures forall k :: 0x0C <= k < 0x1A && k !in {0x14, 0x15, 0x16, 0x18, 0x19} ==> gpb[k] == old(gpb[k])
    ensures Checks(Plain, gpb[..], 0x0E, 0x22)
    ensures Checks(Plain, gpb[..], 0x22, end) <==>
            !(old(gpb[0x24]) >= 0xF8 && old(gpb[0x25]) == 0xFF)
  {
    ghost var s: seq<Byte> := gpb[0x22..end];
    MakeEthIp(gpb, mymac, myip);
    ghost var mid: seq<Byte> := gpb[..];
    assert mid[0x22..end] == s by {
      assert mid[0x22..] == old(gpb[0x22..]);
      assert mid[0x22..][..end - 0x22] == old(gpb[0x22..])[..end - 0x22];
    }
    gpb[ICMP_TYPE] := 0;
    if gpb[ICMP_CHECKSUM] > 0xFF - 0x08 {
      var lo: int := gpb[ICMP_CHECKSUM + 1];
      gpb[ICMP_CHECKSUM + 1] := (lo + 1) % 256;
    }
    var hi: int := gpb[ICMP_CHECKSUM];
    gpb[ICMP_CHECKSUM] := (hi + 0x08) % 256;
    assert gpb[..][0x0E..0x22] == mid[0x0E..0x22];
    assert gpb[0x22..end] == s[0 := 0][2 := PatchHi(s[2])][3 := PatchLo(s[2], s[3])];
    PatchVerifies(s);
  }

  // ---------------------------------------------------------------- TCP sequence numbers

  /** The value of a four-byte number in network order. */
  function Be32(s: seq<Byte>): nat
    requires |s| == 4
  {
    var hi: int, lo: int := Be16(s[0], s[1]), Be16(s[2], s[3]);
    0x1_0000 * hi + lo
  }

  /** The accumulator before byte `i` is handled, counting down from 3: what is still to be added. */
  function Carry(s: seq<Byte>, inc: Word, i: nat): Word
    requires |s| == 4 && i <= 4
    decreases 4 - i
  {
    if i == 4 then inc else Added(s, inc, i) / 0x100
  }

  /** The accumulator after byte `i` was added, in 16 bits. */
  function Added(s: seq<Byte>, inc: Word, i: nat): Word
    requires |s| == 4 && i < 4
    decreases 4 - i, 0
  {
    var c: int := Carry(s, inc, i + 1);
    (s[i] + c) % 0x1_0000
  }

  lemma CarryTurn(s: seq<Byte>, inc: Word, i: nat)
    requires |s| == 4 && 1 <= i <= 4
    ensures Carry(s, inc, 4) == inc && Added(s, inc, i - 1) == (s[i - 1] + (Carry(s, inc, i) as int)) % 0x1_0000
    ensures Carry(s, inc, i - 1) == Added(s, inc, i - 1) / 0x100
  {
  }

  function Sum32(s: seq<Byte>, inc: Word): seq<Byte>
    requires |s| == 4
  {
    [Lo(Added(s, inc, 0)), Lo(Added(s, inc, 1)), Lo(Added(s, inc, 2)), Lo(Added(s, inc, 3))]
  }

  /** The bytes are the 32-bit sum exactly when the first addition does not leave 16 bits. */
  lemma SumIsRight(s: seq<Byte>, inc: Word)
    requires |s| == 4
    ensures Be32(Sum32(s, inc)) == (Be32(s) + inc) % 0x1_0000_0000 <==> inc + s[3] < 0x1_0000
  {
    hide Be16;
    AddedValues(s, inc);
    var t := seq(4, i requires 0 <= i < 4 => Added(s, inc, i));
    FourDigits(s, inc, t[0], t[1], t[2], t[3]);
  }

  /** An increment that leaves 16 bits with the first byte: the sum comes out too small. */
  lemma LostIncrement()
    ensures var s := [0, 0, 0, 1];
            Be32(Sum32(s, 0xFFFF)) != (Be32(s) + 0xFFFF) % 0x1_0000_0000
  {
    SumIsRight([0, 0, 0, 1], 0xFFFF);
  }

  lemma AddedValues(s: seq<Byte>, inc: Word)
    requires |s| == 4
    ensures Added(s, inc, 3) == (inc + s[3]) % 0x1_0000
    ensures Added(s, inc, 2) == Added(s, inc, 3) / 0x100 + s[2]
    ensures Added(s, inc, 1) == Added(s, inc, 2) / 0x100 + s[1]
    ensures Added(s, inc, 0) == Added(s, inc, 1) / 0x100 + s[0]
  {
  }

  lemma Be32Is(a: Byte, b: Byte, c: Byte, d: Byte)
    ensures Be32([a, b, c, d]) == 0x100_0000 * (a as int) + 0x1_0000 * (b as int) + 0x100 * (c as int) + d
  {
  }

  lemma FourDigits(s: seq<Byte>, inc: Word, t0: int, t1: int, t2: int, t3: int)
    requires |s| == 4 && t3 == (inc + s[3]) % 0x1_0000
    requires t2 == t3 / 0x100 + s[2] && t1 == t2 / 0x100 + s[1] && t0 == t1 / 0x100 + s[0]
    ensures Be32([t0 % 0x100, t1 % 0x100, t2 % 0x100, t3 % 0x100]) == (Be32(s) + inc) % 0x1_0000_0000 <==>
            inc + s[3] < 0x1_0000
  {
    hide Be32;
    Be32Is(t0 % 0x100, t1 % 0x100, t2 % 0x100, t3 % 0x100);
    assert s == [s[0], s[1], s[2], s[3]];
    Be32Is(s[0], s[1], s[2], s[3]);
    var first: int := inc + s[3];
    var lost := if first < 0x1_0000 then 0 else 0x1_0000;
    var got := Be32([t0 % 0x100, t1 % 0x100, t2 % 0x100, t3 % 0x100]);
    assert got + 0x1_0000_0000 * (t0 / 0x100) == Be32(s) + inc - lost;
    assert 0 <= got < 0x1_0000_0000;
    Wraps(Be32(s) + inc, got, t0 / 0x100, lost);
  }

  lemma Wraps(x: int, got: int, q: int, lost: int)
    requires got + 0x1_0000_0000 * q == x - lost && 0 <= got < 0x1_0000_0000 && (lost == 0 || lost == 0x1_0000)
    ensures x % 0x1_0000_0000 == got <==> lost == 0
  {
    if lost != 0 {
      assert x == got + lost + 0x1_0000_0000 * q;
    }
  }

  /** One byte of step_seq; returns what is left of the accumulator. */
  method StepByte(gpb: array<Byte>, i: nat, rel: Word, cpSeq: bool) returns (rest: Word)
    requires gpb.Length >= 0x2E && 1 <= i <= 4
    modifies gpb
    ensures var sum := (old(gpb[0x26 + i - 1]) + (rel as int)) % 0x1_0000;
      gpb[0x2A + i - 1] == Lo(sum) && rest == sum / 0x100
    ensures gpb[0x26 + i - 1] == if cpSeq then old(gpb[0x2A + i - 1]) else 0
    ensures forall k :: 0 <= k < gpb.Length && k != 0x26 + i - 1 && k != 0x2A + i - 1 ==> gpb[k] == old(gpb[k])
  {
    var sum: int := gpb[TCP_SEQ as int + i - 1];
    rest := (sum + rel) % 0x1_0000;
    var tseq := gpb[TCP_SEQACK as int + i - 1];
    gpb[TCP_SEQACK as int + i - 1] := Lo(rest);
    gpb[TCP_SEQ as int + i - 1] := if cpSeq then tseq else 0;
    rest := rest / 0x100;
  }

  /** step_seq: the acknowledgement number becomes the sequence number plus `relAckNum`, added byte by
      byte in a 16-bit accumulator: right exactly when the lowest byte's addition stays in 16 bits, as
      every increment up to 65280 does. The sequence number becomes the old acknowledgement, or 0. */
  method StepSeq(gpb: array<Byte>, relAckNum: Word, cpSeq: bool)
    requires gpb.Length >= 0x2E
    modifies gpb
    ensures Be32(gpb[0x2A..0x2E]) == (old(Be32(gpb[0x26..0x2A])) + relAckNum) % 0x1_0000_0000 <==>
            relAckNum + old(gpb[0x29]) < 0x1_0000
    ensures gpb[0x26..0x2A] == if cpSeq then old(gpb[0x2A..0x2E]) else [0, 0, 0, 0]
    ensures forall k :: 0 <= k < 0x26 || 0x2E <= k < gpb.Length ==> gpb[k] == old(gpb[k])
  {
    hide Be32, Carry, Added;
    ghost var s: seq<Byte> := gpb[0x26..0x2A];
    ghost var acks: seq<Byte> := gpb[0x2A..0x2E];
    var rel := relAckNum;
    var i: nat := 4;
    CarryTurn(s, relAckNum, 4);
    while i > 0
      invariant 0 <= i <= 4 && rel == Carry(s, relAckNum, i)
      invariant forall k :: 0x26 <= k < 0x2A ==>
        gpb[k] == if k < 0x26 + i then s[k - 0x26] else if cpSeq then acks[k - 0x26] else 0
      invariant forall k :: 0x2A <= k < 0x2E ==>
        gpb[k] == if k < 0x2A + i then acks[k - 0x2A] else Lo(Added(s, relAckNum, k - 0x2A))
      invariant forall k :: 0 <= k < 0x26 || 0x2E <= k < gpb.Length ==> gpb[k] == old(gpb[k])
    {
      CarryTurn(s, relAckNum, i);
      rel := StepByte(gpb, i, rel, cpSeq);
      i := i - 1;
    }
    assert gpb[0x2A..0x2E] == [gpb[0x2A], gpb[0x2B], gpb[0x2C], gpb[0x2D]] == Sum32(s, relAckNum);
    SumIsRight(s, relAckNum);
  }

  /** make_tcphead: ports swapped, sequence numbers stepped, and a checksum field zeroed for the sum to
      come. */
  method MakeTcphead(gpb: array<Byte>, relAckNum: Word, cpSeq: bool)
    requires gpb.Length >= 0x34
    modifies gpb
    ensures gpb[0x22..0x24] == old(gpb[0x24..0x26]) && gpb[0x24..0x26] == old(gpb[0x22..0x24])
    ensures Be32(gpb[0x2A..0x2E]) == (old(Be32(gpb[0x26..0x2A])) + relAckNum) % 0x1_0000_0000 <==>
            relAckNum + old(gpb[0x29]) < 0x1_0000
    ensures gpb[0x26..0x2A] == if cpSeq then old(gpb[0x2A..0x2E]) else [0, 0, 0, 0]
    ensures gpb[0x2E] == 0x50 && gpb[0x32] == gpb[0x33] == 0
    ensures forall k :: 0 <= k < 0x22 || 0x2F <= k < 0x32 || 0x34 <= k < gpb.Length ==> gpb[k] == old(gpb[k])
  {
    hide Be32;
    ghost var was: seq<Byte> := gpb[..];
    SwapPorts(gpb);
    Holds(gpb, 0x26, was[0x26..0x2A]);
    Holds(gpb, 0x2A, was[0x2A..0x2E]);
    StepSeq(gpb, relAckNum, cpSeq);
    ghost var stepped: seq<Byte> := gpb[..];
    gpb[TCP_CHECKSUM] := 0;
    gpb[TCP_CHECKSUM + 1] := 0;
    gpb[TCP_HEADER_LEN] := 0x50;
    Holds(gpb, 0x22, was[0x24..0x26]);
    Holds(gpb, 0x24, was[0x22..0x24]);
    Holds(gpb, 0x26, stepped[0x26..0x2A]);
    Holds(gpb, 0x2A, stepped[0x2A..0x2E]);
  }

  method SwapPorts(gpb: array<Byte>)
    requires gpb.Length >= 0x34
    modifies gpb
    ensures gpb[0x22] == old(gpb[0x24]) && gpb[0x23] == old(gpb[0x25])
    ensures gpb[0x24] == old(gpb[0x22]) && gpb[0x25] == old(gpb[0x23])
    ensures forall k :: 0 <= k < 0x22 || 0x26 <= k < gpb.Length ==> gpb[k] == old(gpb[k])
  {
    var i := gpb[DST_PORT];
    gpb[DST_PORT] := gpb[SRC_PORT];
    gpb[SRC_PORT] := i;
    var j := gpb[DST_PORT + 1];
    gpb[DST_PORT + 1] := gpb[SRC_PORT + 1];
    gpb[SRC_PORT + 1] := j;
  }
}
