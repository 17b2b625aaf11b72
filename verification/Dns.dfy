/** The DNS client: a query built in the packet buffer, a reply searched for an address. */
module Dns {
  import opened Bytes
  import opened Checksum
  import opened DnsMessage
  import opened TcpIp

  const DNSCLIENT_SRC_PORT_H: Byte := 0xE0
  const NAME_P: nat := 0x36  // UDP_DATA + 12

  /** What checkForDnsAnswer asks of a packet before it looks at the answers. */
  predicate Accepted(msg: seq<Byte>, tid: Byte) {
    && |msg| >= 70
    && msg[SRC_PORT + 1] == 53
    && msg[DST_PORT] == DNSCLIENT_SRC_PORT_H
    && msg[DST_PORT + 1] == tid
    && msg[UDP_DATA as nat + 1] == tid
    && msg[UDP_DATA as nat + 3] % 16 == 0
  }

  /** The length of the label at `at`. */
  function LabelAt(name: seq<Byte>, at: nat): (d: nat)
    requires at <= |name|
    ensures at + d <= |name| && (at + d < |name| ==> name[at + d] == DOT)
    ensures forall k :: at <= k < at + d ==> name[k] != DOT
  {
    var s, d := name[at..], FirstDot(name[at..]);
    assert forall k :: at <= k < at + d ==> name[k] == s[..d][k - at];
    d
  }

  /** From `o` on, `q` is the encoding of what is left of the name from `at` on. */
  predicate Lies(name: seq<Byte>, at: nat, q: seq<Byte>, o: nat) {
    at <= |name| && o <= |q| && q[o..] == QName(Labels(name[at..]))
  }

  /** What the encoding of a name holds behind its first label. */
  function Behind(s: seq<Byte>): (q: seq<Byte>)
    ensures q != []
  {
    if FirstDot(s) < |s| then QName(Labels(s[FirstDot(s) + 1..])) else [0]
  }

  /** How one label lies in the encoded name `q`: its length in a byte, that many of its last bytes, then
      the rest or the root. */
  lemma LabelNext(name: seq<Byte>, at: nat, q: seq<Byte>, o: nat)
    requires Lies(name, at, q, o)
    ensures var d := LabelAt(name, at);
            var n := InAByte(d);
            && o + n as nat + 1 < |q| && q[o] == n
            && (forall k :: o < k <= o + n as nat ==> q[k] == name[at + d - n as nat + (k - o - 1)])
            && (if at + d < |name| then Lies(name, at + d + 1, q, o + n as nat + 1)
                else |q| == o + n as nat + 2 && q[o + n as nat + 1] == 0)
  {
    hide QName, Labels, FirstDot, LabelAt, Behind, EncodedLabel, InAByte;
    var s, d := name[at..], LabelAt(name, at);
    var front := EncodedLabel(s[..d]);
    FrontLies(name, at, q, o);
    LabelBytes(name, at);
    BehindIs(name, at);
    DropFront(q, o, front, Behind(s));
    forall k | o < k <= o + InAByte(d) as nat
      ensures q[k] == name[at + d - InAByte(d) as nat + (k - o - 1)]
    {
      assert q[k] == front[k - o];
    }
  }

  lemma FrontLies(name: seq<Byte>, at: nat, q: seq<Byte>, o: nat)
    requires Lies(name, at, q, o)
    ensures q[o..] == EncodedLabel(name[at..][..LabelAt(name, at)]) + Behind(name[at..])
  {
    hide QName, Labels, FirstDot, Behind, EncodedLabel;
    NameFront(name[at..]);
  }

  lemma LabelBytes(name: seq<Byte>, at: nat)
    requires at <= |name|
    ensures var d := LabelAt(name, at);
            var n, front := InAByte(d) as nat, EncodedLabel(name[at..][..d]);
            && |front| == n + 1 && front[0] == n
            && forall j :: 1 <= j <= n ==> front[j] == name[at + d - n + (j - 1)]
  {
    hide LabelAt, InAByte;
    var d := LabelAt(name, at);
    var l := name[at..][..d];
    var c := Counted(l);
    forall j | 1 <= j <= |c| ensures EncodedLabel(l)[j] == name[at + d - |c| + (j - 1)] {
      assert EncodedLabel(l)[j] == c[j - 1] == l[d - |c| + (j - 1)];
    }
  }

  lemma BehindIs(name: seq<Byte>, at: nat)
    requires at <= |name|
    ensures var d := LabelAt(name, at);
            if at + d < |name| then Behind(name[at..]) == QName(Labels(name[at + d + 1..]))
            else Behind(name[at..]) == [0]
  {
    hide QName, Labels, FirstDot;
    var s, d := name[at..], LabelAt(name, at);
    if at + d < |name| {
      assert s[d + 1..] == name[at + d + 1..];
    }
  }

  lemma NameFront(s: seq<Byte>)
    ensures QName(Labels(s)) == EncodedLabel(s[..FirstDot(s)]) + Behind(s)
  {
    hide Labels, FirstDot, QName, EncodedLabel, Behind;
    var d := FirstDot(s);
    assert s[0..] == s;
    if d < |s| {
      LabelsFront(s);
      QNameFront(s[..d], Labels(s[d + 1..]));
      MoreBehind(s);
    } else {
      LastLabel(s);
    }
  }

  lemma MoreBehind(s: seq<Byte>)
    requires FirstDot(s) < |s|
    ensures Behind(s) == QName(Labels(s[FirstDot(s) + 1..]))
  {
    hide Labels, FirstDot, QName;
  }

  lemma LastLabel(s: seq<Byte>)
    requires FirstDot(s) == |s|
    ensures QName(Labels(s)) == EncodedLabel(s[..FirstDot(s)]) + Behind(s)
  {
    hide Labels, FirstDot, QName, EncodedLabel;
    OneLabel(s);
    assert s[..FirstDot(s)] == s;
    QNameFront(s, []);
  }

  lemma CountOne(n: nat)
    ensures InAByte(InAByte(n) as nat + 1) == InAByte(n + 1)
    ensures InAByte(n + 1) == 0 || InAByte(n + 1) == InAByte(n) + 1
    ensures InAByte(0) == 0
  {
  }

  /** The buffer holds the encoded name `q` up to `p`. */
  predicate Agrees(buf: seq<Byte>, q: seq<Byte>, p: nat) {
    NAME_P <= p <= |buf| && p - NAME_P <= |q| && forall k :: NAME_P <= k < p ==> buf[k] == q[k - NAME_P]
  }

  /** The labels up to `at` have been put, up to `p`, and the rest of `q` encodes the rest of the name. */
  predicate Putting(buf: seq<Byte>, name: seq<Byte>, at: nat, q: seq<Byte>, p: nat) {
    && Agrees(buf, q, p) && p <= NAME_P + at && p - NAME_P < |q|
    && if at <= |name| then Lies(name, at, q, p - NAME_P)
       else at == |name| + 1 && |q| == p - NAME_P + 1 && q[p - NAME_P] == 0
  }

  /** `now` differs from `was` by the label at `at`: its length in a byte at `p`, its last bytes behind. */
  predicate LabelPut(was: seq<Byte>, now: seq<Byte>, name: seq<Byte>, at: nat, p: nat)
    requires at <= |name|
  {
    var d := LabelAt(name, at);
    var n := InAByte(d);
    && |now| == |was| && p + d < |now| && now[p] == n
    && (forall k :: p < k <= p + n as nat ==> now[k] == name[at + d - n as nat + (k - p - 1)])
    && Kept(was, now, p, p + d)
  }

  /** Nothing has changed outside `lo` to `hi`. */
  predicate Kept(was: seq<Byte>, now: seq<Byte>, lo: nat, hi: nat) {
    |was| == |now| && forall k :: 0 <= k < |now| && !(lo <= k <= hi) ==> now[k] == was[k]
  }

  lemma PuttingStarts(buf: seq<Byte>, name: seq<Byte>)
    requires NAME_P <= |buf|
    ensures Putting(buf, name, 0, QName(Labels(name)), NAME_P) && Kept(buf, buf, NAME_P, NAME_P + |name|)
  {
    hide QName, Labels;
    QNameSize(name);
    assert name[0..] == name && QName(Labels(name))[0..] == QName(Labels(name));
  }

  lemma PuttingOn(start: seq<Byte>, was: seq<Byte>, now: seq<Byte>, name: seq<Byte>, at: nat, q: seq<Byte>, p: nat)
    requires at <= |name| && Putting(was, name, at, q, p) && LabelPut(was, now, name, at, p)
    requires Kept(start, was, NAME_P, NAME_P + |name|)
    ensures Kept(start, now, NAME_P, NAME_P + |name|)
    ensures var d := LabelAt(name, at); Putting(now, name, at + d + 1, q, p + InAByte(d) as nat + 1)
  {
    LabelNext(name, at, q, p - NAME_P);
    hide Lies, LabelAt, InAByte;
    var d := LabelAt(name, at);
    var n := InAByte(d) as nat;
    forall k | NAME_P <= k < p + n + 1 ensures now[k] == q[k - NAME_P] {
      if k > p {
        assert q[k - NAME_P] == name[at + d - n + (k - p - 1)];
      }
    }
  }

  lemma PuttingEnds(buf: seq<Byte>, name: seq<Byte>, q: seq<Byte>, p: nat)
    requires Putting(buf, name, |name| + 1, q, p)
    ensures p == NAME_P + |q| - 1
  {
  }

  /** The root label completes it. */
  lemma RootPut(name: seq<Byte>, q: seq<Byte>, p: nat, was: seq<Byte>, now: seq<Byte>)
    requires Putting(was, name, |name| + 1, q, p) && |was| == |now| && p < |now| && now[p] == 0
    requires forall k :: NAME_P <= k < p ==> now[k] == was[k]
    ensures p == NAME_P + |q| - 1 && Agrees(now, q, NAME_P + |q|)
  {
  }

  lemma QueryLies(msg: seq<Byte>, name: seq<Byte>, tid: Byte)
    requires var e := NAME_P + |QName(Labels(name))|;
             e + 4 <= |msg| && msg[e] == 0 && msg[e + 1] == 1 && msg[e + 2] == 0 && msg[e + 3] == 1
    requires Agrees(msg, QName(Labels(name)), NAME_P + |QName(Labels(name))|)
    requires msg[UDP_DATA] == InAByte(|QName(Labels(name))| + 16) && msg[UDP_DATA as nat + 1] == tid
    requires msg[UDP_DATA as nat + 2] == 1 && msg[UDP_DATA as nat + 5] == 1
    requires forall k :: UDP_DATA as nat <= k < NAME_P && k - UDP_DATA as nat !in {0, 1, 2, 5} ==> msg[k] == 0
    ensures At(msg, UDP_DATA, Query(name, tid))
  {
    hide QName, Labels;
    var q := QName(Labels(name));
    var e := NAME_P + |q|;
    assert msg[UDP_DATA as nat..NAME_P] == [InAByte(|q| + 16), tid, 1, 0, 0, 1, 0, 0, 0, 0, 0, 0];
    assert msg[NAME_P..e] == q;
    assert msg[e..e + 4] == [0, 1, 0, 1];
    assert msg[UDP_DATA as nat..e + 4] == msg[UDP_DATA as nat..NAME_P] + msg[NAME_P..e] + msg[e..e + 4];
  }

  /** A reply to our port that repeats our ID and question, reports no error and holds an address is
      accepted, and the address taken from it is the first one. */
  lemma ReplyAnswers(msg: seq<Byte>, name: seq<Byte>, tid: Byte, rs: seq<Record>)
    requires IsReply(msg, UDP_DATA, name, tid, rs) && |Query(name, tid)| < 0x100 && FirstAddress(rs).Some?
    requires msg[0x23] == 53 && msg[0x24] == 0xE0 && msg[0x25] == tid && msg[0x2D] % 16 == 0
    ensures Accepted(msg, tid)
    ensures Scan(msg, UDP_DATA as nat + msg[UDP_DATA] as nat) == FirstAddress(rs)
  {
    hide IsReply, Query, Scan;
    ReplySize(msg, UDP_DATA, name, tid, rs);
    LandsOnAnswers(msg, UDP_DATA, name, tid, rs);
    AnswerFound(msg, UDP_DATA, name, tid, rs);
  }

  /** The reply to another request says so in its ID: exactly a reply that repeats `tid` carries it there. */
  lemma ReplyNames(msg: seq<Byte>, name: seq<Byte>, asked: Byte, rs: seq<Record>)
    requires IsReply(msg, 0x2A, name, asked, rs)
    ensures |msg| > 0x2B && msg[0x2B] == asked
  {
    hide IsReply, Query, Scan;
    ReplySize(msg, 0x2A, name, asked, rs);
    LandsOnAnswers(msg, 0x2A, name, asked, rs);
  }

  lemma ReplySize(msg: seq<Byte>, at: nat, name: seq<Byte>, tid: Byte, rs: seq<Record>)
    requires IsReply(msg, at, name, tid, rs)
    ensures |msg| >= at + 17 && (FirstAddress(rs).Some? ==> |msg| >= at + 29)
  {
    hide At, EncodedRecords, GoodRecords, QName;
    QNameSize(name);
    RecordsSize(rs);
  }

  lemma SamePort(hi: Byte, lo: Byte, hi': Byte, lo': Byte)
    requires Be16(hi, lo) == Be16(hi', lo')
    ensures hi == hi' && lo == lo'
  {
  }

  /** A UDP datagram from us to port 53 of the name server, through the gateway at the first of `macs`, from the
      port that names request `tid`. */
  predicate AddressedTo(msg: seq<Byte>, macs: (seq<Byte>, seq<Byte>), myip: seq<Byte>, dnsip: seq<Byte>, tid: Byte)
    requires dnsip != []
  {
    && |msg| >= UDP_DATA as nat
    && msg[0..6] == (if 0xE0 <= dnsip[0] <= 0xEF then [0xFF, 0xFF, 0xFF, 0xFF, 0xFF, 0xFF] else macs.0)
    && msg[6..12] == macs.1
    && msg[0x0C] == 8 && msg[0x0D] == 0 && msg[0x0E] == 0x45 && msg[0x17] == 17
    && msg[0x1A..0x1E] == myip && msg[0x1E..0x22] == dnsip
    && msg[SRC_PORT] == DNSCLIENT_SRC_PORT_H && msg[SRC_PORT + 1] == tid
    && msg[DST_PORT] == 0 && msg[DST_PORT + 1] == 53
  }

  lemma AddressKept(was: seq<Byte>, now: seq<Byte>, macs: (seq<Byte>, seq<Byte>), myip: seq<Byte>, dnsip: seq<Byte>,
      tid: Byte)
    requires dnsip != [] && AddressedTo(was, macs, myip, dnsip, tid) && |was| == |now|
    requires forall k :: 0 <= k < 0x0F || k == 0x17 || 0x1A <= k < 0x26 ==> now[k] == was[k]
    ensures AddressedTo(now, macs, myip, dnsip, tid)
  {
    assert now[0..6] == was[0..6] && now[6..12] == was[6..12];
    assert now[0x1A..0x1E] == was[0x1A..0x1E] && now[0x1E..0x22] == was[0x1E..0x22];
  }

  lemma QueryKept(was: seq<Byte>, now: seq<Byte>, query: seq<Byte>)
    requires At(was, UDP_DATA, query) && |was| == |now|
    requires forall k :: UDP_DATA as nat <= k < |now| ==> now[k] == was[k]
    ensures At(now, UDP_DATA, query)
  {
    assert now[UDP_DATA as nat..UDP_DATA as nat + |query|] == was[UDP_DATA as nat..UDP_DATA as nat + |query|];
  }

  class Client {
    const gPB: array<Byte>
    const servermac: seq<Byte>
    const mymac: seq<Byte>
    const myip: seq<Byte>
    var dnstid: Byte
    var dnsip: seq<Byte>
    var hisip: seq<Byte>

    constructor (buffer: array<Byte>, servermac: seq<Byte>, mymac: seq<Byte>, myip: seq<Byte>)
      ensures gPB == buffer && this.servermac == servermac && this.mymac == mymac && this.myip == myip
      ensures dnstid == 0 && dnsip == [0, 0, 0, 0] && hisip == [0, 0, 0, 0]
    {
      gPB := buffer;
      this.servermac, this.mymac, this.myip := servermac, mymac, myip;
      dnstid := 0;
      dnsip := [0, 0, 0, 0];
      hisip := [0, 0, 0, 0];
    }

    predicate Valid()
      reads this
    {
      |servermac| == |mymac| == 6 && |myip| == |dnsip| == 4
    }

    /** dnsRequest, for a name without NUL: a datagram to port 53 of the name server, from a port that
        names the request, whose headers verify and which holds the query. */
    method DnsRequest(name: seq<Byte>)
      requires Valid() && NulFree(name)
      requires UDP_DATA as nat + |name| + 18 <= gPB.Length
      modifies `dnstid, `dnsip, gPB
      ensures Valid() && dnstid == (old(dnstid) + 1) % 0x100
      ensures dnsip == if old(dnsip)[0] == 0 then [8, 8, 8, 8] else old(dnsip)
      ensures At(gPB[..], UDP_DATA, Query(name, dnstid))
      ensures Checks(Kind.Plain, gPB[..], 0x0E, 0x22)
      ensures Checks(Udp, gPB[..], 0x1A, UDP_DATA as nat + gPB[UDP_DATA] as nat)
      ensures AddressedTo(gPB[..], (servermac, mymac), myip, dnsip, dnstid)
      ensures gPB[0..6] == if 0xE0 <= dnsip[0] <= 0xEF then [0xFF, 0xFF, 0xFF, 0xFF, 0xFF, 0xFF] else servermac
      ensures gPB[6..12] == mymac && gPB[0x0C] == 8 && gPB[0x0D] == 0 && gPB[0x0E] == 0x45 && gPB[0x17] == 17
      ensures gPB[0x1A..0x1E] == myip && gPB[0x1E..0x22] == dnsip
      ensures gPB[0x22] == 0xE0 && gPB[0x23] == dnstid && gPB[0x24] == 0 && gPB[0x25] == 53
      ensures gPB[0x10] as int * 0x100 + gPB[0x11] as int == 28 + gPB[0x2A] as int
      ensures gPB[0x26] as int * 0x100 + gPB[0x27] as int == 8 + gPB[0x2A] as int
    {
      hide At, Query, Checks, NulFree;
      dnstid := (dnstid + 1) % 0x100;
      if dnsip[0] == 0 {
        dnsip := [8, 8, 8, 8];
      }
      Address();
      ghost var prepared: seq<Byte> := gPB[..];
      var i := FillQuery(name);
      ghost var filled: seq<Byte> := gPB[..];
      AddressKept(prepared, filled, (servermac, mymac), myip, dnsip, dnstid);
      Transmit(i, Query(name, dnstid));
    }

    /** udpTransmit keeps the addresses and the message. */
    method Transmit(i: Byte, ghost query: seq<Byte>)
      requires UDP_DATA as nat < gPB.Length && UDP_DATA as nat + i as nat <= gPB.Length && At(gPB[..], UDP_DATA, query)
      requires dnsip != [] && AddressedTo(gPB[..], (servermac, mymac), myip, dnsip, dnstid)
      requires gPB[UDP_CHECKSUM] == gPB[UDP_CHECKSUM + 1] == 0
      modifies gPB
      ensures At(gPB[..], UDP_DATA, query) && AddressedTo(gPB[..], (servermac, mymac), myip, dnsip, dnstid)
      ensures Checks(Kind.Plain, gPB[..], 0x0E, 0x22) && Checks(Udp, gPB[..], 0x1A, UDP_DATA as nat + i as nat)
      ensures gPB[UDP_DATA] == old(gPB[UDP_DATA])
      ensures gPB[0x10] as int * 0x100 + gPB[0x11] as int == 28 + i as int
      ensures gPB[0x26] as int * 0x100 + gPB[0x27] as int == 8 + i as int
    {
      hide Checks, At, AddressedTo;
      ghost var filled: seq<Byte> := gPB[..];
      UdpTransmit(gPB, i);
      AddressKept(filled, gPB[..], (servermac, mymac), myip, dnsip, dnstid);
      QueryKept(filled, gPB[..], query);
    }

    /** udpPrepare for the name server, from a port that names the request */
    method Address()
      requires Valid() && UDP_DATA as nat <= gPB.Length
      modifies gPB
      ensures AddressedTo(gPB[..], (servermac, mymac), myip, dnsip, dnstid)
      ensures gPB[UDP_CHECKSUM] == gPB[UDP_CHECKSUM + 1] == 0
      ensures forall k :: UDP_DATA as nat <= k < gPB.Length ==> gPB[k] == old(gPB[k])
    {
      UdpPrepare(gPB, servermac, mymac, myip, Be16(DNSCLIENT_SRC_PORT_H, dnstid), dnsip, 53);
      SamePort(gPB[SRC_PORT], gPB[SRC_PORT + 1], DNSCLIENT_SRC_PORT_H, dnstid);
      SamePort(gPB[DST_PORT], gPB[DST_PORT + 1], 0, 53);
    }

    /** The message itself; returns the length handed on to udpTransmit. A label that is too long for its
        length byte is written over itself, inside the room the name would take. */
    method FillQuery(name: seq<Byte>) returns (i: Byte)
      requires NulFree(name) && UDP_DATA as nat + |name| + 18 <= gPB.Length
      modifies gPB
      ensures |Query(name, dnstid)| <= |name| + 18 && At(gPB[..], UDP_DATA, Query(name, dnstid))
      ensures i == gPB[UDP_DATA] == InAByte(|Query(name, dnstid)|)
      ensures forall k :: 0 <= k < gPB.Length && !(UDP_DATA as nat <= k < UDP_DATA as nat + |name| + 18) ==>
        gPB[k] == old(gPB[k])
    {
      QNameSize(name);
      hide QName, Labels, At, Agrees, InAByte, Putting;
      Clear();
      var p := PutName(name);
      ghost var named: seq<Byte> := gPB[..];
      PuttingEnds(named, name, QName(Labels(name)), p);
      PutTail(p);
      p := p + 5;
      i := InAByte(p - UDP_DATA as nat);
      PutHead(i);
      RootPut(name, QName(Labels(name)), p - 5, named, gPB[..]);
      QueryLies(gPB[..], name, dnstid);
    }

    /** memset of the message header */
    method Clear()
      requires NAME_P <= gPB.Length
      modifies gPB
      ensures forall k :: 0 <= k < gPB.Length ==>
        gPB[k] == if UDP_DATA as nat <= k < NAME_P then 0 else old(gPB[k])
    {
      for n := 0 to 12
        invariant forall k :: 0 <= k < gPB.Length ==>
          gPB[k] == if UDP_DATA as nat <= k < UDP_DATA as nat + n then 0 else old(gPB[k])
      {
        gPB[UDP_DATA as nat + n] := 0;
      }
    }

    /** The root label, type A and class IN */
    method PutTail(p: nat)
      requires p + 5 <= gPB.Length
      modifies gPB
      ensures gPB[p] == 0 && gPB[p + 1] == 0 && gPB[p + 2] == 1 && gPB[p + 3] == 0 && gPB[p + 4] == 1
      ensures forall k :: 0 <= k < gPB.Length && !(p <= k < p + 5) ==> gPB[k] == old(gPB[k])
    {
      gPB[p] := 0;
      gPB[p + 1] := 0;
      gPB[p + 2] := 1;
      gPB[p + 3] := 0;
      gPB[p + 4] := 1;
    }

    /** The length and the counter in the ID, standard query, one question */
    method PutHead(i: Byte)
      requires NAME_P <= gPB.Length
      modifies gPB
      ensures gPB[0x2A] == i && gPB[0x2B] == dnstid && gPB[0x2C] == 1 && gPB[0x2F] == 1
      ensures forall k :: 0 <= k < gPB.Length && k !in {0x2A, 0x2B, 0x2C, 0x2F} ==> gPB[k] == old(gPB[k])
    {
      gPB[UDP_DATA] := i;
      gPB[UDP_DATA as nat + 1] := dnstid;
      gPB[UDP_DATA as nat + 2] := 1;
      gPB[UDP_DATA as nat + 5] := 1;
    }

    /** The loop over the labels, all but the root's. */
    method PutName(name: seq<Byte>) returns (p: nat)
      requires NulFree(name) && NAME_P + |name| + 1 <= gPB.Length
      modifies gPB
      ensures Putting(gPB[..], name, |name| + 1, QName(Labels(name)), p)
      ensures Kept(old(gPB[..]), gPB[..], NAME_P, NAME_P + |name|)
    {
      hide *;
      ghost var start, q := gPB[..], QName(Labels(name));
      p := NAME_P;
      var at := 0;
      PuttingStarts(start, name);
      var more := true;
      while more
        invariant NAME_P <= p <= NAME_P + at && (more <==> at <= |name|) && (!more ==> at == |name| + 1)
        invariant Putting(gPB[..], name, at, q, p) && Kept(start, gPB[..], NAME_P, NAME_P + |name|)
        decreases |name| + 1 - at
      {
        ghost var was := gPB[..];
        var n, next := PutLabel(name, at, p);
        PuttingOn(start, was, gPB[..], name, at, q, p);
        at := next;
        p := p + 1 + n as nat;
        more := at <= |name|;
      }
    }

    /** One label: its bytes up to a dot or the end, then its length in front. The index is a byte too: of
        a label of 256 bytes or more, the last ones stay. */
    method PutLabel(name: seq<Byte>, at: nat, p: nat) returns (n: Byte, next: nat)
      requires at <= |name| && NulFree(name) && p + LabelAt(name, at) < gPB.Length
      modifies gPB
      ensures var d := LabelAt(name, at);
        n == InAByte(d) && next == at + d + 1 && LabelPut(old(gPB[..]), gPB[..], name, at, p)
    {
      n, next := CopyLabel(name, at, p);
      hide LabelAt, InAByte;
      gPB[p] := n;
    }

    method CopyLabel(name: seq<Byte>, at: nat, p: nat) returns (n: Byte, next: nat)
      requires at <= |name| && NulFree(name) && p + LabelAt(name, at) < gPB.Length
      modifies gPB
      ensures n == InAByte(LabelAt(name, at)) && next == at + LabelAt(name, at) + 1
      ensures forall k :: p < k <= p + n as nat ==> gPB[k] == name[next - 1 - n as nat + (k - p - 1)]
      ensures forall k :: 0 <= k < gPB.Length && !(p <= k <= p + LabelAt(name, at)) ==> gPB[k] == old(gPB[k])
    {
      hide LabelAt, InAByte;
      n := 0;
      next := at;
      ghost var d := LabelAt(name, at);
      CountOne(0);
      while true
        invariant at <= next <= at + d && n == InAByte(next - at)
        invariant forall k :: p < k <= p + n as nat ==> gPB[k] == name[next - n as nat + (k - p - 1)]
        invariant forall k :: 0 <= k < gPB.Length && !(p <= k <= p + d) ==> gPB[k] == old(gPB[k])
        decreases at + d - next
      {
        var c: Byte := if next < |name| then name[next] else 0;
        next := next + 1;
        if c == DOT || c == 0 {
          break;
        }
        n := InAByte(n as nat + 1);
        CountOne(next - 1 - at);
        gPB[p + n as nat] := c;
      }
    }

    /** checkForDnsAnswer. A packet that does not come from port 53 (as far as its low byte tells), goes to
        another port than that of our last request, has another ID or reports an error leaves the address
        alone. What lies behind the buffer is read at most once, where no answer can follow. */
    method CheckForDnsAnswer(plen: nat)
      requires plen <= gPB.Length
      modifies `hisip
      ensures var msg := gPB[..plen];
              hisip ==
              if !Accepted(msg, dnstid) then old(hisip)
              else match Scan(msg, UDP_DATA as nat + msg[UDP_DATA] as nat) case Some(ip) => ip case None => old(hisip)
      ensures hisip != old(hisip) ==>
        && plen >= 70 && gPB[0x23] == 53 && gPB[0x24] == 0xE0 && gPB[0x25] == dnstid
        && gPB[0x2B] == dnstid && gPB[0x2D] % 16 == 0
      ensures forall name, asked, rs ::
        IsReply(gPB[..plen], 0x2A, name, asked, rs) && asked != dnstid ==> hisip == old(hisip)
    {
      forall name, asked, rs | IsReply(gPB[..plen], 0x2A, name, asked, rs)
        ensures plen > 0x2B && gPB[0x2B] == asked
      {
        ReplyNames(gPB[..plen], name, asked, rs);
      }
      hide IsReply;
      if plen < 70 {
        return;
      }
      if gPB[SRC_PORT + 1] != 53 || gPB[DST_PORT] != DNSCLIENT_SRC_PORT_H || gPB[DST_PORT + 1] != dnstid
         || gPB[UDP_DATA as nat + 1] != dnstid || gPB[UDP_DATA as nat + 3] % 16 != 0
      {
        return;
      }
      FindAnswer(plen, UDP_DATA as nat + gPB[UDP_DATA] as nat);
    }

    /** The loop over the records from `start` on. */
    method FindAnswer(plen: nat, start: nat)
      requires plen <= gPB.Length
      modifies `hisip
      ensures hisip == match Scan(gPB[..plen], start) case Some(ip) => ip case None => old(hisip)
    {
      hide *;
      var p := start;
      while true
        invariant hisip == old(hisip) && Scan(gPB[..plen], start) == Scan(gPB[..plen], p)
        decreases plen - p
      {
        var found, next := TakeRecord(plen, p);
        if next == 0 {
          if found.Some? {
            hisip := found.value;
          }
          return;
        }
        p := next;
      }
    }

    /** One turn of that loop: where the next begins, or 0 and what was found. */
    method TakeRecord(plen: nat, start: nat) returns (found: Option<seq<Byte>>, next: nat)
      requires plen <= gPB.Length
      ensures next == 0 ==> Scan(gPB[..plen], start) == found
      ensures next != 0 ==> start < next && start < plen && Scan(gPB[..plen], start) == Scan(gPB[..plen], next)
    {
      hide *;
      ScanTurn(gPB[..plen], start);
      var top: Byte := *;
      if start < gPB.Length {
        top := gPB[start];
      }
      var p := AfterOwner(plen, start, top);
      if p + 14 > plen {
        return None, 0;
      }
      if gPB[p + 1] == 1 && gPB[p + 9] == 4 {
        assert gPB[p + 10..p + 14] == gPB[..plen][p + 10..p + 14];
        return Some(gPB[p + 10..p + 14]), 0;
      }
      return None, p + gPB[p + 9] as nat + 10;
    }

    method AfterOwner(plen: nat, start: nat, top: Byte) returns (p: nat)
      requires plen <= gPB.Length && (start < gPB.Length ==> top == gPB[start])
      ensures p > start && (start < plen ==> p == OwnerEnd(gPB[..plen], start))
    {
      p := start;
      if top >= 0x40 {
        p := p + 2;
      } else {
        p := p + 1;
        while p < plen
          invariant start < p && PlainEnd(gPB[..plen], start + 1) == PlainEnd(gPB[..plen], p)
        {
          if gPB[p] == 0 {
            p := p + 1;
            break;
          }
          p := p + 1;
        }
      }
    }
  }
}
