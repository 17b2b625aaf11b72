/** send_file: blocks come in, bytes go out on the serial bus, the last one with EOI. */
module SendFile {
  import opened Bytes
  import opened TftpClient

  /** iobuf, its one-byte lookahead, and the log of put_byte calls. */
  datatype Out = Out(iobuf: seq<Byte>, atStart: bool, offset: nat, log: seq<(Byte, bool)>)

  predicate ValidOut(o: Out) {
    |o.iobuf| == BLKSIZE + 1 && (if o.atStart then o.offset == 0 else o.offset == 1)
  }

  /** A byte string as it goes out: every byte without EOI, except the last when the file ends there. */
  function Mark(s: seq<Byte>, eoi: bool): (r: seq<(Byte, bool)>)
    ensures |r| == |s|
    ensures forall k :: 0 <= k < |s| ==> r[k] == (s[k], eoi && k == |s| - 1)
  {
    seq(|s|, k requires 0 <= k < |s| => (s[k], eoi && k == |s| - 1))
  }

  /** What send_file does with one block from tftp_get_block; `eoi` when it was the last. */
  function Deliver(o: Out, block: seq<Byte>, eoi: bool): Out
    requires ValidOut(o) && |block| <= BLKSIZE
  {
    var iobuf := Overlay(o.iobuf, o.offset, block);
    var log :=
      if block != [] then
        o.log + Mark(iobuf[..|block| - 1 + o.offset], false)
              + (if eoi then [(iobuf[if o.atStart then |block| - 1 else |block|], true)] else [])
      else if eoi then o.log + [(iobuf[0], true)]
      else o.log;
    if eoi then o.(iobuf := iobuf, log := log)
    else Out(iobuf[0 := iobuf[BLKSIZE - 1 + o.offset]], false, 1, log)
  }

  predicate Full(block: seq<Byte>) {
    |block| == BLKSIZE
  }

  function Flatten(blocks: seq<seq<Byte>>): seq<Byte> {
    if blocks == [] then [] else Flatten(blocks[..|blocks| - 1]) + blocks[|blocks| - 1]
  }

  /** All of `blocks` delivered in order, the last one as the end when `eoi`. */
  function DeliverAll(o: Out, blocks: seq<seq<Byte>>, eoi: bool): (r: Out)
    requires ValidOut(o) && forall b :: b in blocks ==> |b| <= BLKSIZE
    ensures ValidOut(r)
    decreases |blocks|
  {
    if blocks == [] then o
    else
      var n := |blocks| - 1;
      assert blocks[n] in blocks;
      Deliver(DeliverAll(o, blocks[..n], false), blocks[n], eoi)
  }

  /** The output stands after the full blocks whose bytes are `got`: everything but the last byte
      has gone out without EOI, and that byte waits in iobuf[0]. */
  ghost predicate Holding(o: Out, got: seq<Byte>) {
    && ValidOut(o)
    && (if got == [] then o.atStart && o.log == []
        else !o.atStart && o.iobuf[0] == got[|got| - 1] && o.log == Mark(got[..|got| - 1], false))
  }

  lemma HoldMore(o: Out, got: seq<Byte>, block: seq<Byte>)
    requires Holding(o, got) && Full(block)
    ensures Holding(Deliver(o, block, false), got + block)
  {
    if got == [] {
      HoldFirst(o, block);
      assert got + block == block;
    } else {
      HoldNext(o, got, block);
    }
  }

  lemma HoldFirst(o: Out, block: seq<Byte>)
    requires Holding(o, []) && Full(block)
    ensures Holding(Deliver(o, block, false), block)
  {
    var iobuf := Overlay(o.iobuf, 0, block);
    assert iobuf[..BLKSIZE] == block;
    assert block[..|block| - 1] == iobuf[..BLKSIZE - 1];
  }

  lemma HoldNext(o: Out, got: seq<Byte>, block: seq<Byte>)
    requires Holding(o, got) && Full(block) && got != []
    ensures Holding(Deliver(o, block, false), got + block)
  {
    hide Mark;
    var iobuf, all := Overlay(o.iobuf, 1, block), got + block;
    assert iobuf[0] == o.iobuf[..1][0];
    assert iobuf[1..1 + BLKSIZE] == block;
    assert all[..|all| - 1] == got[..|got| - 1] + iobuf[..BLKSIZE];
    MarkJoin(got[..|got| - 1], iobuf[..BLKSIZE], false);
    assert |o.log + Mark(iobuf[..BLKSIZE], false)| == |all| - 1;
  }

  lemma MarkJoin(s: seq<Byte>, t: seq<Byte>, eoi: bool)
    requires t == [] ==> !eoi
    ensures Mark(s + t, eoi) == Mark(s, false) + Mark(t, eoi)
  {
  }

  /** The last block, full blocks before it or not, empty or not: with something to send, every byte
      of the file has then gone out once, in order, with EOI on the last and no other. */
  lemma LastBlock(o: Out, got: seq<Byte>, block: seq<Byte>)
    requires Holding(o, got) && |block| < BLKSIZE && got + block != []
    ensures Deliver(o, block, true).log == Mark(got + block, true)
  {
    hide Mark;
    MarkLast(got + block);
    if got == [] {
      LastAlone(o, block);
      assert got + block == block;
    } else if block == [] {
      assert got + block == got;
    } else {
      LastAfterHold(o, got, block);
    }
  }

  /** The last byte is the one that carries EOI. */
  lemma MarkLast(s: seq<Byte>)
    requires s != []
    ensures Mark(s, true) == Mark(s[..|s| - 1], false) + [(s[|s| - 1], true)]
  {
  }

  lemma LastAlone(o: Out, block: seq<Byte>)
    requires ValidOut(o) && o.atStart && 0 < |block| < BLKSIZE
    ensures var iobuf := Overlay(o.iobuf, 0, block);
            iobuf[..|block| - 1] == block[..|block| - 1] && iobuf[|block| - 1] == block[|block| - 1]
  {
    assert Overlay(o.iobuf, 0, block)[0..0 + |block|] == block;
  }

  lemma LastAfterHold(o: Out, got: seq<Byte>, block: seq<Byte>)
    requires Holding(o, got) && 0 < |block| < BLKSIZE && got != []
    ensures var iobuf, all := Overlay(o.iobuf, 1, block), got + block;
            && iobuf[|block|] == all[|all| - 1]
            && o.log + Mark(iobuf[..|block|], false) == Mark(all[..|all| - 1], false)
  {
    var iobuf, all := Overlay(o.iobuf, 1, block), got + block;
    assert iobuf[0] == o.iobuf[..1][0];
    assert iobuf[1..1 + |block|] == block;
    assert all[..|all| - 1] == got[..|got| - 1] + iobuf[..|block|];
    MarkJoin(got[..|got| - 1], iobuf[..|block|], false);
  }

  /** EOI placement: full blocks closed by one that is not full go out as their bytes, each once and
      in order, EOI with the last alone, if and only if there is a byte to send. An empty file sends
      what iobuf[0] happened to hold. */
  lemma EoiPlacement(iobuf: seq<Byte>, blocks: seq<seq<Byte>>)
    requires |iobuf| == BLKSIZE + 1 && blocks != []
    requires forall k :: 0 <= k < |blocks| - 1 ==> Full(blocks[k])
    requires |blocks[|blocks| - 1]| < BLKSIZE
    ensures forall b :: b in blocks ==> |b| <= BLKSIZE
    ensures var log := DeliverAll(Out(iobuf, true, 0, []), blocks, true).log;
            && (log == Mark(Flatten(blocks), true) <==> Flatten(blocks) != [])
            && (Flatten(blocks) == [] ==> log == [(iobuf[0], true)])
  {
    assert forall b :: b in blocks ==> |b| <= BLKSIZE;
    var n := |blocks| - 1;
    HoldAll(Out(iobuf, true, 0, []), blocks[..n]);
    var o := DeliverAll(Out(iobuf, true, 0, []), blocks[..n], false);
    if Flatten(blocks) != [] {
      LastBlock(o, Flatten(blocks[..n]), blocks[n]);
    } else {
      assert blocks[n] == [] && Flatten(blocks[..n]) == [];
      NoBlocks(blocks[..n]);
    }
  }

  lemma NoBlocks(blocks: seq<seq<Byte>>)
    requires forall b :: b in blocks ==> Full(b)
    ensures Flatten(blocks) == [] <==> blocks == []
  {
    if blocks != [] {
      assert blocks[|blocks| - 1] in blocks;
    }
  }

  lemma {:induction false} HoldAll(o: Out, blocks: seq<seq<Byte>>)
    requires Holding(o, []) && forall b :: b in blocks ==> Full(b)
    ensures (forall b :: b in blocks ==> |b| <= BLKSIZE) && Holding(DeliverAll(o, blocks, false), Flatten(blocks))
    decreases |blocks|
  {
    if blocks != [] {
      var n := |blocks| - 1;
      assert blocks[n] in blocks;
      HoldAll(o, blocks[..n]);
      HoldMore(DeliverAll(o, blocks[..n], false), Flatten(blocks[..n]), blocks[n]);
    }
  }

  // ---------------------------------------------------------------- the loop

  datatype Phase = Fetching | Sent | Failed

  /** send_file between two rounds of its inner loop. */
  datatype Sender = Sender(client: Client, out: Out, phase: Phase)

  predicate ValidSender(s: Sender) {
    ValidClient(s.client) && ValidOut(s.out)
  }

  /** send_file from its start. */
  function Begin(c: Client, iobuf: seq<Byte>, name: seq<Byte>): (Sender, seq<Packet>)
    requires ValidClient(c) && |iobuf| == BLKSIZE + 1
  {
    var (c1, out) := GetFile(c, name);
    (Sender(c1, Out(iobuf, true, 0, []), if c1.request == Reading then Fetching else Sent), out)
  }

  predicate Deliverable(p: Option<Packet>) {
    p.Some? && p.value.Data? ==> |p.value.payload| <= BLKSIZE
  }

  predicate Deliverables(arrivals: seq<Option<Packet>>) {
    forall p :: p in arrivals ==> Deliverable(p)
  }

  /** The receiving half of a round: at most one packet is taken and a block asked for. */
  function Fetch(c: Client, p: Option<Packet>): (r: (Client, seq<Byte>, seq<Packet>))
    requires ValidClient(c) && Deliverable(p)
    ensures ValidClient(r.0) && |r.1| <= BLKSIZE
  {
    var (c1, acks1) := if p.Some? then RecvPacket(c, p.value) else (c, []);
    if c1.error then (c1, [], acks1)
    else
      var (c2, block, acks2) := GetBlock(c1);
      (c2, block, acks1 + acks2)
  }

  /** One round: what was fetched is sent on; an error packet ends it. */
  function Poll(s: Sender, p: Option<Packet>): (r: (Sender, seq<Packet>))
    requires ValidSender(s) && s.phase == Fetching && Deliverable(p)
    ensures ValidSender(r.0)
  {
    var (c, block, acks) := Fetch(s.client, p);
    var eoi := c.request != Reading;
    if c.error then (s.(client := c, phase := Failed), acks)
    else
      var out := if block == [] && !eoi then s.out else Deliver(s.out, block, eoi);
      (Sender(c, out, if eoi then Sent else Fetching), acks)
  }

  /** A round fails exactly when it meets an error packet whose code is not the number of the last packet;
      then nothing more goes out, on the bus or to the server. */
  lemma ErrorStops(s: Sender, p: Option<Packet>)
    requires ValidSender(s) && s.phase == Fetching && !s.client.error && Deliverable(p)
    ensures var (s1, out) := Poll(s, p);
            && (s1.phase == Failed <==> p.Some? && p.value.Err? && p.value.code != s.client.lastblk)
            && (s1.phase == Failed ==> s1.out == s.out && out == [] && s1.client.error && s1.client.request == NoRq)
  {
    hide Deliver;
  }

  /** With a name of more than 20 characters no request goes out, and send_file is done at once. */
  lemma TooLong(c: Client, iobuf: seq<Byte>, name: seq<Byte>)
    requires ValidClient(c) && c.request == NoRq && |iobuf| == BLKSIZE + 1
    ensures var (s, out) := Begin(c, iobuf, name);
            if |name| <= 20 then s.phase == Fetching && out == [Rrq]
            else s.phase == Sent && out == [] && s.out.log == []
  {
  }

  /** send_file over what the probes of its rounds found; rounds after the end do not happen. */
  function Rounds(s: Sender, arrivals: seq<Option<Packet>>): (r: (Sender, seq<Packet>))
    requires ValidSender(s) && Deliverables(arrivals)
    ensures ValidSender(r.0)
  {
    if arrivals == [] then (s, [])
    else
      var (s1, out1) := Rounds(s, arrivals[..|arrivals| - 1]);
      var p := arrivals[|arrivals| - 1];
      assert p in arrivals && Deliverable(p);
      if s1.phase != Fetching then (s1, out1)
      else
        var (s2, out2) := Poll(s1, p);
        (s2, out1 + out2)
  }

  lemma RoundsStep(s: Sender, arrivals: seq<Option<Packet>>, k: nat)
    requires ValidSender(s) && Deliverables(arrivals) && k < |arrivals|
    ensures Deliverables(arrivals[..k]) && Deliverables(arrivals[..k + 1])
    ensures Deliverable(arrivals[k])
    ensures var (s1, out1) := Rounds(s, arrivals[..k]);
            s1.phase == Fetching ==>
              Rounds(s, arrivals[..k + 1]) == (Poll(s1, arrivals[k]).0, out1 + Poll(s1, arrivals[k]).1)
  {
    assert arrivals[..k + 1][..k] == arrivals[..k];
  }

  /** One more round, in terms of what it fetched. */
  lemma RoundOn(s: Sender, arrivals: seq<Option<Packet>>, k: nat, c: Client, o: Out)
    requires ValidSender(s) && Deliverables(arrivals) && k < |arrivals|
    requires Deliverables(arrivals[..k]) && Rounds(s, arrivals[..k]).0 == Sender(c, o, Fetching)
    ensures Deliverables(arrivals[..k + 1]) && Deliverable(arrivals[k])
    ensures ValidClient(c) && ValidOut(o)
    ensures var (c2, block, acks) := Fetch(c, arrivals[k]); var eoi := c2.request != Reading;
            Rounds(s, arrivals[..k + 1]) ==
            (if c2.error then Sender(c2, o, Failed)
             else Sender(c2, if block == [] && !eoi then o else Deliver(o, block, eoi), if eoi then Sent else Fetching),
             Rounds(s, arrivals[..k]).1 + acks)
  {
    hide Deliver, Fetch;
    RoundsStep(s, arrivals, k);
  }
}
