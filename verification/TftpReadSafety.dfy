/** What every reachable state of a read transfer keeps. */
module TftpReadSafety {
  import opened Bytes
  import opened TftpClient
  import opened SendFile
  import opened TftpServer
  import opened TftpRead

  const LAST_BLOCK := 0xFFFF  // the largest block number 16 bits can say

  /** The device has handled `a` different packets and is waiting for the next. */
  ghost predicate Waiting(s: Sender, file: seq<Byte>, a: nat) {
    && s.phase == Fetching && s.client.request == Reading && !s.client.error && !s.client.endOfData
    && a <= Blocks(file) && a <= LAST_BLOCK + 1
    && s.client.lastgot == (if a == 0 then 0 else a - 1)
    && (if a == 0 then s.client.lastblk == LAST_BLOCK && s.client.available == 0
        else s.client.lastblk == s.client.blknum == a - 1
             && s.client.available == if a == 1 then 0 else BLKSIZE)
    && Holding(s.out, Upto(file, if a == 0 then 0 else a - 1))
  }

  /** The device has handed over the whole file. */
  ghost predicate Complete(s: Sender, file: seq<Byte>, a: nat) {
    && s.phase == Sent && s.client.request == NoRq
    && a == Blocks(file) + 1 && a <= LAST_BLOCK + 1
    && s.out.log == Mark(file, true)
  }

  /** Block 65536 arrived as block 0: no block counts as newer than 65535, and none ever will. */
  ghost predicate Stuck(s: Sender, file: seq<Byte>, a: nat) {
    && s.phase == Fetching && s.client.request == Reading && !s.client.error
    && a == LAST_BLOCK + 1 <= Blocks(file)
    && s.client.lastgot == LAST_BLOCK && s.client.lastblk == s.client.blknum == 0
    && Holding(s.out, Upto(file, LAST_BLOCK))
  }

  /** The server has sent its first `n` packets. */
  predicate Serving(s: Server, file: seq<Byte>, n: nat) {
    && s.file == file && n <= Blocks(file) + 1
    && (if n == 0 then s == Fresh(file)
        else
          && (s.status == WaitForAck || s.status == Finished || s.status == Aborted)
          && s.pos == |Upto(file, n - 1)|
          && s.last == (n == Blocks(file) + 1)
          && s.sendEmpty == (n == Blocks(file) && BLKSIZE * (n - 1) == |file|))
  }

  /** Copies of `p`, then copies of `c`. */
  ghost predicate Runs(q: seq<Packet>, p: Packet, c: Packet) {
    && (forall i :: 0 <= i < |q| ==> q[i] == p || q[i] == c)
    && (forall i, j :: 0 <= i < j < |q| && q[i] == c ==> q[j] == c)
  }

  /** What is under way: either one request or acknowledgement (or it was lost), with stale copies
      of the packet it answers towards the client, or nothing towards the server. */
  ghost predicate Underway(s: System, file: seq<Byte>, n: nat, a: nat) {
    if n == 0 then
      a == 0 && s.toClient == [] && (s.toServer == [] || s.toServer == [Rrq])
    else if a == n then
      && Runs(s.toClient, Nth(file, n - 1), Nth(file, n - 1))
      && (s.toServer == [] || (a <= LAST_BLOCK + 1 && s.toServer == [Ack(a - 1)]))
    else
      && a == n - 1 && s.toServer == []
      && Runs(s.toClient, Nth(file, if n == 1 then 0 else n - 2), Nth(file, n - 1))
  }

  ghost predicate Good(s: System, file: seq<Byte>) {
    var n, a := s.sentByServer, s.sentByClient - 1;
    && ValidSender(s.sender) && a >= 0
    && Serving(s.server, file, n)
    && (s.server.status == Finished ==> a == n == Blocks(file) + 1 && s.toServer == [])
    && Underway(s, file, n, a)
    && (Waiting(s.sender, file, a) || Complete(s.sender, file, a)
        || (Stuck(s.sender, file, a) && n == a + 1 && Runs(s.toClient, Nth(file, a), Nth(file, a))))
  }

  lemma RunsSized(q: seq<Packet>, file: seq<Byte>, i: nat, j: nat)
    requires Runs(q, Nth(file, i), Nth(file, j))
    ensures Sized(q)
  {
  }

  lemma GoodSized(s: System, file: seq<Byte>)
    requires Good(s, file)
    ensures Sized(s.toClient)
  {
    hide Waiting, Stuck, Complete, Serving, Nth;
    var n, a := s.sentByServer, s.sentByClient - 1;
    if n > 0 {
      RunsSized(s.toClient, file, if a == n then n - 1 else if n == 1 then 0 else n - 2, n - 1);
    }
  }

  lemma InitialGood(s: System, file: seq<Byte>)
    requires Initial(s, file)
    ensures Good(s, file)
  {
    var c, iobuf, name :| ValidClient(c) && c.request == NoRq && |iobuf| == BLKSIZE + 1 && |name| <= 20
      && s == System(Begin(c, iobuf, name).0, Fresh(file), Begin(c, iobuf, name).1, [], 1, 0);
    assert Upto(file, 0) == [];
  }

  // ---------------------------------------------------------------- channels

  lemma RunsShrink(q: seq<Packet>, p: Packet, c: Packet, i: nat)
    requires Runs(q, p, c) && i < |q|
    ensures Runs(Remove(q, i), p, c) && Runs(Twice(q, i), p, c)
  {
    var r, t := Remove(q, i), Twice(q, i);
    forall k | 0 <= k < |r| ensures r[k] == q[if k < i then k else k + 1] {
    }
    forall k | 0 <= k < |t| ensures t[k] == q[if k <= i then k else k - 1] {
    }
  }

  lemma RunsTail(q: seq<Packet>, p: Packet, c: Packet)
    requires Runs(q, p, c) && q != []
    ensures q[0] == p || q[0] == c
    ensures q[0] == c ==> Runs(q[1..], c, c)
    ensures Runs(q[1..], p, c)
  {
  }

  lemma GaveUp(s: Server, file: seq<Byte>, n: nat)
    requires Serving(s, file, n) && s.status != Ready
    ensures Serving(s.(status := Aborted), file, n)
  {
  }

  lemma OnlyOne(q: seq<Packet>, i: nat)
    requires |q| == 1 && i < |q|
    ensures Remove(q, i) == []
  {
  }

  /** Loss in either direction, adjacent duplication and giving up change no party's view. */
  lemma ChannelStep(s: System, file: seq<Byte>, e: Event)
    requires Good(s, file) && ValidSender(s.sender) && Sized(s.toClient) && Enabled(s, e)
    requires e.GiveUp? || e.LoseToServer? || e.LoseToClient? || e.Duplicate?
    ensures Good(Step(s, e), file)
  {
    var n, a := s.sentByServer, s.sentByClient - 1;
    hide Waiting, Complete, Stuck, Serving, Nth, Runs, Remove, Twice, Upto, Mark;
    var prev := if n <= 1 then 0 else if a == n then n - 1 else n - 2;
    match e
    case GiveUp => GaveUp(s.server, file, n);
    case LoseToServer(i) => OnlyOne(s.toServer, i);
    case LoseToClient(i) =>
      RunsShrink(s.toClient, Nth(file, prev), Nth(file, if n == 0 then 0 else n - 1), i);
      if Stuck(s.sender, file, a) && n == a + 1 && Runs(s.toClient, Nth(file, a), Nth(file, a)) {
        RunsShrink(s.toClient, Nth(file, a), Nth(file, a), i);
      }
    case Duplicate(i) =>
      RunsShrink(s.toClient, Nth(file, prev), Nth(file, if n == 0 then 0 else n - 1), i);
      if Stuck(s.sender, file, a) && n == a + 1 && Runs(s.toClient, Nth(file, a), Nth(file, a)) {
        RunsShrink(s.toClient, Nth(file, a), Nth(file, a), i);
      }
  }

  // ---------------------------------------------------------------- the server's turn

  /** An acknowledgement in step moves the server on by exactly one packet, or ends the transfer. */
  lemma ServerAnswers(s: Server, file: seq<Byte>, n: nat)
    requires Serving(s, file, n) && s.status == WaitForAck && 1 <= n <= LAST_BLOCK + 1
    ensures Nth(file, n - 1) != Nth(file, n)
    ensures var (s', out) := Serve(s, Ack(n - 1));
            if n == Blocks(file) + 1 then s'.status == Finished && out == [] && Serving(s', file, n)
            else out == [Nth(file, n)] && s'.status == WaitForAck && Serving(s', file, n + 1)
  {
    BlockSizes(file, n);
    if n > 1 { BlockSizes(file, n - 1); }
  }

  lemma Starts(s: Server, file: seq<Byte>)
    requires Serving(s, file, 0) && file != []
    ensures var (s', out) := Serve(s, Rrq); out == [Nth(file, 0)] && s'.status == WaitForAck && Serving(s', file, 1)
  {
    assert Upto(file, 0) == [];
  }

  /** A server that has finished or given up takes no further notice. */
  lemma IgnoresLate(s: Server, file: seq<Byte>, n: nat)
    requires Serving(s, file, n) && n > 0 && s.status != WaitForAck
    ensures forall p :: Serve(s, p) == (s, [])
  {
  }

  lemma RunsOne(p: Packet, c: Packet)
    ensures Runs([c], p, c)
  {
  }

  lemma RunsGrow(q: seq<Packet>, p: Packet, c: Packet)
    requires Runs(q, p, p)
    ensures p != c ==> Runs(q + [c], p, c)
  {
  }

  lemma ServeStep(s: System, file: seq<Byte>)
    requires Good(s, file) && file != [] && s.toServer != [] && Sized(s.toClient)
    ensures Good(Step(s, ServerTakes), file)
  {
    hide Waiting, Complete, Stuck, Nth, Serve, Serving, Mark, Upto, Blocks, Runs;
    var n, a := s.sentByServer, s.sentByClient - 1;
    var t := Step(s, ServerTakes);
    assert t.sender == s.sender;
    if n == 0 {
      Starts(s.server, file);
      assert s.toClient + [Nth(file, 0)] == [Nth(file, 0)];
      RunsOne(Nth(file, 0), Nth(file, 0));
    } else if s.server.status == WaitForAck {
      ServerAnswers(s.server, file, n);
      RunsGrow(s.toClient, Nth(file, n - 1), Nth(file, n));
      assert s.toClient + [] == s.toClient;
    } else {
      IgnoresLate(s.server, file, n);
      assert s.toClient + [] == s.toClient;
    }
  }

  // ---------------------------------------------------------------- the device's turn

  /** The packet in turn is acknowledged and sent on; the one after 65535 blocks is not. */
  lemma TakesNext(s: Sender, file: seq<Byte>, a: nat)
    requires ValidSender(s) && Waiting(s, file, a) && file != []
    ensures a <= LAST_BLOCK + 1
    ensures var (s', out) := SendFile.Poll(s, Some(Nth(file, a)));
            if a == LAST_BLOCK + 1 then Stuck(s', file, a) && out == []
            else out == [Ack(a)] && (Waiting(s', file, a + 1) || Complete(s', file, a + 1))
  {
    hide SendFile.Poll, Holding, Upto, Stuck, Complete, Block, Blocks;
    if a == 0 {
      TakesOack(s, file);
    } else if a == LAST_BLOCK + 1 {
      GetsStuck(s, file);
    } else {
      BlockSizes(file, a);
      if a < Blocks(file) {
        TakesFull(s, file, a);
      } else {
        TakesLast(s, file, a);
      }
    }
  }

  lemma TakesFull(s: Sender, file: seq<Byte>, a: Word)
    requires ValidSender(s) && Waiting(s, file, a) && 1 <= a < Blocks(file)
    ensures var (s', out) := SendFile.Poll(s, Some(Data(a, Block(file, a))));
            out == [Ack(a)] && Waiting(s', file, a + 1)
  {
    hide Holding, Deliver, Mark, Upto, Block, RecvPacket, GetBlock, Blocks, ValidOut;
    BlockSizes(file, a);
    GotBlock(s.client, a, Block(file, a));
    assert [] + [Ack(a)] == [Ack(a)];
    HoldMore(s.out, Upto(file, a - 1), Block(file, a));
  }

  lemma TakesLast(s: Sender, file: seq<Byte>, a: Word)
    requires ValidSender(s) && Waiting(s, file, a) && 1 <= a == Blocks(file) && file != []
    ensures var (s', out) := SendFile.Poll(s, Some(Data(a, Block(file, a))));
            out == [Ack(a)] && Complete(s', file, a + 1)
  {
    hide Holding, Deliver, Mark, Upto, Block, RecvPacket, GetBlock, Blocks, ValidOut;
    BlockSizes(file, a);
    GotBlock(s.client, a, Block(file, a));
    assert [] + [Ack(a)] == [Ack(a)];
    LastBlock(s.out, Upto(file, a - 1), Block(file, a));
  }

  lemma TakesOack(s: Sender, file: seq<Byte>)
    requires ValidSender(s) && Waiting(s, file, 0)
    ensures var (s', out) := SendFile.Poll(s, Some(Oack)); out == [Ack(0)] && Waiting(s', file, 1)
  {
    hide Holding;
    assert [Ack(0)] + [] == [Ack(0)];
  }

  lemma GetsStuck(s: Sender, file: seq<Byte>)
    requires ValidSender(s) && Waiting(s, file, LAST_BLOCK + 1)
    ensures var (s', out) := SendFile.Poll(s, Some(Nth(file, LAST_BLOCK + 1)));
            Stuck(s', file, LAST_BLOCK + 1) && out == []
  {
    hide Holding, Upto, Block, Blocks;
    var none: seq<Packet> := [];
    assert none + none == none;
  }

  /** The client's two calls on a new block: it is handed over whole and then acknowledged. */
  lemma GotBlock(c: Client, a: Word, block: seq<Byte>)
    requires ValidClient(c) && |block| <= BLKSIZE && c.request == Reading && !c.error && !c.endOfData
    requires 1 <= a && c.lastgot == a - 1 && c.lastblk != a
    ensures var (c1, acks1) := RecvPacket(c, Data(a, block)); var (c2, b, acks2) := GetBlock(c1);
            && acks1 == [] && !c1.error && b == block && acks2 == [Ack(a)] && ValidClient(c2)
            && c2.lastgot == c2.blknum == c2.lastblk == a && c2.available == |block| && !c2.error
            && c2.endOfData == (|block| != BLKSIZE)
            && c2.request == if |block| != BLKSIZE then NoRq else Reading
  {
    var c1 := RecvPacket(c, Data(a, block)).0;
    assert c1.data[0..0 + |block|] == block;
  }

  /** A packet with the number just handled leaves the client as it is, whatever it carries. */
  lemma CopyIgnored(c: Client, p: Packet)
    requires ValidClient(c) && BlkNum(p) == c.lastblk == c.blknum && (p.Data? ==> |p.payload| <= BLKSIZE)
    ensures RecvPacket(c, p) == (c, [])
  {
  }

  /** With no new block a round of send_file does nothing. */
  lemma NothingNew(s: Sender, p: Option<Packet>)
    requires ValidSender(s) && s.phase == Fetching && s.client.request == Reading && !s.client.error
    requires !HasBlock(s.client)
    requires p.Some? && p.value.Data? ==> |p.value.payload| <= BLKSIZE
    requires p.Some? ==> RecvPacket(s.client, p.value) == (s.client, [])
    ensures SendFile.Poll(s, p) == (s, [])
  {
    hide RecvPacket, Deliver;
    var none: seq<Packet> := [];
    assert none + none == none;
  }

  /** A second copy of the packet just handled changes nothing and is not acknowledged. */
  lemma IgnoresCopy(s: Sender, file: seq<Byte>, a: nat)
    requires ValidSender(s) && 1 <= a && Waiting(s, file, a)
    ensures SendFile.Poll(s, Some(Nth(file, a - 1))) == (s, [])
  {
    hide Holding, Upto, Block, Blocks, SendFile.Poll;
    CopyIgnored(s.client, Nth(file, a - 1));
    NothingNew(s, Some(Nth(file, a - 1)));
  }

  lemma StaysStuck(s: Sender, file: seq<Byte>, a: nat)
    requires ValidSender(s) && Stuck(s, file, a)
    ensures SendFile.Poll(s, Some(Nth(file, a))) == (s, [])
    ensures SendFile.Poll(s, None) == (s, [])
  {
    hide Holding, Upto, Block, Blocks, SendFile.Poll;
    CopyIgnored(s.client, Nth(file, a));
    NothingNew(s, Some(Nth(file, a)));
    NothingNew(s, None);
  }

  lemma WaitsIdle(s: Sender, file: seq<Byte>, a: nat)
    requires ValidSender(s) && Waiting(s, file, a)
    ensures SendFile.Poll(s, None) == (s, [])
  {
    hide Holding, Upto, Block, Blocks, SendFile.Poll;
    NothingNew(s, None);
  }

  lemma ReceiveStep(s: System, file: seq<Byte>)
    requires Good(s, file) && file != [] && Sized(s.toClient) && Enabled(s, Receive)
    ensures Good(Step(s, Receive), file)
  {
    var n, a := s.sentByServer, s.sentByClient - 1;
    hide Waiting, Stuck, Serving, Nth, Runs, SendFile.Poll, Mark;
    var p := s.toClient[0];
    if Stuck(s.sender, file, a) && n == a + 1 && Runs(s.toClient, Nth(file, a), Nth(file, a)) {
      RunsTail(s.toClient, Nth(file, a), Nth(file, a));
      StaysStuck(s.sender, file, a);
      RunsTail(s.toClient, Nth(file, if n == 1 then 0 else n - 2), Nth(file, n - 1));
    } else if a == n {
      RunsTail(s.toClient, Nth(file, n - 1), Nth(file, n - 1));
      IgnoresCopy(s.sender, file, a);
    } else {
      RunsTail(s.toClient, Nth(file, if n == 1 then 0 else n - 2), Nth(file, n - 1));
      if p == Nth(file, a) {
        TakesNext(s.sender, file, a);
        var (sender, out) := SendFile.Poll(s.sender, Some(p));
        assert s.toServer + out == out;
        assert Runs(s.toClient[1..], Nth(file, n - 1), Nth(file, n - 1));
        if a == LAST_BLOCK + 1 {
          assert Stuck(sender, file, a);
        } else {
          assert Step(s, Receive).sentByClient - 1 == a + 1;
          assert Underway(Step(s, Receive), file, n, a + 1);
        }
      } else {
        IgnoresCopy(s.sender, file, a);
      }
    }
  }

  lemma IdleStep(s: System, file: seq<Byte>)
    requires Good(s, file) && Sized(s.toClient) && Enabled(s, Idle)
    ensures Good(Step(s, Idle), file)
  {
    hide SendFile.Poll, Waiting, Stuck, Complete, Serving, Underway, Runs;
    IdleDoesNothing(s, file);
    assert s.toServer + [] == s.toServer;
  }

  lemma IdleDoesNothing(s: System, file: seq<Byte>)
    requires Good(s, file) && s.sender.phase == Fetching
    ensures SendFile.Poll(s.sender, None) == (s.sender, [])
  {
    hide SendFile.Poll, Holding, Upto, Blocks;
    var a := s.sentByClient - 1;
    if Waiting(s.sender, file, a) {
      WaitsIdle(s.sender, file, a);
    } else {
      StaysStuck(s.sender, file, a);
    }
  }

  /** Every step, by either party or by the network, keeps the transfer good. */
  lemma GoodStep(s: System, file: seq<Byte>, e: Event)
    requires Good(s, file) && file != [] && ValidSender(s.sender) && Sized(s.toClient) && Enabled(s, e)
    ensures Good(Step(s, e), file)
  {
    hide Good, Step;
    match e
    case Idle => IdleStep(s, file);
    case Receive => ReceiveStep(s, file);
    case ServerTakes => ServeStep(s, file);
    case _ => ChannelStep(s, file, e);
  }

  // ---------------------------------------------------------------- runs

  /** `t` is reached from `s` by `events`. */
  ghost predicate Reaches(s: System, events: seq<Event>, t: System)
    decreases |events|
  {
    if events == [] then s == t
    else
      && ValidSender(s.sender) && Sized(s.toClient) && Enabled(s, events[0])
      && Reaches(Step(s, events[0]), events[1..], t)
  }

  lemma {:induction false} GoodRun(s: System, events: seq<Event>, t: System, file: seq<Byte>)
    requires Good(s, file) && file != [] && Reaches(s, events, t)
    ensures Good(t, file)
    decreases |events|
  {
    if events != [] {
      GoodStep(s, file, events[0]);
      GoodRun(Step(s, events[0]), events[1..], t, file);
    }
  }

  function OnTheBus(log: seq<(Byte, bool)>): seq<Byte> {
    seq(|log|, i requires 0 <= i < |log| => log[i].0)
  }

  /** Read transfer, end to end. Whatever the channels lose or duplicate, and however long the file,
      the bytes put on the serial bus are a prefix of the file, none of them with EOI until the
      device is done; when it is done they are the whole file, EOI on the last byte alone, and the
      file needed at most 65535 blocks. The transfer never fails, and no enabled event is one that
      `Reaches` does not take. */
  lemma ReadIsSafe(s: System, events: seq<Event>, t: System, file: seq<Byte>)
    requires Initial(s, file) && file != [] && Reaches(s, events, t)
    ensures t.sender.phase != Failed
    ensures OnTheBus(t.sender.out.log) <= file
    ensures t.sender.phase == Sent ==> t.sender.out.log == Mark(file, true) && Blocks(file) <= LAST_BLOCK
    ensures t.sender.phase == Fetching ==>
      |t.sender.out.log| < |file| && t.sender.out.log == Mark(file[..|t.sender.out.log|], false)
    ensures ValidSender(t.sender) && Sized(t.toClient)
  {
    hide Initial, Reaches, Holding, Mark, Upto, OnTheBus;
    InitialGood(s, file);
    GoodRun(s, events, t, file);
    GoodSized(t, file);
    var a := t.sentByClient - 1;
    if t.sender.phase == Fetching {
      var held := if Waiting(t.sender, file, a) then (if a == 0 then 0 else a - 1) else LAST_BLOCK;
      HeldIsPrefix(t.sender.out, file, held);
    } else {
      MarkOnTheBus(file, true);
    }
  }

  /** While blocks are outstanding, the bus has had the file up to one byte before the held one. */
  lemma HeldIsPrefix(o: Out, file: seq<Byte>, k: nat)
    requires Holding(o, Upto(file, k)) && file != []
    ensures |o.log| < |file| && o.log == Mark(file[..|o.log|], false) && OnTheBus(o.log) <= file
  {
    var got := Upto(file, k);
    assert got <= file;
    if got == [] {
      assert o.log == Mark(file[..0], false);
    } else {
      assert got[..|got| - 1] == file[..|got| - 1];
    }
    MarkOnTheBus(file[..|o.log|], false);
  }

  lemma MarkOnTheBus(s: seq<Byte>, eoi: bool)
    ensures OnTheBus(Mark(s, eoi)) == s
  {
  }

  /** Lockstep: at most one request or acknowledgement is under way, and never one together with an
      unhandled packet of the server; the server has read exactly the blocks it has sent, and the device
      has got all of them or all but the last. Towards the device there are only copies of the last
      packet sent, behind copies of the one before while the last has not been handled. */
  lemma Lockstep(s: System, events: seq<Event>, t: System, file: seq<Byte>)
    requires Initial(s, file) && file != [] && Reaches(s, events, t)
    ensures var n, a := t.sentByServer, t.sentByClient - 1;
            && 0 <= a <= n <= a + 1 && |t.toServer| <= 1
            && (n > 0 ==> t.server.pos == |Upto(file, n - 1)|)
            && (t.toServer != [] && n > 0 ==>
                  && n <= LAST_BLOCK + 1 && t.toServer == [Ack(n - 1)]
                  && forall p :: p in t.toClient ==> p == Nth(file, n - 1))
            && (n == 0 ==> t.toClient == [])
            && (0 < n == a ==> forall p :: p in t.toClient ==> p == Nth(file, n - 1))
            && (a < n ==>
                  t.toServer == [] && Runs(t.toClient, Nth(file, if n == 1 then 0 else n - 2), Nth(file, n - 1)))
            && (1 < n <= LAST_BLOCK + 1 && t.sender.phase == Fetching ==>
                  t.sender.client.lastgot == n - 1 || t.sender.client.lastgot == n - 2)
  {
    hide Initial, Reaches, Holding, Mark, Upto, Blocks, Nth, Sized;
    InitialGood(s, file);
    GoodRun(s, events, t, file);
  }

  // ---------------------------------------------------------------- without duplication

  predicate Unduplicated(events: seq<Event>) {
    events == [] || (!events[0].Duplicate? && Unduplicated(events[1..]))
  }

  predicate OnlyOneUnderway(s: System) {
    |s.toServer| + |s.toClient| <= 1
  }

  /** Without duplication at most one packet is in flight, in either direction, in every reachable state
      of every run, whatever is lost. */
  lemma AtMostOne(s: System, events: seq<Event>, t: System, file: seq<Byte>)
    requires Initial(s, file) && file != [] && Reaches(s, events, t) && Unduplicated(events)
    ensures |t.toServer| + |t.toClient| <= 1
  {
    InitialGood(s, file);
    OneRun(s, events, t, file);
  }

  lemma {:induction false} OneRun(s: System, events: seq<Event>, t: System, file: seq<Byte>)
    requires Good(s, file) && file != [] && Reaches(s, events, t) && Unduplicated(events) && OnlyOneUnderway(s)
    ensures OnlyOneUnderway(t)
    decreases |events|
  {
    hide Good, OnlyOneUnderway, Step, Enabled;
    if events != [] {
      GoodStep(s, file, events[0]);
      OneStep(s, file, events[0]);
      OneRun(Step(s, events[0]), events[1..], t, file);
    }
  }

  /** Taking a packet sends at most one; an idle round sends none. */
  lemma OneStep(s: System, file: seq<Byte>, e: Event)
    requires Good(s, file) && file != [] && ValidSender(s.sender) && Sized(s.toClient) && Enabled(s, e)
    requires !e.Duplicate? && OnlyOneUnderway(s)
    ensures OnlyOneUnderway(Step(s, e))
  {
    hide Good, SendFile.Poll, TftpServer.Serve;
    match e
    case Idle => IdleDoesNothing(s, file);
    case Receive => ReceiveSendsOne(s, file);
    case ServerTakes => ServesOne(s.server, s.toServer[0]);
    case _ =>
  }

  lemma ServesOne(s: Server, p: Packet)
    ensures |Serve(s, p).1| <= 1
  {
  }

  lemma ReceiveSendsOne(s: System, file: seq<Byte>)
    requires Good(s, file) && file != [] && s.sender.phase == Fetching && s.toClient != []
    ensures Deliverable(Some(s.toClient[0])) && |SendFile.Poll(s.sender, Some(s.toClient[0])).1| <= 1
  {
    hide SendFile.Poll, Holding, Upto, Blocks;
    GoodSized(s, file);
    var n, a, p := s.sentByServer, s.sentByClient - 1, s.toClient[0];
    if Waiting(s.sender, file, a) {
      if p == Nth(file, a) && a < n {
        TakesNext(s.sender, file, a);
      } else {
        IgnoresCopy(s.sender, file, a);
      }
    } else {
      StaysStuck(s.sender, file, a);
    }
  }
}
