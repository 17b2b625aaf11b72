/** A write transfer: recv_file hands blocks to the client as the server acknowledges them. */
module TftpWrite {
  import opened Bytes
  import opened TftpClient
  import opened TftpServer
  import R = TftpRead
  import Safety = TftpReadSafety

  /** The device, which has put `put` blocks of `file`, and the server. */
  datatype System = System(
    client: Client, file: seq<Byte>, put: nat, server: Server,
    toServer: seq<Packet>, toClient: seq<Packet>, sentByServer: nat)

  datatype Event =
    | Receive           // the client takes the oldest packet
    | TryPut            // recv_file offers its next block
    | ServerTakes
    | GiveUp
    | LoseToServer(i: nat)
    | LoseToClient(i: nat)
    | Duplicate(i: nat) // a packet to the client arrives twice in a row

  predicate Enabled(s: System, e: Event) {
    match e
    case Receive => s.toClient != []
    case TryPut => s.put < R.Blocks(s.file)
    case ServerTakes => s.toServer != []
    case GiveUp => s.server.status == WaitForAck || s.server.status == WaitForData
    case LoseToServer(i) => i < |s.toServer|
    case LoseToClient(i) => i < |s.toClient|
    case Duplicate(i) => i < |s.toClient|
  }

  function Step(s: System, e: Event): System
    requires ValidClient(s.client) && R.Sized(s.toClient) && Enabled(s, e)
  {
    match e
    case Receive =>
      var (c, out) := RecvPacket(s.client, s.toClient[0]);
      s.(client := c, toClient := s.toClient[1..], toServer := s.toServer + out)
    case TryPut =>
      var (c, accepted, out) := PutBlock(s.client, R.Block(s.file, s.put + 1));
      s.(client := c, put := if accepted then s.put + 1 else s.put, toServer := s.toServer + out)
    case ServerTakes =>
      var (server, out) := Serve(s.server, s.toServer[0]);
      s.(server := server, toServer := s.toServer[1..], toClient := s.toClient + out,
         sentByServer := s.sentByServer + |out|)
    case GiveUp => s.(server := s.server.(status := Aborted))
    case LoseToServer(i) => s.(toServer := R.Remove(s.toServer, i))
    case LoseToClient(i) => s.(toClient := R.Remove(s.toClient, i))
    case Duplicate(i) => s.(toClient := R.Twice(s.toClient, i))
  }

  /** recv_file has sent its request; the server object is fresh. */
  ghost predicate Initial(s: System, file: seq<Byte>) {
    exists c: Client, name: seq<Byte> ::
      && ValidClient(c) && c.request == NoRq && |name| <= 20
      && s == System(PutFile(c, name).0, file, 0, Fresh([]), PutFile(c, name).1, [], 0)
  }

  /** The n-th packet of the server, counting from 0. */
  function Reply(n: nat): Packet {
    if n == 0 then Oack else Ack(Wire(n))
  }

  /** The server has answered `n` packets: the request and n - 1 blocks. */
  ghost predicate Storing(s: Server, file: seq<Byte>, n: nat) {
    && n <= R.Blocks(file) + 1
    && (if n == 0 then s == Fresh([])
        else
          && s.written == R.Upto(file, n - 1)
          && !s.last && s.status != Ready && s.status != WaitForAck
          && (s.status == Finished ==> n == R.Blocks(file) + 1 && |file| % BLKSIZE + 4 < BLKSIZE)
          && (s.status == WaitForData && n == R.Blocks(file) + 1 ==> |file| % BLKSIZE + 4 >= BLKSIZE))
  }

  /** The client has put `m` blocks after hearing `heard` different replies. */
  ghost predicate Putting(c: Client, file: seq<Byte>, m: nat, heard: nat) {
    && ValidClient(c) && m <= R.Blocks(file) && m <= heard <= m + 1 && !c.error
    && c.request == (if m == R.Blocks(file) then NoRq else Writing)
    && (if heard == 0 then c.lastblk == 0xFFFF else c.lastblk == c.blknum == Wire(heard - 1))
    && (heard == m ==> !c.clearToSend)
    && (heard == m + 1 && m < R.Blocks(file) ==> c.clearToSend)
  }

  /** The channels, when the server has sent `n` replies and the client put `m` blocks. */
  ghost predicate Underway(s: System, n: nat, m: nat, heard: nat) {
    if n == 0 then
      m == 0 == heard && s.toClient == [] && (s.toServer == [] || s.toServer == [Wrq])
    else if m == n then
      && heard == n && Safety.Runs(s.toClient, Reply(n - 1), Reply(n - 1))
      && (s.toServer == [] || s.toServer == [Data(Wire(n), R.Block(s.file, n))])
    else
      && m == n - 1 && s.toServer == []
      && if heard == n then Safety.Runs(s.toClient, Reply(n - 1), Reply(n - 1))
         else heard == n - 1 && Safety.Runs(s.toClient, Reply(if n == 1 then 0 else n - 2), Reply(n - 1))
  }

  ghost predicate GoodWith(s: System, heard: nat) {
    && Storing(s.server, s.file, s.sentByServer)
    && Putting(s.client, s.file, s.put, heard)
    && Underway(s, s.sentByServer, s.put, heard)
  }

  lemma GoodSized(s: System, heard: nat)
    requires GoodWith(s, heard)
    ensures R.Sized(s.toClient) && ValidClient(s.client)
  {
  }

  lemma InitialGood(s: System, file: seq<Byte>)
    requires Initial(s, file)
    ensures GoodWith(s, 0) && s.file == file
  {
  }

  /** Loss, duplication and giving up change no party's view. */
  lemma ChannelStep(s: System, heard: nat, e: Event)
    requires GoodWith(s, heard) && R.Sized(s.toClient) && Enabled(s, e)
    requires e.GiveUp? || e.LoseToServer? || e.LoseToClient? || e.Duplicate?
    ensures GoodWith(Step(s, e), heard)
  {
    hide Putting, Reply, Safety.Runs, R.Remove, R.Twice;
    var n := s.sentByServer;
    var prev := if n <= 1 then 0 else if heard == n then n - 1 else n - 2;
    match e
    case GiveUp =>
    case LoseToServer(i) => Safety.OnlyOne(s.toServer, i);
    case LoseToClient(i) => Safety.RunsShrink(s.toClient, Reply(prev), Reply(if n == 0 then 0 else n - 1), i);
    case Duplicate(i) => Safety.RunsShrink(s.toClient, Reply(prev), Reply(if n == 0 then 0 else n - 1), i);
  }

  /** The server stores the block in turn and acknowledges it; it finishes on the last block exactly
      when that block's packet, header included, is shorter than a block. */
  lemma Stores(s: Server, file: seq<Byte>, n: nat)
    requires Storing(s, file, n) && s.status == WaitForData && 1 <= n <= R.Blocks(file)
    ensures var (s', out) := Serve(s, Data(Wire(n), R.Block(file, n))); out == [Reply(n)] && Storing(s', file, n + 1)
  {
    R.BlockSizes(file, n);
  }

  lemma ServeStep(s: System, heard: nat)
    requires GoodWith(s, heard) && R.Sized(s.toClient) && s.toServer != []
    ensures GoodWith(Step(s, ServerTakes), heard)
  {
    hide Putting;
    PutBounds(s.client, s.file, s.put, heard);
    var n := s.sentByServer;
    if n == 0 {
      assert R.Upto(s.file, 0) == [];
    } else if s.server.status == WaitForData {
      Stores(s.server, s.file, n);
    }
  }

  lemma Hears(c: Client, file: seq<Byte>, m: nat)
    requires Putting(c, file, m, m)
    ensures var (c', out) := RecvPacket(c, Reply(m)); out == [] && Putting(c', file, m, m + 1)
  {
  }

  lemma IgnoresCopy(c: Client, file: seq<Byte>, m: nat, heard: nat)
    requires Putting(c, file, m, heard) && heard >= 1
    ensures RecvPacket(c, Reply(heard - 1)) == (c, [])
  {
  }

  lemma ReceiveStep(s: System, heard: nat) returns (heard': nat)
    requires GoodWith(s, heard) && R.Sized(s.toClient) && s.toClient != []
    ensures GoodWith(Step(s, Receive), heard')
    ensures heard' == if heard != s.sentByServer && s.toClient[0] == Reply(s.sentByServer - 1) then s.sentByServer
                      else heard
  {
    hide Putting, Storing, Reply, Safety.Runs, RecvPacket;
    var n := s.sentByServer;
    Safety.RunsTail(s.toClient, Reply(if n == 1 then 0 else if heard == n then n - 1 else n - 2), Reply(n - 1));
    if heard == n {
      Safety.RunsTail(s.toClient, Reply(n - 1), Reply(n - 1));
      IgnoresCopy(s.client, s.file, s.put, heard);
      heard' := heard;
    } else if s.toClient[0] == Reply(n - 1) {
      Hears(s.client, s.file, s.put);
      heard' := n;
    } else {
      IgnoresCopy(s.client, s.file, s.put, heard);
      heard' := heard;
    }
    assert s.toServer + [] == s.toServer;
  }

  lemma Puts(c: Client, file: seq<Byte>, m: nat, heard: nat)
    requires Putting(c, file, m, heard) && m < R.Blocks(file)
    ensures var (c', accepted, out) := PutBlock(c, R.Block(file, m + 1));
            if heard == m + 1 then
              accepted && out == [Data(Wire(m + 1), R.Block(file, m + 1))] && Putting(c', file, m + 1, heard)
            else !accepted && out == [] && c' == c
  {
    hide R.Block, R.Upto, R.Blocks, Overlay, Wire;
    R.BlockSizes(file, m + 1);
    NextWire(m);
  }

  lemma NextWire(m: nat)
    ensures Wire(m + 1) == (Wire(m) + 1) % 0x1_0000
  {
  }

  lemma PutStep(s: System, heard: nat)
    requires GoodWith(s, heard) && R.Sized(s.toClient) && Enabled(s, TryPut)
    ensures GoodWith(Step(s, TryPut), heard)
  {
    hide Putting, Storing, Reply, Safety.Runs, PutBlock;
    Puts(s.client, s.file, s.put, heard);
    PutBounds(s.client, s.file, s.put, heard);
    var out := PutBlock(s.client, R.Block(s.file, s.put + 1)).2;
    assert s.toServer + [] == s.toServer;
    assert [] + out == out;
  }

  lemma PutBounds(c: Client, file: seq<Byte>, m: nat, heard: nat)
    requires Putting(c, file, m, heard)
    ensures ValidClient(c) && m <= heard <= m + 1 && m <= R.Blocks(file)
  {
  }

  lemma GoodStep(s: System, heard: nat, e: Event) returns (heard': nat)
    requires GoodWith(s, heard) && R.Sized(s.toClient) && ValidClient(s.client) && Enabled(s, e)
    ensures GoodWith(Step(s, e), heard') && Step(s, e).file == s.file
  {
    heard' := heard;
    match e
    case Receive => heard' := ReceiveStep(s, heard);
    case TryPut => PutStep(s, heard);
    case ServerTakes => ServeStep(s, heard);
    case _ => ChannelStep(s, heard, e);
  }

  ghost predicate Reaches(s: System, events: seq<Event>, t: System)
    decreases |events|
  {
    if events == [] then s == t
    else
      && ValidClient(s.client) && R.Sized(s.toClient) && Enabled(s, events[0])
      && Reaches(Step(s, events[0]), events[1..], t)
  }

  lemma {:induction false} GoodRun(s: System, heard: nat, events: seq<Event>, t: System) returns (heard': nat)
    requires GoodWith(s, heard) && Reaches(s, events, t)
    ensures GoodWith(t, heard') && t.file == s.file
    decreases |events|
  {
    hide GoodWith, Step;
    heard' := heard;
    if events != [] {
      var heard1 := GoodStep(s, heard, events[0]);
      heard' := GoodRun(Step(s, events[0]), heard1, events[1..], t);
    }
  }

  /** Write transfer, end to end. Whatever is lost, and whatever the client hears twice, the bytes the
      server has written are the blocks it has acknowledged: a prefix of the file at every moment and
      the whole file once the last block is acknowledged. It counts the transfer finished exactly when
      that block has fewer than 252 bytes; after a longer one it goes on waiting. `Reaches` takes every
      enabled event. */
  lemma WriteIsSafe(s: System, events: seq<Event>, t: System, file: seq<Byte>)
    requires Initial(s, file) && Reaches(s, events, t)
    ensures t.server.written <= file
    ensures t.sentByServer > 0 ==> t.server.written == R.Upto(file, t.sentByServer - 1)
    ensures t.sentByServer == R.Blocks(file) + 1 ==> t.server.written == file
    ensures t.server.status == Finished ==> t.server.written == file
    ensures t.sentByServer == R.Blocks(file) + 1 && t.server.status != Aborted ==>
      (t.server.status == Finished <==> |file| % BLKSIZE < 252)
    ensures t.put == R.Blocks(file) <==> t.client.request == NoRq
    ensures ValidClient(t.client) && R.Sized(t.toClient)
  {
    InitialGood(s, file);
    var heard := GoodRun(s, 0, events, t);
    GoodSized(t, heard);
    if t.sentByServer > 0 {
      R.BlockSizes(file, R.Blocks(file));
      R.BlockSizes(file, R.Blocks(file) + 1);
    }
  }

  // ---------------------------------------------------------------- channels that lose nothing

  predicate Reliable(events: seq<Event>) {
    forall e :: e in events ==> e.Receive? || e.TryPut? || e.ServerTakes?
  }

  /** Without loss or duplication the transfer is never stranded: the packet in turn is there, or the
      next block can be put. */
  ghost predicate Moving(s: System, heard: nat) {
    var n, m := s.sentByServer, s.put;
    && GoodWith(s, heard) && s.server.status != Aborted
    && (n == 0 ==> s.toServer == [Wrq])
    && (n > 0 && m == n ==> s.toServer == [Data(Wire(n), R.Block(s.file, n))] && s.toClient == [])
    && (n > 0 && m == n - 1 ==> s.toClient == if heard == n then [] else [Reply(n - 1)])
  }

  /** Steps left: for the request and each block, one by the server, one to hear and one to put. */
  function Left(s: System, heard: nat): int {
    3 * R.Blocks(s.file) + 2 - s.sentByServer - s.put - heard
  }

  lemma FirstReply(s: Server)
    requires s == Fresh([])
    ensures Serve(s, Wrq).1 == [Reply(0)]
  {
  }

  lemma MovingStep(s: System, heard: nat, e: Event) returns (heard': nat)
    requires Moving(s, heard) && R.Sized(s.toClient) && ValidClient(s.client) && Enabled(s, e)
    requires e.Receive? || e.TryPut? || e.ServerTakes?
    ensures Moving(Step(s, e), heard') && Step(s, e).file == s.file
    ensures if Step(s, e) == s then heard' == heard else Left(Step(s, e), heard') == Left(s, heard) - 1
  {
    hide Putting, Reply, Safety.Runs, R.Upto, R.Block;
    PutBounds(s.client, s.file, s.put, heard);
    heard' := GoodStep(s, heard, e);
    var n := s.sentByServer;
    match e
    case Receive =>
      heard' := ReceiveStep(s, heard);
      Hears(s.client, s.file, s.put);
      assert s.toServer + [] == s.toServer;
      assert [Reply(n - 1)][1..] == [];
    case TryPut =>
      PutStep(s, heard);
      heard' := heard;
      Puts(s.client, s.file, s.put, heard);
      assert s.toServer + [] == s.toServer;
      var out := PutBlock(s.client, R.Block(s.file, s.put + 1)).2;
      assert [] + out == out;
    case ServerTakes =>
      ServeStep(s, heard);
      heard' := heard;
      if n > 0 {
        Stores(s.server, s.file, n);
      } else {
        FirstReply(s.server);
      }
      assert s.toServer[1..] == [];
      assert Step(s, e).toClient == [Reply(n)];
    case _ =>
  }

  /** Until every reply is heard, some step is possible and leads on. */
  lemma Progress(s: System, heard: nat)
    requires Moving(s, heard)
    ensures R.Sized(s.toClient) && ValidClient(s.client) && Left(s, heard) >= 0
    ensures Left(s, heard) > 0 ==>
      exists e :: (e == Receive || e == TryPut || e == ServerTakes) && Enabled(s, e) && Step(s, e) != s
    ensures Left(s, heard) == 0 ==> s.server.written == s.file && s.put == R.Blocks(s.file)
  {
    var n := s.sentByServer;
    R.BlockSizes(s.file, R.Blocks(s.file));
    R.BlockSizes(s.file, R.Blocks(s.file) + 1);
    if Left(s, heard) > 0 {
      if n == 0 || s.put == n {
        assert Enabled(s, ServerTakes) && Step(s, ServerTakes).toServer != s.toServer;
      } else if heard == n {
        Puts(s.client, s.file, s.put, heard);
        assert Enabled(s, TryPut) && Step(s, TryPut).put != s.put;
      } else {
        assert Enabled(s, Receive) && Step(s, Receive).toClient != s.toClient;
      }
    }
  }

  /** Steps that were not idle: a put before the client was cleared to send changes nothing. */
  ghost function Moves(s: System, events: seq<Event>, t: System): nat
    requires Reaches(s, events, t)
    decreases |events|
  {
    if events == [] then 0
    else (if Step(s, events[0]) == s then 0 else 1) + Moves(Step(s, events[0]), events[1..], t)
  }

  lemma {:induction false} MovingRun(s: System, heard: nat, events: seq<Event>, t: System) returns (heard': nat)
    requires Moving(s, heard) && Reaches(s, events, t) && Reliable(events)
    ensures Moving(t, heard') && t.file == s.file && Left(t, heard') + Moves(s, events, t) == Left(s, heard)
    decreases |events|
  {
    hide Moving, Step, Left;
    heard' := heard;
    if events != [] {
      assert events[0] in events;
      var heard1 := MovingStep(s, heard, events[0]);
      heard' := MovingRun(Step(s, events[0]), heard1, events[1..], t);
    }
  }

  /** Over reliable channels a write goes through after exactly 3 * (|file| / 256 + 1) + 2 moves, with
      the whole file written: one move of the server for the request and each block, one of the client
      to hear each of its replies, and one to put each block. */
  lemma WriteCount(s: System, events: seq<Event>, t: System, file: seq<Byte>)
    requires Initial(s, file) && Reaches(s, events, t) && Reliable(events)
    ensures R.Sized(t.toClient) && ValidClient(t.client)
    ensures R.Blocks(file) == |file| / 256 + 1
    ensures Moves(s, events, t) <= 3 * R.Blocks(file) + 2
    ensures Moves(s, events, t) < 3 * R.Blocks(file) + 2 ==>
      exists e :: (e == Receive || e == TryPut || e == ServerTakes) && Enabled(t, e) && Step(t, e) != t
    ensures Moves(s, events, t) == 3 * R.Blocks(file) + 2 ==>
      && t.server.written == file && t.put == R.Blocks(file)
      && (t.server.status == Finished <==> |file| % BLKSIZE < 252)
  {
    InitialGood(s, file);
    var heard := MovingRun(s, 0, events, t);
    Progress(t, heard);
    if Moves(s, events, t) == 3 * R.Blocks(file) + 2 {
      WriteIsSafe(s, events, t, file);
    }
  }
}
