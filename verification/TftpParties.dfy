/** The protocol systems and the code: each party's part of a run of a system is what the code of that
    party does when it meets the same packets. */
module TftpParties {
  import opened Bytes
  import opened TftpClient
  import opened TftpServer
  import opened RecvFile
  import S = SendFile
  import R = TftpRead
  import Safety = TftpReadSafety
  import W = TftpWrite

  // ---------------------------------------------------------------- recv_file in a write

  /** The device's part of a step: a probe that finds the packet, or an offer of the next block. */
  function ActOf(s: W.System, e: W.Event): seq<Act>
    requires W.Enabled(s, e)
  {
    match e
    case Receive => [Probe(Some(s.toClient[0]))]
    case TryPut => [Offer]
    case _ => []
  }

  ghost function Acts(s: W.System, events: seq<W.Event>, t: W.System): seq<Act>
    requires W.Reaches(s, events, t)
    decreases |events|
  {
    if events == [] then [] else ActOf(s, events[0]) + Acts(W.Step(s, events[0]), events[1..], t)
  }

  /** The packet that a step takes off the channel to the server, for the server or to lose it. */
  function Leaves(s: W.System, e: W.Event): seq<Packet>
    requires W.Enabled(s, e)
  {
    match e
    case ServerTakes => [s.toServer[0]]
    case LoseToServer(i) => [s.toServer[i]]
    case _ => []
  }

  ghost function Left(s: W.System, events: seq<W.Event>, t: W.System): seq<Packet>
    requires W.Reaches(s, events, t)
    decreases |events|
  {
    if events == [] then [] else Leaves(s, events[0]) + Left(W.Step(s, events[0]), events[1..], t)
  }

  /** `acts` lead to the device's state, and to what was sent: `left` and what is still under way. */
  ghost predicate DeviceAt(begin: Client, wrq: seq<Packet>, s: W.System, acts: seq<Act>, left: seq<Packet>) {
    && ValidClient(begin) && Playable(acts)
    && var (c, put, out) := Play(begin, s.file, acts);
       c == s.client && put == s.put && wrq + out == left + s.toServer
  }

  lemma DeviceStep(begin: Client, wrq: seq<Packet>, s: W.System, acts: seq<Act>, left: seq<Packet>, e: W.Event)
    requires DeviceAt(begin, wrq, s, acts, left) && |s.toServer| <= 1
    requires ValidClient(s.client) && R.Sized(s.toClient) && W.Enabled(s, e)
    ensures DeviceAt(begin, wrq, W.Step(s, e), acts + ActOf(s, e), left + Leaves(s, e))
  {
    hide Play, RecvPacket, PutBlock, Serve, R.Block, R.Twice;
    var out := Play(begin, s.file, acts).2;
    if ActOf(s, e) != [] {
      var a := ActOf(s, e)[0];
      PlayMore(begin, s.file, acts, a);
      SentOn(wrq, out, left, s.toServer, Do(s.client, s.put, s.file, a).2);
    } else {
      assert acts + [] == acts;
      if Leaves(s, e) != [] {
        assert s.toServer == Leaves(s, e) + W.Step(s, e).toServer;
      }
    }
  }

  lemma {:induction false} DeviceRun(begin: Client, wrq: seq<Packet>, s: W.System, heard: nat,
      acts: seq<Act>, left: seq<Packet>, events: seq<W.Event>, t: W.System)
    requires DeviceAt(begin, wrq, s, acts, left) && W.GoodWith(s, heard) && W.Reaches(s, events, t)
    ensures DeviceAt(begin, wrq, t, acts + Acts(s, events, t), left + Left(s, events, t))
    decreases |events|
  {
    hide DeviceAt, W.GoodWith, W.Step, W.Enabled, ActOf, Leaves;
    if events == [] {
      assert acts + [] == acts && left + [] == left;
    } else {
      var e, s1 := events[0], W.Step(s, events[0]);
      var heard1 := W.GoodStep(s, heard, e);
      AtMostOnePacket(s, heard);
      DeviceStep(begin, wrq, s, acts, left, e);
      DeviceRun(begin, wrq, s1, heard1, acts + ActOf(s, e), left + Leaves(s, e), events[1..], t);
      Regroup(acts, ActOf(s, e), Acts(s1, events[1..], t));
      Regroup(left, Leaves(s, e), Left(s1, events[1..], t));
    }
  }

  lemma AtMostOnePacket(s: W.System, heard: nat)
    requires W.GoodWith(s, heard)
    ensures |s.toServer| <= 1
  {
  }

  lemma Regroup<T>(a: seq<T>, b: seq<T>, c: seq<T>)
    ensures (a + b) + c == a + (b + c)
  {
  }

  lemma SentOn<T>(request: seq<T>, out: seq<T>, left: seq<T>, underway: seq<T>, more: seq<T>)
    requires request + out == left + underway
    ensures request + (out + more) == left + (underway + more)
  {
    Regroup(request, out, more);
    Regroup(left, underway, more);
  }

  /** recv_file in a write: in every run it plays the acts of the run. They alone lead to its globals and
      the number of blocks put; what it has sent is what has left its channel, in order, and what is
      still under way. */
  lemma WriteIsPlayed(c: Client, name: seq<Byte>, s: W.System, events: seq<W.Event>, t: W.System, file: seq<Byte>)
    requires ValidClient(c) && c.request == NoRq && |name| <= 20 && W.Reaches(s, events, t)
    requires s == W.System(PutFile(c, name).0, file, 0, Fresh([]), PutFile(c, name).1, [], 0)
    ensures var (begin, wrq) := PutFile(c, name);
            && ValidClient(begin) && Playable(Acts(s, events, t))
            && var (client, put, out) := Play(begin, file, Acts(s, events, t));
               client == t.client && put == t.put && wrq + out == Left(s, events, t) + t.toServer
  {
    var (begin, wrq) := PutFile(c, name);
    W.InitialGood(s, file);
    assert DeviceAt(begin, wrq, s, [], []);
    hide W.Step, W.Reaches, Acts, Left, Play, DeviceAt, W.GoodWith;
    DeviceRun(begin, wrq, s, 0, [], [], events, t);
    DeviceEnds(begin, wrq, t, Acts(s, events, t), Left(s, events, t));
    var heard := W.GoodRun(s, 0, events, t);
  }

  lemma DeviceEnds(begin: Client, wrq: seq<Packet>, t: W.System, acts: seq<Act>, left: seq<Packet>)
    requires DeviceAt(begin, wrq, t, [] + acts, [] + left)
    ensures ValidClient(begin) && Playable(acts)
    ensures var (c, put, out) := Play(begin, t.file, acts);
            c == t.client && put == t.put && wrq + out == left + t.toServer
  {
    assert [] + acts == acts && [] + left == left;
  }

  // ---------------------------------------------------------------- send_file in a read

  /** What the probe of a round finds. */
  function ProbeOf(s: R.System, e: R.Event): seq<Option<Packet>>
    requires R.Enabled(s, e)
  {
    match e
    case Idle => [None]
    case Receive => [Some(s.toClient[0])]
    case _ => []
  }

  ghost function Found(s: R.System, events: seq<R.Event>, t: R.System): seq<Option<Packet>>
    requires Safety.Reaches(s, events, t)
    decreases |events|
  {
    if events == [] then [] else ProbeOf(s, events[0]) + Found(R.Step(s, events[0]), events[1..], t)
  }

  function ReadLeaves(s: R.System, e: R.Event): seq<Packet>
    requires R.Enabled(s, e)
  {
    match e
    case ServerTakes => [s.toServer[0]]
    case LoseToServer(i) => [s.toServer[i]]
    case _ => []
  }

  ghost function ReadLeft(s: R.System, events: seq<R.Event>, t: R.System): seq<Packet>
    requires Safety.Reaches(s, events, t)
    decreases |events|
  {
    if events == [] then [] else ReadLeaves(s, events[0]) + ReadLeft(R.Step(s, events[0]), events[1..], t)
  }

  ghost predicate SenderAt(begin: S.Sender, rrq: seq<Packet>, s: R.System, found: seq<Option<Packet>>,
      left: seq<Packet>)
  {
    && S.ValidSender(begin) && S.Deliverables(found)
    && var (sender, acks) := S.Rounds(begin, found);
       sender == s.sender && rrq + acks == left + s.toServer
  }

  lemma SenderStep(begin: S.Sender, rrq: seq<Packet>, s: R.System, found: seq<Option<Packet>>,
      left: seq<Packet>, e: R.Event)
    requires SenderAt(begin, rrq, s, found, left) && |s.toServer| <= 1
    requires S.ValidSender(s.sender) && R.Sized(s.toClient) && R.Enabled(s, e)
    ensures SenderAt(begin, rrq, R.Step(s, e), found + ProbeOf(s, e), left + ReadLeaves(s, e))
  {
    hide S.Rounds, S.Poll, Serve, R.Twice;
    var acks := S.Rounds(begin, found).1;
    if ProbeOf(s, e) != [] {
      var p := ProbeOf(s, e)[0];
      assert (found + [p])[..|found|] == found && (found + [p])[..|found| + 1] == found + [p];
      S.RoundsStep(begin, found + [p], |found|);
      SentOn(rrq, acks, left, s.toServer, S.Poll(s.sender, p).1);
    } else {
      assert found + [] == found;
      if ReadLeaves(s, e) != [] {
        assert s.toServer == ReadLeaves(s, e) + R.Step(s, e).toServer;
      }
    }
  }

  lemma {:induction false} SenderRun(begin: S.Sender, rrq: seq<Packet>, s: R.System, file: seq<Byte>,
      found: seq<Option<Packet>>, left: seq<Packet>, events: seq<R.Event>, t: R.System)
    requires SenderAt(begin, rrq, s, found, left) && Safety.Good(s, file) && file != []
    requires Safety.Reaches(s, events, t)
    ensures SenderAt(begin, rrq, t, found + Found(s, events, t), left + ReadLeft(s, events, t))
    decreases |events|
  {
    hide SenderAt, Safety.Good, R.Step, R.Enabled, ProbeOf, ReadLeaves;
    if events == [] {
      assert found + [] == found && left + [] == left;
    } else {
      var e, s1 := events[0], R.Step(s, events[0]);
      Safety.GoodStep(s, file, e);
      AtMostOneAck(s, file);
      SenderStep(begin, rrq, s, found, left, e);
      SenderRun(begin, rrq, s1, file, found + ProbeOf(s, e), left + ReadLeaves(s, e), events[1..], t);
      Regroup(found, ProbeOf(s, e), Found(s1, events[1..], t));
      Regroup(left, ReadLeaves(s, e), ReadLeft(s1, events[1..], t));
    }
  }

  lemma AtMostOneAck(s: R.System, file: seq<Byte>)
    requires Safety.Good(s, file)
    ensures |s.toServer| <= 1
  {
  }

  /** send_file in a read: in every run it goes through the rounds of the run. What the probes found
      leads to its globals, its buffer and the bytes on the bus; what it has sent is what has left its
      channel, in order, and what is still under way. */
  lemma ReadIsRounds(c: Client, iobuf: seq<Byte>, name: seq<Byte>, s: R.System, events: seq<R.Event>, t: R.System,
      file: seq<Byte>)
    requires ValidClient(c) && c.request == NoRq && |iobuf| == BLKSIZE + 1 && |name| <= 20 && file != []
    requires s == R.System(S.Begin(c, iobuf, name).0, Fresh(file), S.Begin(c, iobuf, name).1, [], 1, 0)
    requires Safety.Reaches(s, events, t)
    ensures var (begin, rrq) := S.Begin(c, iobuf, name);
            && S.ValidSender(begin) && S.Deliverables(Found(s, events, t))
            && var (sender, acks) := S.Rounds(begin, Found(s, events, t));
               sender == t.sender && rrq + acks == ReadLeft(s, events, t) + t.toServer
  {
    var (begin, rrq) := S.Begin(c, iobuf, name);
    assert R.Initial(s, file);
    assert SenderAt(begin, rrq, s, [], []);
    Safety.InitialGood(s, file);
    hide R.Initial, S.Rounds, Safety.Reaches, SenderAt, Safety.Good, Found, ReadLeft;
    SenderRun(begin, rrq, s, file, [], [], events, t);
    SenderEnds(begin, rrq, t, Found(s, events, t), ReadLeft(s, events, t));
  }

  lemma SenderEnds(begin: S.Sender, rrq: seq<Packet>, t: R.System, found: seq<Option<Packet>>, left: seq<Packet>)
    requires SenderAt(begin, rrq, t, [] + found, [] + left)
    ensures S.ValidSender(begin) && S.Deliverables(found)
    ensures var (sender, acks) := S.Rounds(begin, found); sender == t.sender && rrq + acks == left + t.toServer
  {
    assert [] + found == found && [] + left == left;
  }

  // ---------------------------------------------------------------- the server in both

  /** The waits of the server so far, from its fresh object on, and the packets it has sent: none is under
      way to the device that is not one of them. */
  predicate ServerAt(origin: Server, server: Server, toClient: seq<Packet>, sent: nat, waits: seq<Option<Packet>>) {
    var (s, out) := ServeAll(origin, waits);
    s == server && |out| == sent && forall p :: p in toClient ==> p in out
  }

  lemma Served(origin: Server, server: Server, toClient: seq<Packet>, sent: nat, waits: seq<Option<Packet>>, p: Packet)
    requires ServerAt(origin, server, toClient, sent, waits)
    ensures var (s, out) := Serve(server, p);
            ServerAt(origin, s, toClient + out, sent + |out|, waits + [Some(p)])
  {
    hide ServeAll, Serve;
    WaitsMore(origin, waits, Some(p));
  }

  lemma GaveUp(origin: Server, server: Server, toClient: seq<Packet>, sent: nat, waits: seq<Option<Packet>>)
    requires ServerAt(origin, server, toClient, sent, waits) && server.status != Finished
    ensures ServerAt(origin, server.(status := Aborted), toClient, sent, waits + [None])
  {
    hide ServeAll;
    WaitsMore(origin, waits, None);
  }

  lemma WaitsMore(origin: Server, waits: seq<Option<Packet>>, w: Option<Packet>)
    ensures var (s, out) := ServeAll(origin, waits);
            ServeAll(origin, waits + [w]) ==
            match w
            case None => (if s.status == Finished then s else s.(status := Aborted), out)
            case Some(p) => (Serve(s, p).0, out + Serve(s, p).1)
  {
    hide ServeAll, Serve;
    assert (waits + [w])[..|waits|] == waits && (waits + [w])[..|waits| + 1] == waits + [w];
    ServeMore(origin, waits + [w], |waits|);
  }

  /** A first packet and the waits behind it, as `packet` takes them. */
  lemma {:induction false} ServeFirst(s: Server, p: Packet, waits: seq<Option<Packet>>)
    ensures var (s1, out1) := Serve(s, p); var (s2, out2) := ServeAll(s1, waits);
            ServeAll(s, [Some(p)] + waits) == (s2, out1 + out2)
  {
    hide Serve, ServeAll;
    if waits == [] {
      ServeOne(s, p);
      assert [Some(p)] + waits == [Some(p)] && Serve(s, p).1 + [] == Serve(s, p).1;
    } else {
      var front, w := waits[..|waits| - 1], waits[|waits| - 1];
      ServeFirst(s, p, front);
      var (s1, out1) := Serve(s, p);
      var (s2, out2) := ServeAll(s1, front);
      WaitsMore(s, [Some(p)] + front, w);
      WaitsMore(Serve(s, p).0, front, w);
      assert waits == front + [w] && [Some(p)] + waits == ([Some(p)] + front) + [w];
      if w.Some? {
        Regroup(out1, out2, Serve(s2, w.value).1);
      }
    }
  }

  lemma ServeOne(s: Server, p: Packet)
    ensures ServeAll(s, [Some(p)]) == Serve(s, p) && ServeAll(Serve(s, p).0, []) == (Serve(s, p).0, [])
  {
    hide Serve;
    var (s1, out) := Serve(s, p);
    assert [Some(p)][..0] == [] && [] + out == out;
  }

  function WriteWait(s: W.System, e: W.Event): seq<Option<Packet>>
    requires W.Enabled(s, e)
  {
    match e
    case ServerTakes => [Some(s.toServer[0])]
    case GiveUp => [None]
    case _ => []
  }

  ghost function WriteWaits(s: W.System, events: seq<W.Event>, t: W.System): seq<Option<Packet>>
    requires W.Reaches(s, events, t)
    decreases |events|
  {
    if events == [] then [] else WriteWait(s, events[0]) + WriteWaits(W.Step(s, events[0]), events[1..], t)
  }

  lemma WriteWaitStep(origin: Server, s: W.System, waits: seq<Option<Packet>>, e: W.Event)
    requires ServerAt(origin, s.server, s.toClient, s.sentByServer, waits)
    requires ValidClient(s.client) && R.Sized(s.toClient) && W.Enabled(s, e)
    ensures var t := W.Step(s, e); ServerAt(origin, t.server, t.toClient, t.sentByServer, waits + WriteWait(s, e))
  {
    hide ServeAll, Serve, RecvPacket, PutBlock, R.Block;
    match e
    case ServerTakes => Served(origin, s.server, s.toClient, s.sentByServer, waits, s.toServer[0]);
    case GiveUp => GaveUp(origin, s.server, s.toClient, s.sentByServer, waits);
    case _ => assert waits + [] == waits;
  }

  lemma {:induction false} WriteWaitRun(origin: Server, s: W.System, waits: seq<Option<Packet>>,
      events: seq<W.Event>, t: W.System)
    requires ServerAt(origin, s.server, s.toClient, s.sentByServer, waits) && W.Reaches(s, events, t)
    ensures ServerAt(origin, t.server, t.toClient, t.sentByServer, waits + WriteWaits(s, events, t))
    decreases |events|
  {
    hide ServerAt, W.Step, W.Enabled, WriteWait;
    if events == [] {
      assert waits + [] == waits;
    } else {
      var e, s1 := events[0], W.Step(s, events[0]);
      WriteWaitStep(origin, s, waits, e);
      WriteWaitRun(origin, s1, waits + WriteWait(s, e), events[1..], t);
      Regroup(waits, WriteWait(s, e), WriteWaits(s1, events[1..], t));
    }
  }

  /** The server in a write: in every run its object is where the packets it took and its giving up bring
      the packet loop, and every packet on the way to the device is one that this loop sent. */
  lemma WriteIsServed(s: W.System, events: seq<W.Event>, t: W.System, file: seq<Byte>)
    requires W.Initial(s, file) && W.Reaches(s, events, t)
    ensures var (server, out) := ServeAll(Fresh([]), WriteWaits(s, events, t));
            server == t.server && |out| == t.sentByServer && forall p :: p in t.toClient ==> p in out
  {
    hide WriteWaits;
    WriteWaitRun(Fresh([]), s, [], events, t);
    assert [] + WriteWaits(s, events, t) == WriteWaits(s, events, t);
  }

  function ReadWait(s: R.System, e: R.Event): seq<Option<Packet>>
    requires R.Enabled(s, e)
  {
    match e
    case ServerTakes => [Some(s.toServer[0])]
    case GiveUp => [None]
    case _ => []
  }

  ghost function ReadWaits(s: R.System, events: seq<R.Event>, t: R.System): seq<Option<Packet>>
    requires Safety.Reaches(s, events, t)
    decreases |events|
  {
    if events == [] then [] else ReadWait(s, events[0]) + ReadWaits(R.Step(s, events[0]), events[1..], t)
  }

  lemma ReadWaitStep(origin: Server, s: R.System, waits: seq<Option<Packet>>, e: R.Event)
    requires ServerAt(origin, s.server, s.toClient, s.sentByServer, waits)
    requires S.ValidSender(s.sender) && R.Sized(s.toClient) && R.Enabled(s, e)
    ensures var t := R.Step(s, e); ServerAt(origin, t.server, t.toClient, t.sentByServer, waits + ReadWait(s, e))
  {
    hide ServeAll, Serve, S.Poll;
    match e
    case ServerTakes => Served(origin, s.server, s.toClient, s.sentByServer, waits, s.toServer[0]);
    case GiveUp => GaveUp(origin, s.server, s.toClient, s.sentByServer, waits);
    case _ => assert waits + [] == waits;
  }

  lemma {:induction false} ReadWaitRun(origin: Server, s: R.System, waits: seq<Option<Packet>>,
      events: seq<R.Event>, t: R.System)
    requires ServerAt(origin, s.server, s.toClient, s.sentByServer, waits) && Safety.Reaches(s, events, t)
    ensures ServerAt(origin, t.server, t.toClient, t.sentByServer, waits + ReadWaits(s, events, t))
    decreases |events|
  {
    hide ServerAt, R.Step, R.Enabled, ReadWait;
    if events == [] {
      assert waits + [] == waits;
    } else {
      var e, s1 := events[0], R.Step(s, events[0]);
      ReadWaitStep(origin, s, waits, e);
      ReadWaitRun(origin, s1, waits + ReadWait(s, e), events[1..], t);
      Regroup(waits, ReadWait(s, e), ReadWaits(s1, events[1..], t));
    }
  }

  /** The server in a read: the same. */
  lemma ReadIsServed(s: R.System, events: seq<R.Event>, t: R.System, file: seq<Byte>)
    requires R.Initial(s, file) && Safety.Reaches(s, events, t)
    ensures var (server, out) := ServeAll(Fresh(file), ReadWaits(s, events, t));
            server == t.server && |out| == t.sentByServer && forall p :: p in t.toClient ==> p in out
  {
    hide ReadWaits;
    ReadWaitRun(Fresh(file), s, [], events, t);
    assert [] + ReadWaits(s, events, t) == ReadWaits(s, events, t);
  }
}
