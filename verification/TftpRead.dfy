/** A read transfer as a two-party protocol over channels that lose packets both ways and may
    duplicate what the server sends. */
module TftpRead {
  import opened Bytes
  import opened TftpClient
  import opened SendFile
  import opened TftpServer

  /** Device, server and the packets under way, oldest first. The counters record how many packets
      each side has put on its channel. */
  datatype System = System(
    sender: Sender, server: Server,
    toServer: seq<Packet>, toClient: seq<Packet>,
    sentByClient: nat, sentByServer: nat)

  datatype Event =
    | Idle              // a round of send_file with nothing received
    | Receive           // a round of send_file that takes the oldest packet
    | ServerTakes       // the server takes the oldest packet
    | GiveUp            // the server's five seconds are over
    | LoseToServer(i: nat)
    | LoseToClient(i: nat)
    | Duplicate(i: nat) // a packet to the client arrives twice in a row

  function Remove<T>(q: seq<T>, i: nat): seq<T>
    requires i < |q|
  {
    q[..i] + q[i + 1..]
  }

  function Twice<T>(q: seq<T>, i: nat): seq<T>
    requires i < |q|
  {
    q[..i] + [q[i]] + q[i..]
  }

  predicate Sized(q: seq<Packet>) {
    forall k :: 0 <= k < |q| && q[k].Data? ==> |q[k].payload| <= BLKSIZE
  }

  predicate Enabled(s: System, e: Event) {
    match e
    case Idle => s.sender.phase == Fetching
    case Receive => s.sender.phase == Fetching && s.toClient != []
    case ServerTakes => s.toServer != []
    case GiveUp => s.server.status == WaitForAck || s.server.status == WaitForData
    case LoseToServer(i) => i < |s.toServer|
    case LoseToClient(i) => i < |s.toClient|
    case Duplicate(i) => i < |s.toClient|
  }

  function Round(s: System, p: Option<Packet>): System
    requires ValidSender(s.sender) && s.sender.phase == Fetching
    requires p.Some? && p.value.Data? ==> |p.value.payload| <= BLKSIZE
  {
    var (sender, out) := SendFile.Poll(s.sender, p);
    s.(sender := sender, toServer := s.toServer + out, sentByClient := s.sentByClient + |out|)
  }

  function Step(s: System, e: Event): System
    requires ValidSender(s.sender) && Sized(s.toClient) && Enabled(s, e)
  {
    match e
    case Idle => Round(s, None)
    case Receive => Round(s.(toClient := s.toClient[1..]), Some(s.toClient[0]))
    case ServerTakes =>
      var (server, out) := TftpServer.Serve(s.server, s.toServer[0]);
      s.(server := server, toServer := s.toServer[1..], toClient := s.toClient + out,
         sentByServer := s.sentByServer + |out|)
    case GiveUp => s.(server := s.server.(status := Aborted))
    case LoseToServer(i) => s.(toServer := Remove(s.toServer, i))
    case LoseToClient(i) => s.(toClient := Remove(s.toClient, i))
    case Duplicate(i) => s.(toClient := Twice(s.toClient, i))
  }

  /** send_file has sent its request; a fresh server object will take it and read `file`. */
  ghost predicate Initial(s: System, file: seq<Byte>) {
    exists c: Client, iobuf: seq<Byte>, name: seq<Byte> ::
      && ValidClient(c) && c.request == NoRq && |iobuf| == BLKSIZE + 1 && |name| <= 20
      && s == System(Begin(c, iobuf, name).0, Fresh(file), Begin(c, iobuf, name).1, [], 1, 0)
  }

  // ---------------------------------------------------------------- the server's packets

  /** Number of data packets a file takes: one more than its full blocks. */
  function Blocks(file: seq<Byte>): nat {
    |file| / BLKSIZE + 1
  }

  /** Block `n` of a file, counting from 1. */
  function Block(file: seq<Byte>, n: nat): (b: seq<Byte>)
    requires 1 <= n
    ensures |b| <= BLKSIZE
  {
    Chunk(file, BLKSIZE * (n - 1))
  }

  /** The n-th packet of the server, counting from 0: the option acknowledgement, then the blocks. */
  function Nth(file: seq<Byte>, n: nat): Packet {
    if n == 0 then Oack else Data(Wire(n), Block(file, n))
  }

  /** What the file has given after its first `n` blocks. */
  function Upto(file: seq<Byte>, n: nat): seq<Byte> {
    if BLKSIZE * n <= |file| then file[..BLKSIZE * n] else file
  }

  lemma BlockSizes(file: seq<Byte>, n: nat)
    requires 1 <= n
    ensures n < Blocks(file) <==> |Block(file, n)| == BLKSIZE
    ensures n <= Blocks(file) ==> Upto(file, n) == Upto(file, n - 1) + Block(file, n)
    ensures n >= Blocks(file) ==> Upto(file, n) == file
    ensures n < Blocks(file) ==> |Upto(file, n)| == BLKSIZE * n
  {
    if n <= Blocks(file) {
      assert Upto(file, n) == Upto(file, n - 1) + Block(file, n);
    }
  }
}
