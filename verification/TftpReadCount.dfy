/** A read transfer over channels that lose and duplicate nothing: it ends, after an exact number of
    packets. */
module TftpReadCount {
  import opened Bytes
  import opened TftpClient
  import opened SendFile
  import opened TftpServer
  import opened TftpRead
  import opened TftpReadSafety

  /** RRQ, OACK, ACK 0, then a data packet and its acknowledgement for every block. */
  function Total(file: seq<Byte>): nat {
    3 + 2 * (|file| / BLKSIZE + 1)
  }

  /** Packets still to be handled by the party they are meant for, sent or not. */
  function Measure(s: System, file: seq<Byte>): int {
    Total(file) - s.sentByClient - s.sentByServer + |s.toServer| + |s.toClient|
  }

  predicate Delivery(e: Event) {
    e.Receive? || e.ServerTakes?
  }

  function Deliveries(events: seq<Event>): nat {
    if events == [] then 0 else (if Delivery(events[0]) then 1 else 0) + Deliveries(events[1..])
  }

  predicate Reliable(events: seq<Event>) {
    forall e :: e in events ==> e.Idle? || Delivery(e)
  }

  /** Exactly one packet is under way until the server has finished, and it is the one in turn. */
  ghost predicate InTurn(s: System, file: seq<Byte>) {
    var n, a := s.sentByServer, s.sentByClient - 1;
    && ValidSender(s.sender) && a >= 0 && Blocks(file) <= LAST_BLOCK
    && Serving(s.server, file, n)
    && (Waiting(s.sender, file, a) || Complete(s.sender, file, a))
    && (if n == 0 then a == 0 && s.toServer == [Rrq] && s.toClient == []
        else if a == n - 1 then
          s.server.status == WaitForAck && s.toServer == [] && s.toClient == [Nth(file, a)]
        else
          && a == n && s.toClient == [] && a <= LAST_BLOCK + 1
          && if s.server.status == Finished then n == Blocks(file) + 1 && s.toServer == []
             else s.server.status == WaitForAck && s.toServer == [Ack(a - 1)])
  }

  /** A round without a packet changes nothing; a delivery brings the end one packet nearer. */
  lemma TurnStep(s: System, file: seq<Byte>, e: Event)
    requires InTurn(s, file) && file != [] && Sized(s.toClient) && Enabled(s, e) && (e.Idle? || Delivery(e))
    ensures InTurn(Step(s, e), file)
    ensures Measure(Step(s, e), file) == Measure(s, file) - (if Delivery(e) then 1 else 0)
  {
    hide Waiting, Complete, Serving, Nth, SendFile.Poll, Serve, Total;
    var n, a := s.sentByServer, s.sentByClient - 1;
    match e
    case Idle =>
      Fetches(s.sender, file, a);
      WaitsIdle(s.sender, file, a);
      assert s.toServer + [] == s.toServer;
    case Receive =>
      Fetches(s.sender, file, a);
      TakesNext(s.sender, file, a);
    case ServerTakes =>
      if n == 0 {
        Starts(s.server, file);
      } else {
        ServerAnswers(s.server, file, n);
      }
    case _ =>
  }

  lemma Fetches(s: Sender, file: seq<Byte>, a: nat)
    requires s.phase == Fetching && (Waiting(s, file, a) || Complete(s, file, a))
    ensures Waiting(s, file, a) && a <= Blocks(file)
  {
  }

  /** While something is to be handled a delivery is possible; when nothing is, both sides are done. */
  lemma Progress(s: System, file: seq<Byte>)
    requires InTurn(s, file)
    ensures Measure(s, file) >= 0
    ensures Measure(s, file) > 0 ==> Enabled(s, Receive) || Enabled(s, ServerTakes)
    ensures Measure(s, file) == 0 ==>
      && s.sender.phase == Sent && s.sender.out.log == Mark(file, true) && s.server.status == Finished
      && s.sentByClient + s.sentByServer == Total(file)
  {
  }

  lemma {:induction false} TurnRun(s: System, events: seq<Event>, t: System, file: seq<Byte>)
    requires InTurn(s, file) && file != [] && Reaches(s, events, t) && Reliable(events)
    ensures InTurn(t, file) && Measure(t, file) + Deliveries(events) == Measure(s, file)
    decreases |events|
  {
    hide InTurn, Measure, Step;
    if events != [] {
      TurnStep(s, file, events[0]);
      assert events[0] in events;
      TurnRun(Step(s, events[0]), events[1..], t, file);
    }
  }

  /** Over reliable channels a read of a nonempty file of at most 65535 blocks delivers exactly
      3 + 2 * (|file| / 256 + 1) packets and then has handed over the whole file; before that it can
      always go on, whatever idle rounds come between. */
  lemma ReadCount(s: System, events: seq<Event>, t: System, file: seq<Byte>)
    requires Initial(s, file) && file != [] && Blocks(file) <= LAST_BLOCK
    requires Reaches(s, events, t) && Reliable(events)
    ensures var total := 3 + 2 * (|file| / 256 + 1);
            && Deliveries(events) <= total
            && (Deliveries(events) < total ==> Enabled(t, Receive) || Enabled(t, ServerTakes))
            && (Deliveries(events) == total ==>
                  && t.sender.phase == Sent && t.sender.out.log == Mark(file, true) && t.server.status == Finished
                  && t.sentByClient + t.sentByServer == total)
  {
    InitialGood(s, file);
    StartsInTurn(s, file);
    TurnRun(s, events, t, file);
    Progress(t, file);
  }

  lemma StartsInTurn(s: System, file: seq<Byte>)
    requires Initial(s, file) && Good(s, file) && Blocks(file) <= LAST_BLOCK
    ensures InTurn(s, file) && Measure(s, file) == Total(file)
  {
  }
}
