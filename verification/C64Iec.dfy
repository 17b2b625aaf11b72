/** The sketch's file loops: send_file towards the C64, recv_file from it. */
module C64Iec {
  import opened Bytes
  import opened TftpClient
  import opened TftpDevice
  import TftpWire
  import S = SendFile
  import R = TftpRead
  import W = RecvFile

  class Sketch {
    const tftp: Tftp
    const iobuf: array<Byte>
    var log: seq<(Byte, bool)>  // put_byte calls

    constructor (tftp: Tftp)
      ensures this.tftp == tftp && fresh(iobuf) && iobuf.Length == BLKSIZE + 1 && log == []
    {
      this.tftp := tftp;
      iobuf := new Byte[BLKSIZE + 1](_ => 0);
      log := [];
    }

    ghost predicate Valid()
      reads this, tftp, tftp.data
    {
      ValidClient(tftp.State()) && iobuf.Length == BLKSIZE + 1 && iobuf != tftp.data
    }

    method PutByte(value: Byte, eoi: bool)
      modifies `log
      ensures log == old(log) + [(value, eoi)]
    {
      log := log + [(value, eoi)];
    }

    method PutBytes(n: nat)
      requires n <= iobuf.Length
      modifies `log
      ensures log == old(log) + S.Mark(iobuf[..n], false)
    {
      var i := 0;
      assert log + S.Mark(iobuf[..0], false) == log;
      while i < n
        invariant 0 <= i <= n
        invariant log == old(log) + S.Mark(iobuf[..i], false)
      {
        PutByte(iobuf[i], false);
        i := i + 1;
        S.MarkJoin(iobuf[..i - 1], [iobuf[i - 1]], false);
        assert iobuf[..i] == iobuf[..i - 1] + [iobuf[i - 1]];
      }
    }

    /** Sends a block that lies in iobuf behind the held byte, and holds its last byte back unless it
        is the file's last. */
    method SendBlock(n: nat, atStart: bool, offset: nat, eoi: bool, ghost o: S.Out, ghost block: seq<Byte>)
      requires iobuf.Length == BLKSIZE + 1 && n == |block| <= BLKSIZE && (n > 0 || eoi)
      requires S.ValidOut(o) && o.atStart == atStart && o.offset == offset && o.log == log
      requires iobuf[..] == Overlay(o.iobuf, offset, block)
      modifies `log, iobuf
      ensures S.Deliver(o, block, eoi) ==
        S.Out(iobuf[..], if eoi then atStart else false, if eoi then offset else 1, log)
    {
      hide S.Mark;
      if n > 0 {
        PutBytes(n - 1 + offset);
        if eoi {
          if atStart {
            PutByte(iobuf[n - 1], eoi);
          } else {
            PutByte(iobuf[n], eoi);
          }
        }
      } else if eoi {
        PutByte(iobuf[0], true);
      }
      if !eoi {
        iobuf[0] := iobuf[BLKSIZE - 1 + offset];
      }
    }

    /** send_file over what its probes find. It runs until the last block has been sent, an error packet
        arrives, or the arrivals recorded here are used up; `result` is its return value, if any. */
    method SendFile(name: seq<Byte>, arrivals: seq<Option<Packet>>) returns (result: Option<bool>, used: nat)
      requires Valid() && S.Deliverables(arrivals)
      modifies this, iobuf, tftp, tftp.data
      ensures Valid() && used <= |arrivals|
      ensures S.Deliverables(arrivals[..used])
      ensures var (begin, rrq) := S.Begin(old(tftp.State()), old(iobuf[..]), name);
        var (sender, acks) := S.Rounds(begin, arrivals[..used]);
        && tftp.sent == old(tftp.sent) + rrq + acks
        && sender.client == tftp.State() && log == sender.out.log
        && (result == Some(true) <==> sender.phase == S.Sent)
        && (result == Some(false) <==> sender.phase == S.Failed)
        && (result == None ==> used == |arrivals|)
    {
      log := [];
      ghost var begin, rrq := S.Begin(tftp.State(), iobuf[..], name).0, S.Begin(tftp.State(), iobuf[..], name).1;
      ghost var before := tftp.sent + rrq;
      tftp.GetFile(name);
      assert before + [] == before;
      result, used := SendLoop(arrivals, begin, before);
    }

    /** The outer loop of send_file. */
    method SendLoop(arrivals: seq<Option<Packet>>, ghost begin: S.Sender, ghost before: seq<Packet>)
      returns (result: Option<bool>, used: nat)
      requires Valid() && S.Deliverables(arrivals) && (tftp.request == Reading ==> !tftp.error)
      requires AtRound(begin, [], before, true, 0, if tftp.request != Reading then S.Sent else S.Fetching)
      modifies `log, iobuf, tftp, tftp.data
      ensures Valid() && used <= |arrivals| && S.Deliverables(arrivals[..used]) && S.ValidSender(begin)
      ensures var (sender, acks) := S.Rounds(begin, arrivals[..used]);
        && tftp.sent == before + acks
        && sender.client == tftp.State() && log == sender.out.log
        && (result == Some(true) <==> sender.phase == S.Sent)
        && (result == Some(false) <==> sender.phase == S.Failed)
        && (result == None ==> used == |arrivals|)
    {
      hide S.Deliver, S.Poll, S.Fetch, S.Mark, S.Rounds;
      var eoi, atStart, offset := false, true, 0;
      used := 0;
      assert arrivals[..used] == [];
      while !eoi && tftp.request == Reading
        invariant Valid() && used <= |arrivals| && (offset == if atStart then 0 else 1)
        invariant tftp.request == Reading ==> !tftp.error
        invariant AtRound(begin, arrivals[..used], before, atStart, offset,
          if eoi || tftp.request != Reading then S.Sent else S.Fetching)
        decreases |arrivals| - used
      {
        ghost var o := S.Out(iobuf[..], atStart, offset, log);
        var fetched, unsent;
        ghost var block;
        fetched, unsent, eoi, used, block := AwaitBlock(arrivals, used, offset, begin, before, o);
        if !fetched {
          return if tftp.error then Some(false) else None, used;
        }
        SendBlock(unsent, atStart, offset, eoi, o, block);
        if !eoi {
          offset := 1;
          atStart := false;
        }
      }
      return Some(true), used;
    }

    /** The inner loop of send_file: probe and ask until there is data or the transfer has ended.
        `fetched` is false when an error packet or the end of the recorded arrivals came first. */
    method AwaitBlock(arrivals: seq<Option<Packet>>, start: nat, offset: nat,
        ghost begin: S.Sender, ghost before: seq<Packet>, ghost o: S.Out)
        returns (fetched: bool, unsent: nat, eoi: bool, used: nat, ghost block: seq<Byte>)
      requires Valid() && start <= |arrivals| && tftp.request == Reading && !tftp.error
      requires S.Deliverables(arrivals)
      requires S.ValidOut(o) && o.offset == offset && o == S.Out(iobuf[..], o.atStart, offset, log)
      requires AtRound(begin, arrivals[..start], before, o.atStart, offset, S.Fetching)
      modifies iobuf, tftp, tftp.data
      ensures Valid() && start <= used <= |arrivals| && (fetched ==> start < used)
      ensures fetched ==>
        && unsent == |block| && (unsent > 0 || eoi) && (eoi <==> tftp.request != Reading) && !tftp.error
        && Pending(begin, arrivals[..used], before, o, block, if eoi then S.Sent else S.Fetching)
      ensures !fetched && !tftp.error ==>
        used == |arrivals| && AtRound(begin, arrivals[..used], before, o.atStart, offset, S.Fetching)
      ensures !fetched && tftp.error ==> Failed(begin, arrivals[..used], before, o)
    {
      hide *;
      unsent, eoi, used, block := 0, false, start, [];
      NothingPending(begin, arrivals[..used], before, o);
      while unsent == 0 && tftp.request == Reading
        invariant Valid() && start <= used <= |arrivals| && !eoi && unsent == |block| && tftp.request == Reading
        invariant !tftp.error && (unsent > 0 ==> start < used)
        invariant Pending(begin, arrivals[..used], before, o, block, S.Fetching)
        decreases |arrivals| - used, unsent == 0
      {
        ghost var was, sent := tftp.State(), tftp.sent;
        Idles(begin, arrivals[..used], before, o);
        if used == |arrivals| {
          return false, 0, false, used, [];
        }
        CanFetch(was, o, arrivals, used);
        block := S.Fetch(was, arrivals[used]).1;
        unsent := Fetch(arrivals[used], offset);
        Polled(begin, arrivals, used, before, o, was, sent);
        used := used + 1;
        if tftp.error {
          return false, 0, false, used, [];
        }
        if tftp.request != Reading {
          eoi := true;
          break;
        }
      }
      fetched := true;
    }

    lemma NothingPending(begin: S.Sender, arrivals: seq<Option<Packet>>, before: seq<Packet>, o: S.Out)
      requires S.ValidOut(o) && o == S.Out(iobuf[..], o.atStart, o.offset, log)
      requires AtRound(begin, arrivals, before, o.atStart, o.offset, S.Fetching)
      ensures Pending(begin, arrivals, before, o, [], S.Fetching)
    {
      hide S.Deliver, S.Rounds;
      assert Overlay(o.iobuf, o.offset, []) == o.iobuf;
    }

    /** With nothing fetched, the loop stands where its last round left it. */
    lemma Idles(begin: S.Sender, arrivals: seq<Option<Packet>>, before: seq<Packet>, o: S.Out)
      requires Pending(begin, arrivals, before, o, [], S.Fetching)
      ensures AtRound(begin, arrivals, before, o.atStart, o.offset, S.Fetching)
      ensures S.ValidSender(begin) && S.Deliverables(arrivals) && ValidClient(tftp.State()) && S.ValidOut(o)
      ensures S.Rounds(begin, arrivals).0 == S.Sender(tftp.State(), o, S.Fetching)
      ensures tftp.sent == before + S.Rounds(begin, arrivals).1
      ensures iobuf[..] == o.iobuf && log == o.log
    {
      hide S.Deliver, S.Rounds;
      assert Overlay(o.iobuf, o.offset, []) == o.iobuf;
    }

    lemma CanFetch(was: Client, o: S.Out, arrivals: seq<Option<Packet>>, used: nat)
      requires S.Deliverables(arrivals) && used < |arrivals| && S.ValidOut(o)
      ensures S.Deliverable(arrivals[used]) && o.offset <= 1
    {
    }

    /** A round has fetched what the rounds say. */
    lemma Polled(begin: S.Sender, arrivals: seq<Option<Packet>>, used: nat, before: seq<Packet>, o: S.Out,
        was: Client, sent: seq<Packet>)
      requires S.ValidSender(begin) && S.Deliverables(arrivals) && used < |arrivals| && S.ValidOut(o)
      requires S.Deliverables(arrivals[..used]) && ValidClient(was) && S.Deliverable(arrivals[used])
      requires S.Rounds(begin, arrivals[..used]).0 == S.Sender(was, o, S.Fetching)
      requires sent == before + S.Rounds(begin, arrivals[..used]).1 && log == o.log
      requires var (c, block, acks) := S.Fetch(was, arrivals[used]);
        && tftp.State() == c && tftp.sent == sent + acks
        && (!tftp.error ==> iobuf[..] == Overlay(o.iobuf, o.offset, block))
      ensures tftp.error ==> Failed(begin, arrivals[..used + 1], before, o)
      ensures !tftp.error ==>
        Pending(begin, arrivals[..used + 1], before, o, S.Fetch(was, arrivals[used]).1,
          if tftp.request != Reading then S.Sent else S.Fetching)
    {
      hide S.Deliver, S.Rounds, S.Fetch;
      S.RoundOn(begin, arrivals, used, was, o);
      Appended(before, S.Rounds(begin, arrivals[..used]).1, S.Fetch(was, arrivals[used]).2);
    }

    lemma Appended(a: seq<Packet>, b: seq<Packet>, c: seq<Packet>)
      ensures (a + b) + c == a + (b + c)
    {
    }

    /** An error packet ended the rounds. */
    ghost predicate Failed(begin: S.Sender, arrivals: seq<Option<Packet>>, before: seq<Packet>, o: S.Out)
      reads this, tftp, tftp.data
    {
      && S.ValidSender(begin) && S.Deliverables(arrivals)
      && var (sender, acks) := S.Rounds(begin, arrivals);
         tftp.sent == before + acks && sender == S.Sender(tftp.State(), o, S.Failed) && log == o.log
    }

    /** A probe for a packet, then the request for a block behind the held byte. */
    method Fetch(p: Option<Packet>, at: nat) returns (n: nat)
      requires Valid() && S.Deliverable(p) && at <= 1
      modifies iobuf, tftp, tftp.data
      ensures Valid()
      ensures var (c, block, acks) := S.Fetch(old(tftp.State()), p);
        && tftp.State() == c && tftp.sent == old(tftp.sent) + acks && n == |block|
        && (!tftp.error ==> iobuf[..] == Overlay(old(iobuf[..]), at, block))
    {
      n := 0;
      ghost var sent := tftp.sent;
      if p.Some? {
        tftp.RecvPacket(p.value);
      }
      if !tftp.error {
        n := tftp.GetBlock(iobuf, at);
      }
    }

    /** The loop stands where the rounds so far have brought it. */
    ghost predicate AtRound(begin: S.Sender, arrivals: seq<Option<Packet>>, before: seq<Packet>, atStart: bool,
        offset: nat, phase: S.Phase)
      reads this, iobuf, tftp, tftp.data
    {
      && S.ValidSender(begin) && S.Deliverables(arrivals)
      && var (sender, acks) := S.Rounds(begin, arrivals);
         && tftp.sent == before + acks
         && sender == S.Sender(tftp.State(), S.Out(iobuf[..], atStart, offset, log), phase)
    }

    /** The rounds so far fetched `block`, which lies in iobuf but has not been sent on. */
    ghost predicate Pending(begin: S.Sender, arrivals: seq<Option<Packet>>, before: seq<Packet>,
        o: S.Out, block: seq<Byte>, phase: S.Phase)
      reads this, iobuf, tftp, tftp.data
    {
      && S.ValidSender(begin) && S.Deliverables(arrivals)
      && S.ValidOut(o) && |block| <= BLKSIZE && iobuf[..] == Overlay(o.iobuf, o.offset, block) && log == o.log
      && var (sender, acks) := S.Rounds(begin, arrivals);
         && tftp.sent == before + acks
         && var out := if block == [] && phase == S.Fetching then o else S.Deliver(o, block, phase == S.Sent);
            sender == S.Sender(tftp.State(), out, phase)
    }

    /** recv_file stands between two probes, having met the first `used` arrivals: `put` blocks have gone out
        and `i` bytes have been read. */
    ghost predicate Between(begin: Client, before: seq<Packet>, input: seq<Byte>, arrivals: seq<Option<Packet>>,
        used: nat, put: nat, i: nat, phase: W.Phase)
      reads tftp, tftp.data
    {
      && ValidClient(begin) && used <= |arrivals| && S.Deliverables(arrivals[..used])
      && W.Sessions(begin, before, input, arrivals[..used]) == W.Session(tftp.State(), put, i, phase, tftp.sent)
    }

    /** It stands where block `put + 1` is offered. */
    ghost predicate Offering(begin: Client, before: seq<Packet>, input: seq<Byte>, arrivals: seq<Option<Packet>>,
        used: nat, put: nat, i: nat)
      reads tftp, tftp.data
    {
      && ValidClient(begin) && used <= |arrivals| && S.Deliverables(arrivals[..used]) && ValidClient(tftp.State())
      && W.Sessions(begin, before, input, arrivals[..used]) ==
         W.Offered(W.Session(tftp.State(), put, i, W.Waiting, tftp.sent), input)
    }

    /** ethernet_probe_for_packet */
    method Probe(p: Option<Packet>)
      requires Valid() && S.Deliverable(p)
      modifies tftp, tftp.data
      ensures Valid()
      ensures var (c, out) := W.Probed(old(tftp.State()), p); tftp.State() == c && tftp.sent == old(tftp.sent) + out
    {
      assert tftp.sent + [] == tftp.sent;
      if p.Some? {
        tftp.RecvPacket(p.value);
      }
    }

    /** One call of tftp_put_block. */
    method Offer(size: nat, ghost begin: Client, ghost before: seq<Packet>, ghost input: seq<Byte>,
        ghost arrivals: seq<Option<Packet>>, ghost used: nat, ghost put: nat, ghost i: nat) returns (accepted: bool)
      requires Valid() && size <= BLKSIZE && Offering(begin, before, input, arrivals, used, put, i)
      requires put < R.Blocks(input) && iobuf[..size] == R.Block(input, put + 1)
      modifies tftp, tftp.data
      ensures Valid()
      ensures !accepted ==> Between(begin, before, input, arrivals, used, put, i, W.Waiting)
      ensures accepted && i < |input| ==> Between(begin, before, input, arrivals, used, put + 1, i, W.Gathering)
      ensures accepted && i >= |input| ==> Offering(begin, before, input, arrivals, used, put + 1, i)
    {
      hide PutBlock, W.Offered, W.Sessions, R.Block, R.Blocks, Between, Offering, Known, ValidClient, Overlay;
      hide TftpWire.ReadPacket;
      ghost var was := tftp.State();
      ghost var sent := tftp.sent;
      OfferUnfolds(begin, before, input, arrivals, used, put, i);
      accepted := tftp.PutBlock(iobuf, size);
      Answered(begin, before, input, arrivals, used, put, i, was, sent);
    }

    lemma OfferUnfolds(begin: Client, before: seq<Packet>, input: seq<Byte>, arrivals: seq<Option<Packet>>,
        used: nat, put: nat, i: nat)
      requires Offering(begin, before, input, arrivals, used, put, i)
      ensures Known(arrivals, used, begin, before, input) && ValidClient(tftp.State())
      ensures W.Sessions(begin, before, input, arrivals[..used]) ==
              W.Offered(W.Session(tftp.State(), put, i, W.Waiting, tftp.sent), input)
    {
    }

    /** After an offer, recv_file stands where the session says. */
    lemma Answered(begin: Client, before: seq<Packet>, input: seq<Byte>, arrivals: seq<Option<Packet>>,
        used: nat, put: nat, i: nat, was: Client, sent: seq<Packet>)
      requires Known(arrivals, used, begin, before, input) && ValidClient(was) && put < R.Blocks(input)
      requires W.Sessions(begin, before, input, arrivals[..used]) ==
               W.Offered(W.Session(was, put, i, W.Waiting, sent), input)
      requires var (c, accepted, out) := PutBlock(was, R.Block(input, put + 1));
               tftp.State() == c && tftp.sent == sent + out
      ensures var accepted := PutBlock(was, R.Block(input, put + 1)).1;
              && (!accepted ==> Between(begin, before, input, arrivals, used, put, i, W.Waiting))
              && (accepted && i < |input| ==> Between(begin, before, input, arrivals, used, put + 1, i, W.Gathering))
              && (accepted && i >= |input| ==> Offering(begin, before, input, arrivals, used, put + 1, i))
    {
      hide PutBlock, W.Offered, W.Sessions, R.Block, R.Blocks;
      W.OfferedOnce(W.Session(was, put, i, W.Waiting, sent), input);
      W.PutKeepsValid(was, R.Block(input, put + 1));
    }

    /** The waiting loop around tftp_put_block: offer the block, probe, offer again. */
    method Put(size: nat, arrivals: seq<Option<Packet>>, start: nat, ghost begin: Client,
        ghost before: seq<Packet>, ghost input: seq<Byte>, ghost put: nat, ghost i: nat)
        returns (accepted: bool, used: nat)
      requires Valid() && size <= BLKSIZE && start <= |arrivals| && S.Deliverables(arrivals)
      requires Offering(begin, before, input, arrivals, start, put, i)
      requires put < R.Blocks(input) && iobuf[..size] == R.Block(input, put + 1)
      modifies tftp, tftp.data
      ensures Valid() && start <= used <= |arrivals|
      ensures !accepted ==> used == |arrivals| && Between(begin, before, input, arrivals, used, put, i, W.Waiting)
      ensures accepted && i < |input| ==> Between(begin, before, input, arrivals, used, put + 1, i, W.Gathering)
      ensures accepted && i >= |input| ==> Offering(begin, before, input, arrivals, used, put + 1, i)
    {
      hide R.Block, R.Blocks, Between, Offering, S.Deliverables, ValidClient;
      used := start;
      accepted := Offer(size, begin, before, input, arrivals, used, put, i);
      while !accepted && used < |arrivals|
        invariant Valid() && start <= used <= |arrivals| && iobuf[..] == old(iobuf[..])
        invariant !accepted ==> Between(begin, before, input, arrivals, used, put, i, W.Waiting)
        invariant accepted && i < |input| ==> Between(begin, before, input, arrivals, used, put + 1, i, W.Gathering)
        invariant accepted && i >= |input| ==> Offering(begin, before, input, arrivals, used, put + 1, i)
        decreases |arrivals| - used
      {
        ProbeWaiting(arrivals, used, begin, before, input, put, i);
        used := used + 1;
        accepted := Offer(size, begin, before, input, arrivals, used, put, i);
      }
    }

    /** A probe while a block waits. */
    method ProbeWaiting(arrivals: seq<Option<Packet>>, used: nat, ghost begin: Client, ghost before: seq<Packet>,
        ghost input: seq<Byte>, ghost put: nat, ghost i: nat)
      requires Valid() && used < |arrivals| && S.Deliverables(arrivals)
      requires Between(begin, before, input, arrivals, used, put, i, W.Waiting)
      modifies tftp, tftp.data
      ensures Valid() && Offering(begin, before, input, arrivals, used + 1, put, i)
    {
      hide W.Probed, W.Offered, W.Sessions;
      W.SessionOn(begin, before, input, arrivals, used);
      Probe(arrivals[used]);
    }

    /** recv_file for a C64 that sends `input`, EOI with its last byte: it does what the session over its
        probes does. It returns true exactly when every block is put, the full ones and then one that is
        shorter, and false exactly when an error packet came, or no write is in progress, with a block still
        unput. `None` means the arrivals recorded here were used up first. */
    method RecvFile(name: seq<Byte>, input: seq<Byte>, arrivals: seq<Option<Packet>>)
      returns (result: Option<bool>, used: nat)
      requires Valid() && input != [] && S.Deliverables(arrivals)
      modifies iobuf, tftp, tftp.data
      ensures Valid() && used <= |arrivals| && S.Deliverables(arrivals[..used])
      ensures var (begin, wrq) := PutFile(old(tftp.State()), name);
        && ValidClient(begin)
        && var s := W.Sessions(begin, old(tftp.sent) + wrq, input, arrivals[..used]);
           && tftp.State() == s.client && tftp.sent == s.sent
           && (result == Some(true) <==> s.put == R.Blocks(input))
           && (result == Some(true) <==> s.phase == W.Stored) && (result == Some(false) <==> s.phase == W.Refused)
      ensures result == Some(false) ==> tftp.error || tftp.request != Writing
      ensures result == None ==> used == |arrivals|
    {
      ghost var begin, wrq := PutFile(tftp.State(), name).0, PutFile(tftp.State(), name).1;
      ghost var before := tftp.sent + wrq;
      tftp.PutFile(name);
      result, used := RecvLoop(input, arrivals, begin, before);
    }

    /** The loop over the bytes of the C64. */
    method RecvLoop(input: seq<Byte>, arrivals: seq<Option<Packet>>, ghost begin: Client, ghost before: seq<Packet>)
      returns (result: Option<bool>, used: nat)
      requires Valid() && input != [] && S.Deliverables(arrivals)
      requires tftp.State() == begin && !begin.error && tftp.sent == before
      modifies iobuf, tftp, tftp.data
      ensures Valid() && used <= |arrivals| && ValidClient(begin) && S.Deliverables(arrivals[..used])
      ensures var s := W.Sessions(begin, before, input, arrivals[..used]);
        && tftp.State() == s.client && tftp.sent == s.sent
        && (result == Some(true) <==> s.put == R.Blocks(input))
        && (result == Some(true) <==> s.phase == W.Stored) && (result == Some(false) <==> s.phase == W.Refused)
      ensures result == Some(false) ==> tftp.error || tftp.request != Writing
      ensures result == None ==> used == |arrivals|
    {
      hide R.Block, R.Blocks, W.Sessions, Gathered, Between, Offering, ValidClient, S.Deliverables;
      var a, i, eoi := 0, 0, false;
      ghost var put: nat := 0;
      used := 0;
      Starting(input, arrivals, begin, before);
      while !eoi
        invariant Valid() && used <= |arrivals|
        invariant Between(begin, before, input, arrivals, used, put, i, if eoi then W.Stored else W.Gathering)
        invariant !eoi ==> a < BLKSIZE && i < |input| && Gathered(input, a, i, put)
        decreases |input| - i, !eoi
      {
        if used == |arrivals| {
          Stands(begin, before, input, arrivals, used, put, i, W.Gathering);
          return None, used;
        }
        eoi := NextByte(input, arrivals, used, a, i, begin, before, put);
        used, a, i := used + 1, a + 1, i + 1;
        if tftp.request != Writing || tftp.error {
          Stands(begin, before, input, arrivals, used, put, i, W.Refused);
          return Some(false), used;
        }
        if a == BLKSIZE || eoi {
          var ok;
          ok, used, put := PutFilled(a, i, eoi, arrivals, used, begin, before, input, put);
          if !ok {
            Stands(begin, before, input, arrivals, used, put, i, W.Waiting);
            return None, used;
          }
          a := 0;
        }
      }
      Stands(begin, before, input, arrivals, used, put, i, W.Stored);
      return Some(true), used;
    }

    lemma Stands(begin: Client, before: seq<Packet>, input: seq<Byte>, arrivals: seq<Option<Packet>>,
        used: nat, put: nat, i: nat, phase: W.Phase)
      requires input != [] && !begin.error && Between(begin, before, input, arrivals, used, put, i, phase)
      ensures ValidClient(begin) && used <= |arrivals| && S.Deliverables(arrivals[..used])
      ensures W.Sessions(begin, before, input, arrivals[..used]) == W.Session(tftp.State(), put, i, phase, tftp.sent)
      ensures phase == W.Stored <==> put == R.Blocks(input)
    {
      hide W.Sessions;
      W.SessionInOrder(begin, before, input, arrivals[..used]);
    }

    lemma Starting(input: seq<Byte>, arrivals: seq<Option<Packet>>, begin: Client, before: seq<Packet>)
      requires Valid() && tftp.State() == begin && tftp.sent == before
      ensures Gathered(input, 0, 0, 0) && Between(begin, before, input, arrivals, 0, 0, 0, W.Gathering)
    {
    }

    /** A block is complete: it is put, and behind a full last block an empty one. */
    method PutFilled(a: nat, i: nat, eoi: bool, arrivals: seq<Option<Packet>>, start: nat, ghost begin: Client,
        ghost before: seq<Packet>, ghost input: seq<Byte>, ghost put: nat)
        returns (ok: bool, used: nat, ghost put': nat)
      requires Valid() && start <= |arrivals| && S.Deliverables(arrivals)
      requires Offering(begin, before, input, arrivals, start, put, i)
      requires Gathered(input, a, i, put) && (a == BLKSIZE || eoi) && (eoi <==> i == |input|)
      modifies tftp, tftp.data
      ensures Valid() && start <= used <= |arrivals|
      ensures ok ==>
        Between(begin, before, input, arrivals, used, put', i, if eoi then W.Stored else W.Gathering)
      ensures ok && !eoi ==> Gathered(input, 0, i, put')
      ensures !ok ==> used == |arrivals| && Between(begin, before, input, arrivals, used, put', i, W.Waiting)
    {
      hide R.Block, R.Blocks, Between, Offering, S.Deliverables, ValidClient;
      W.BlockAt(input, put, a, i);
      put' := put;
      ok, used := Put(a, arrivals, start, begin, before, input, put', i);
      put' := if ok then put + 1 else put;
      if ok && a == BLKSIZE && eoi {
        W.BlockAt(input, put', 0, i);
        assert iobuf[..0] == input[i..i];
        ok, used := Put(0, arrivals, used, begin, before, input, put', i);
        put' := if ok then put' + 1 else put';
      }
      if ok && eoi {
        AllPut(begin, before, input, arrivals, used, put', i);
      }
      assert iobuf[..0] == input[i..i];
    }

    lemma AllPut(begin: Client, before: seq<Packet>, input: seq<Byte>, arrivals: seq<Option<Packet>>,
        used: nat, put: nat, i: nat)
      requires Offering(begin, before, input, arrivals, used, put, i) && put >= R.Blocks(input)
      ensures Between(begin, before, input, arrivals, used, put, i, W.Stored)
    {
      hide W.Sessions;
    }

    /** A probe for a packet, then the next byte. */
    method NextByte(input: seq<Byte>, arrivals: seq<Option<Packet>>, used: nat, a: nat, i: nat,
        ghost begin: Client, ghost before: seq<Packet>, ghost put: nat) returns (eoi: bool)
      requires Valid() && used < |arrivals| && S.Deliverables(arrivals)
      requires Between(begin, before, input, arrivals, used, put, i, W.Gathering)
      requires Gathered(input, a, i, put) && a < BLKSIZE && i < |input|
      modifies iobuf, tftp, tftp.data
      ensures Valid() && Gathered(input, a + 1, i + 1, put) && i + 1 <= |input| && (eoi <==> i + 1 == |input|)
      ensures if tftp.request != Writing || tftp.error
              then Between(begin, before, input, arrivals, used + 1, put, i + 1, W.Refused)
              else if a + 1 == BLKSIZE || eoi then Offering(begin, before, input, arrivals, used + 1, put, i + 1)
              else Between(begin, before, input, arrivals, used + 1, put, i + 1, W.Gathering)
    {
      hide *;
      ghost var was := tftp.State();
      ghost var sent := tftp.sent;
      Unfolds(arrivals, used, begin, before, input, put, i);
      Probe(arrivals[used]);
      GatheredMore(input, a, i, put);
      eoi := GetByte(input, a, i, put);
      Fed(arrivals, used, begin, before, input, put, i, was, sent);
    }

    lemma GatheredMore(input: seq<Byte>, a: nat, i: nat, put: nat)
      requires Gathered(input, a, i, put)
      ensures i + 1 == BLKSIZE * (put + 1) <==> a + 1 == BLKSIZE
    {
    }

    lemma Unfolds(arrivals: seq<Option<Packet>>, used: nat, begin: Client, before: seq<Packet>, input: seq<Byte>,
        put: nat, i: nat)
      requires used < |arrivals| && S.Deliverables(arrivals)
      requires Between(begin, before, input, arrivals, used, put, i, W.Gathering)
      ensures S.Deliverable(arrivals[used]) && Known(arrivals, used, begin, before, input)
      ensures W.Sessions(begin, before, input, arrivals[..used]) ==
              W.Session(tftp.State(), put, i, W.Gathering, tftp.sent)
      ensures ValidClient(tftp.State())
    {
      W.SessionOn(begin, before, input, arrivals, used);
    }

    ghost predicate Known(arrivals: seq<Option<Packet>>, used: nat, begin: Client, before: seq<Packet>,
        input: seq<Byte>)
    {
      ValidClient(begin) && used <= |arrivals| && S.Deliverables(arrivals[..used])
    }

    /** After a probe and a byte, recv_file stands where the session says. */
    lemma Fed(arrivals: seq<Option<Packet>>, used: nat, begin: Client, before: seq<Packet>, input: seq<Byte>,
        put: nat, i: nat, was: Client, sent: seq<Packet>)
      requires used < |arrivals| && S.Deliverables(arrivals) && Known(arrivals, used, begin, before, input)
      requires ValidClient(was) && S.Deliverable(arrivals[used])
      requires W.Sessions(begin, before, input, arrivals[..used]) == W.Session(was, put, i, W.Gathering, sent)
      requires tftp.State() == W.Probed(was, arrivals[used]).0 && tftp.sent == sent + W.Probed(was, arrivals[used]).1
      ensures if tftp.request != Writing || tftp.error
              then Between(begin, before, input, arrivals, used + 1, put, i + 1, W.Refused)
              else if i + 1 == |input| || i + 1 == BLKSIZE * (put + 1)
                then Offering(begin, before, input, arrivals, used + 1, put, i + 1)
              else Between(begin, before, input, arrivals, used + 1, put, i + 1, W.Gathering)
    {
      hide W.Probed, W.Offered, W.Sessions, W.Met;
      W.SessionOn(begin, before, input, arrivals, used);
      W.MetGathering(W.Session(was, put, i, W.Gathering, sent), input, arrivals[used]);
    }

    /** get_byte: the next byte of the C64 into the buffer; EOI comes with its last. */
    method GetByte(input: seq<Byte>, a: nat, i: nat, ghost put: nat) returns (eoi: bool)
      requires Gathered(input, a, i, put) && a < BLKSIZE && i < |input|
      modifies iobuf
      ensures Gathered(input, a + 1, i + 1, put) && (eoi <==> i + 1 == |input|)
    {
      iobuf[a] := input[i];
      eoi := i == |input| - 1;
      assert iobuf[..a + 1] == input[i - a..i] + [input[i]];
    }

    /** `a` bytes of the next block lie in iobuf; `i` have been read in all. */
    ghost predicate Gathered(input: seq<Byte>, a: nat, i: nat, put: nat)
      reads this, iobuf
    {
      && iobuf.Length == BLKSIZE + 1 && a <= BLKSIZE && i == BLKSIZE * put + a <= |input|
      && iobuf[..a] == input[i - a..i]
    }
  }
}
