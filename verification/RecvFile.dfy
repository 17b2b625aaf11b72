/** What recv_file does to the client: probes for packets and offers of blocks, in any order. */
module RecvFile {
  import opened Bytes
  import opened TftpClient
  import S = SendFile
  import R = TftpRead
  import W = TftpWrite

  datatype Act = Probe(p: Option<Packet>) | Offer

  predicate Playable(acts: seq<Act>) {
    forall a :: a in acts && a.Probe? ==> S.Deliverable(a.p)
  }

  function Probes(acts: seq<Act>): seq<Option<Packet>> {
    if acts == [] then []
    else
      var a := acts[|acts| - 1];
      Probes(acts[..|acts| - 1]) + (if a.Probe? then [a.p] else [])
  }

  function Do(c: Client, put: nat, file: seq<Byte>, a: Act): (r: (Client, nat, seq<Packet>))
    requires ValidClient(c) && (a.Probe? ==> S.Deliverable(a.p))
    ensures ValidClient(r.0)
  {
    match a
    case Probe(None) => (c, put, [])
    case Probe(Some(p)) =>
      var (c1, out) := RecvPacket(c, p);
      (c1, put, out)
    case Offer =>
      var (c1, accepted, out) := PutBlock(c, R.Block(file, put + 1));
      (c1, if accepted then put + 1 else put, out)
  }

  /** The client, the number of blocks put, and the packets sent, after `acts`. */
  function Play(begin: Client, file: seq<Byte>, acts: seq<Act>): (r: (Client, nat, seq<Packet>))
    requires ValidClient(begin) && Playable(acts)
    ensures ValidClient(r.0)
  {
    if acts == [] then (begin, 0, [])
    else
      assert acts[|acts| - 1] in acts;
      var (c, put, out) := Play(begin, file, acts[..|acts| - 1]);
      var (c1, put1, out1) := Do(c, put, file, acts[|acts| - 1]);
      (c1, put1, out + out1)
  }

  lemma PlayMore(begin: Client, file: seq<Byte>, acts: seq<Act>, a: Act)
    requires ValidClient(begin) && Playable(acts) && (a.Probe? ==> S.Deliverable(a.p))
    ensures Playable(acts + [a])
    ensures var (c, put, out) := Play(begin, file, acts); var (c1, put1, out1) := Do(c, put, file, a);
            Play(begin, file, acts + [a]) == (c1, put1, out + out1)
  {
    assert (acts + [a])[..|acts|] == acts;
  }

  lemma ProbesMore(acts: seq<Act>, a: Act)
    ensures Probes(acts + [a]) == Probes(acts) + (if a.Probe? then [a.p] else [])
  {
    assert (acts + [a])[..|acts|] == acts;
  }

  // ---------------------------------------------------------------- recv_file itself

  /** Waiting for the next byte, or for a block to be accepted; done with true or with false. */
  datatype Phase = Gathering | Waiting | Stored | Refused

  /** recv_file between two probes: the client, the blocks put and the bytes read so far, and what was sent. */
  datatype Session = Session(client: Client, put: nat, i: nat, phase: Phase, sent: seq<Packet>)

  /** The loops around tftp_put_block, up to the next probe: the next block is offered; once the input has
      ended, so are the blocks left, one that is not full at the end. */
  function Offered(s: Session, file: seq<Byte>): (r: Session)
    requires ValidClient(s.client)
    ensures ValidClient(r.client)
    decreases R.Blocks(file) - s.put
  {
    if s.put >= R.Blocks(file) then s.(phase := Stored)
    else
      var (c, accepted, out) := PutBlock(s.client, R.Block(file, s.put + 1));
      var s1 := s.(client := c, sent := s.sent + out);
      if !accepted then s1.(phase := Waiting)
      else if s.i < |file| then s1.(put := s.put + 1, phase := Gathering)
      else Offered(s1.(put := s.put + 1), file)
  }

  lemma PutKeepsValid(c: Client, block: seq<Byte>)
    requires ValidClient(c) && |block| <= BLKSIZE
    ensures ValidClient(PutBlock(c, block).0)
  {
  }

  lemma OfferedOnce(s: Session, file: seq<Byte>)
    requires ValidClient(s.client) && s.put < R.Blocks(file)
    ensures var (c, accepted, out) := PutBlock(s.client, R.Block(file, s.put + 1));
            Offered(s, file) ==
            if !accepted then Session(c, s.put, s.i, Waiting, s.sent + out)
            else if s.i < |file| then Session(c, s.put + 1, s.i, Gathering, s.sent + out)
            else Offered(Session(c, s.put + 1, s.i, Waiting, s.sent + out), file)
  {
    hide PutBlock, R.Block, R.Blocks;
    if s.i >= |file| {
      var (c, accepted, out) := PutBlock(s.client, R.Block(file, s.put + 1));
      PutKeepsValid(s.client, R.Block(file, s.put + 1));
      SameOffer(Session(c, s.put + 1, s.i, s.phase, s.sent + out), Waiting, file);
    }
  }

  /** The phase before an offer does not matter. */
  lemma SameOffer(s: Session, phase: Phase, file: seq<Byte>)
    requires ValidClient(s.client)
    ensures Offered(s, file) == Offered(s.(phase := phase), file)
    decreases R.Blocks(file) - s.put
  {
    hide PutBlock, R.Block;
    if s.put < R.Blocks(file) {
      var (c, accepted, out) := PutBlock(s.client, R.Block(file, s.put + 1));
      if accepted && s.i >= |file| {
        PutKeepsValid(s.client, R.Block(file, s.put + 1));
        SameOffer(Session(c, s.put + 1, s.i, s.phase, s.sent + out), phase, file);
      }
    }
  }

  function Probed(c: Client, p: Option<Packet>): (r: (Client, seq<Packet>))
    requires ValidClient(c) && S.Deliverable(p)
    ensures ValidClient(r.0)
  {
    if p.Some? then RecvPacket(c, p.value) else (c, [])
  }

  /** One probe and what follows up to the next: a byte is read, and a complete block offered. */
  function Met(s: Session, file: seq<Byte>, p: Option<Packet>): (r: Session)
    requires ValidClient(s.client) && S.Deliverable(p)
    ensures ValidClient(r.client)
  {
    var (c, out) := Probed(s.client, p);
    var s1 := s.(client := c, sent := s.sent + out);
    match s.phase
    case Waiting => Offered(s1, file)
    case Gathering =>
      var s2 := s1.(i := s.i + 1);
      if c.request != Writing || c.error then s2.(phase := Refused)
      else if s2.i == |file| || s2.i == BLKSIZE * (s.put + 1) then Offered(s2, file)
      else s2
    case _ => s
  }

  lemma MetGathering(s: Session, file: seq<Byte>, p: Option<Packet>)
    requires ValidClient(s.client) && S.Deliverable(p) && s.phase == Gathering
    ensures var (c, out) := Probed(s.client, p);
            Met(s, file, p) ==
            if c.request != Writing || c.error then Session(c, s.put, s.i + 1, Refused, s.sent + out)
            else if s.i + 1 == |file| || s.i + 1 == BLKSIZE * (s.put + 1)
              then Offered(Session(c, s.put, s.i + 1, Waiting, s.sent + out), file)
            else Session(c, s.put, s.i + 1, Gathering, s.sent + out)
  {
    hide Probed, Offered;
    var (c, out) := Probed(s.client, p);
    SameOffer(Session(c, s.put, s.i + 1, Gathering, s.sent + out), Waiting, file);
  }

  /** recv_file over what its probes find; after its end there are none. */
  function Sessions(begin: Client, sent: seq<Packet>, file: seq<Byte>, arrivals: seq<Option<Packet>>): (s: Session)
    requires ValidClient(begin) && S.Deliverables(arrivals)
    ensures ValidClient(s.client)
  {
    if arrivals == [] then Session(begin, 0, 0, Gathering, sent)
    else
      assert arrivals[|arrivals| - 1] in arrivals;
      Met(Sessions(begin, sent, file, arrivals[..|arrivals| - 1]), file, arrivals[|arrivals| - 1])
  }

  lemma SessionOn(begin: Client, sent: seq<Packet>, file: seq<Byte>, arrivals: seq<Option<Packet>>, k: nat)
    requires ValidClient(begin) && S.Deliverables(arrivals) && k < |arrivals|
    ensures S.Deliverables(arrivals[..k]) && S.Deliverables(arrivals[..k + 1]) && S.Deliverable(arrivals[k])
    ensures Sessions(begin, sent, file, arrivals[..k + 1]) ==
            Met(Sessions(begin, sent, file, arrivals[..k]), file, arrivals[k])
  {
    assert arrivals[..k + 1][..k] == arrivals[..k];
  }

  /** What holds between two probes: of a nonempty input, whole blocks have been put and less than one more
      is read, or a complete block waits and the client has no clearance; recv_file is done with true
      exactly when every block is put, and with false only without an open request. Once a byte has been read
      it goes on reading only with one. */
  predicate InOrder(s: Session, file: seq<Byte>) {
    && (s.client.error ==> s.client.request == NoRq)
    && (s.phase == Gathering && s.i > 0 ==> s.client.request == Writing)
    && (s.phase == Gathering ==> BLKSIZE * s.put <= s.i < |file| && s.i < BLKSIZE * (s.put + 1))
    && (s.phase == Waiting ==> !s.client.clearToSend && s.put < R.Blocks(file) && s.i <= |file|)
    && (s.phase == Waiting ==>
          if s.i < |file| then s.i == BLKSIZE * (s.put + 1) else BLKSIZE * s.put <= s.i <= BLKSIZE * (s.put + 1))
    && (s.phase == Stored <==> s.put == R.Blocks(file))
    && (s.phase == Refused ==> s.put < R.Blocks(file) && (s.client.error || s.client.request != Writing))
  }

  lemma {:induction false} OfferedInOrder(s: Session, file: seq<Byte>)
    requires ValidClient(s.client) && s.put < R.Blocks(file) && s.i <= |file| && BLKSIZE * s.put <= s.i
    requires if s.i < |file| then s.i == BLKSIZE * (s.put + 1) else s.i <= BLKSIZE * (s.put + 1)
    requires (s.client.error ==> s.client.request == NoRq) && (s.client.clearToSend ==> s.client.request == Writing)
    ensures InOrder(Offered(s, file), file) && s.put <= Offered(s, file).put
    decreases R.Blocks(file) - s.put
  {
    var (c, accepted, out) := PutBlock(s.client, R.Block(file, s.put + 1));
    if accepted && s.i == |file| && s.put + 1 < R.Blocks(file) {
      OfferedInOrder(s.(client := c, sent := s.sent + out, put := s.put + 1), file);
    }
  }

  lemma MetInOrder(s: Session, file: seq<Byte>, p: Option<Packet>)
    requires ValidClient(s.client) && S.Deliverable(p) && InOrder(s, file)
    ensures InOrder(Met(s, file, p), file)
  {
    ProbeClears(s.client, p);
    hide Probed, Offered;
    var (c, out) := Probed(s.client, p);
    var s1 := s.(client := c, sent := s.sent + out);
    if s.phase == Waiting {
      OfferedInOrder(s1, file);
    } else if s.phase == Gathering && c.request == Writing && (s.i + 1 == |file| || s.i + 1 == BLKSIZE * (s.put + 1)) {
      OfferedInOrder(s1.(i := s.i + 1), file);
    }
  }

  /** Clearance and errors come with packets: the one for an open write alone, the others end it. */
  lemma ProbeClears(c: Client, p: Option<Packet>)
    requires ValidClient(c) && S.Deliverable(p) && (c.error ==> c.request == NoRq)
    ensures var c1 := Probed(c, p).0;
            && (c1.error ==> c1.request == NoRq)
            && (!c.clearToSend && c1.clearToSend ==> c1.request == Writing)
            && (c.request != Writing ==> c1.request != Writing)
            && (c.request == Writing ==>
                  (c1.request != Writing <==> p.Some? && p.value.Err? && p.value.code != c.lastblk))
  {
  }

  /** A probe for a byte ends recv_file exactly when no write is open or an error packet, whose code is not
      the number of the last packet, ends it. */
  lemma ErrorRefuses(s: Session, file: seq<Byte>, p: Option<Packet>)
    requires ValidClient(s.client) && S.Deliverable(p) && InOrder(s, file) && s.phase == Gathering
    ensures Met(s, file, p).phase == Refused <==>
            s.client.request != Writing || (p.Some? && p.value.Err? && p.value.code != s.client.lastblk)
  {
    ProbeClears(s.client, p);
    hide Probed, Offered;
    var (c, out) := Probed(s.client, p);
    if c.request == Writing {
      var s2 := s.(client := c, sent := s.sent + out, i := s.i + 1);
      if s2.i == |file| || s2.i == BLKSIZE * (s.put + 1) {
        NeverRefused(s2, file);
      }
    }
  }

  lemma {:induction false} NeverRefused(s: Session, file: seq<Byte>)
    requires ValidClient(s.client) && s.phase != Refused
    ensures Offered(s, file).phase != Refused
    decreases R.Blocks(file) - s.put
  {
    if s.put < R.Blocks(file) {
      var (c, accepted, out) := PutBlock(s.client, R.Block(file, s.put + 1));
      if accepted && s.i >= |file| {
        NeverRefused(s.(client := c, sent := s.sent + out, put := s.put + 1), file);
      }
    }
  }

  /** But while a block waits, the loop around tftp_put_block looks at neither: after the error packet no
      clearance can come, and recv_file never ends. */
  lemma {:induction false} ErrorHangs(begin: Client, sent: seq<Packet>, file: seq<Byte>,
      before: seq<Option<Packet>>, code: Word, arrivals: seq<Option<Packet>>)
    requires ValidClient(begin) && !begin.error && file != [] && S.Deliverables(before) && S.Deliverables(arrivals)
    requires Sessions(begin, sent, file, before).phase == Waiting
    requires Sessions(begin, sent, file, before).client.lastblk != code
    ensures S.Deliverables(before + [Some(Err(code))] + arrivals)
    ensures var s := Sessions(begin, sent, file, before + [Some(Err(code))] + arrivals);
            s.phase == Waiting && s.put == Sessions(begin, sent, file, before).put < R.Blocks(file)
            && s.client.request != Writing && !s.client.clearToSend
    decreases |arrivals|
  {
    hide Met, R.Blocks;
    SessionInOrder(begin, sent, file, before);
    var all := before + [Some(Err(code))] + arrivals;
    var last := all[|all| - 1];
    if arrivals == [] {
      assert all[..|all| - 1] == before;
      StaysWaiting(Sessions(begin, sent, file, before), file, last);
    } else {
      var n := |arrivals| - 1;
      assert arrivals[n] in arrivals;
      ErrorHangs(begin, sent, file, before, code, arrivals[..n]);
      assert all[..|all| - 1] == before + [Some(Err(code))] + arrivals[..n];
      StaysWaiting(Sessions(begin, sent, file, all[..|all| - 1]), file, last);
    }
  }

  lemma StaysWaiting(s: Session, file: seq<Byte>, p: Option<Packet>)
    requires ValidClient(s.client) && S.Deliverable(p) && s.phase == Waiting && s.put < R.Blocks(file)
    requires !s.client.clearToSend
    requires s.client.request != Writing || (p.Some? && p.value.Err? && p.value.code != s.client.lastblk)
    ensures var t := Met(s, file, p);
            t.phase == Waiting && t.put == s.put && t.client.request != Writing && !t.client.clearToSend
  {
    hide R.Block, R.Blocks;
  }

  lemma {:induction false} SessionInOrder(begin: Client, sent: seq<Packet>, file: seq<Byte>,
      arrivals: seq<Option<Packet>>)
    requires ValidClient(begin) && !begin.error && S.Deliverables(arrivals) && file != []
    ensures InOrder(Sessions(begin, sent, file, arrivals), file)
    decreases |arrivals|
  {
    hide Met, InOrder;
    if arrivals == [] {
      assert InOrder(Session(begin, 0, 0, Gathering, sent), file) by { NothingRead(begin, sent, file); }
    } else {
      var n := |arrivals| - 1;
      assert arrivals[n] in arrivals;
      SessionInOrder(begin, sent, file, arrivals[..n]);
      MetInOrder(Sessions(begin, sent, file, arrivals[..n]), file, arrivals[n]);
    }
  }

  lemma NothingRead(begin: Client, sent: seq<Packet>, file: seq<Byte>)
    requires file != [] && !begin.error
    ensures InOrder(Session(begin, 0, 0, Gathering, sent), file)
  {
  }

  // ---------------------------------------------------------------- recv_file plays

  predicate Final(s: Session) {
    s.phase == Stored || s.phase == Refused
  }

  /** `acts` play up to `s`, probing all of `arrivals` unless recv_file was done before. */
  ghost predicate Plays(begin: Client, sent: seq<Packet>, file: seq<Byte>, arrivals: seq<Option<Packet>>,
      acts: seq<Act>, s: Session)
  {
    && ValidClient(begin) && Playable(acts) && Probes(acts) <= arrivals
    && (!Final(s) ==> Probes(acts) == arrivals)
    && var (c, put, out) := Play(begin, file, acts); c == s.client && put == s.put && s.sent == sent + out
  }

  lemma {:induction false} OffersPlay(begin: Client, sent: seq<Packet>, file: seq<Byte>,
      arrivals: seq<Option<Packet>>, acts: seq<Act>, s: Session) returns (acts': seq<Act>)
    requires Plays(begin, sent, file, arrivals, acts, s) && Probes(acts) == arrivals && ValidClient(s.client)
    ensures Plays(begin, sent, file, arrivals, acts', Offered(s, file)) && Probes(acts') == arrivals
    decreases R.Blocks(file) - s.put
  {
    hide Play, PutBlock, R.Block, R.Blocks, Probes;
    acts' := acts;
    if s.put < R.Blocks(file) {
      PlayMore(begin, file, acts, Offer);
      ProbesMore(acts, Offer);
      var (c, accepted, out) := PutBlock(s.client, R.Block(file, s.put + 1));
      acts' := acts + [Offer];
      Longer(sent, Play(begin, file, acts).2, out);
      if accepted && s.i >= |file| {
        var s1 := s.(client := c, sent := s.sent + out, put := s.put + 1);
        acts' := OffersPlay(begin, sent, file, arrivals, acts', s1);
      }
    }
  }

  lemma Longer(a: seq<Packet>, b: seq<Packet>, c: seq<Packet>)
    ensures (a + b) + c == a + (b + c)
  {
  }

  lemma MetPlays(begin: Client, sent: seq<Packet>, file: seq<Byte>, arrivals: seq<Option<Packet>>,
      acts: seq<Act>, s: Session, p: Option<Packet>) returns (acts': seq<Act>)
    requires Plays(begin, sent, file, arrivals, acts, s) && ValidClient(s.client) && S.Deliverable(p)
    ensures Plays(begin, sent, file, arrivals + [p], acts', Met(s, file, p))
  {
    hide Play, RecvPacket, Offered, R.Block, R.Blocks, Probes;
    acts' := acts;
    if !Final(s) {
      PlayMore(begin, file, acts, Probe(p));
      ProbesMore(acts, Probe(p));
      var (c, out) := Probed(s.client, p);
      Longer(sent, Play(begin, file, acts).2, out);
      acts' := acts + [Probe(p)];
      var s1 := s.(client := c, sent := s.sent + out, i := if s.phase == Gathering then s.i + 1 else s.i);
      if Met(s, file, p) == Offered(s1, file) {
        acts' := OffersPlay(begin, sent, file, arrivals + [p], acts', s1);
      }
    }
  }

  /** recv_file only probes and offers: its globals, the blocks put and the packets sent are those of a play
      whose probes meet what recv_file met. */
  lemma {:induction false} SessionPlays(begin: Client, sent: seq<Packet>, file: seq<Byte>,
      arrivals: seq<Option<Packet>>) returns (acts: seq<Act>)
    requires ValidClient(begin) && S.Deliverables(arrivals)
    ensures Plays(begin, sent, file, arrivals, acts, Sessions(begin, sent, file, arrivals))
    decreases |arrivals|
  {
    hide Plays, Met;
    if arrivals == [] {
      acts := [];
      assert Plays(begin, sent, file, [], [], Session(begin, 0, 0, Gathering, sent)) by {
        NothingPlayed(begin, sent, file);
      }
    } else {
      var n := |arrivals| - 1;
      assert arrivals[n] in arrivals;
      var front := SessionPlays(begin, sent, file, arrivals[..n]);
      var before := Sessions(begin, sent, file, arrivals[..n]);
      acts := MetPlays(begin, sent, file, arrivals[..n], front, before, arrivals[n]);
      assert arrivals == arrivals[..n] + [arrivals[n]];
    }
  }

  lemma NothingPlayed(begin: Client, sent: seq<Packet>, file: seq<Byte>)
    requires ValidClient(begin)
    ensures Plays(begin, sent, file, [], [], Session(begin, 0, 0, Gathering, sent))
  {
    assert sent + [] == sent;
  }

  /** The bytes gathered since the last block are the next block, once it is full or the input ends. */
  lemma BlockAt(file: seq<Byte>, put: nat, a: nat, i: nat)
    requires i == BLKSIZE * put + a <= |file| && a <= BLKSIZE && (a == BLKSIZE || i == |file|)
    ensures R.Block(file, put + 1) == file[i - a..i] && put < R.Blocks(file)
    ensures i == |file| && a < BLKSIZE ==> put + 1 == R.Blocks(file)
    ensures i < |file| || a == BLKSIZE ==> put + 1 < R.Blocks(file)
  {
  }
}
