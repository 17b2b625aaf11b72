/** Domain names and resource records on the wire, after RFC 1035 sections 3.1 and 4.1, and the scan
    that looks for an address among the answers. */
module DnsMessage {
  import opened Bytes

  const DOT: Byte := 0x2E
  const HEADER: nat := 12
  const MAX_LABEL: nat := 63

  /** `s` lies in `msg` at `at`. */
  predicate At(msg: seq<Byte>, at: nat, s: seq<Byte>) {
    at + |s| <= |msg| && msg[at..at + |s|] == s
  }

  lemma AtParts(msg: seq<Byte>, at: nat, a: seq<Byte>, b: seq<Byte>)
    requires At(msg, at, a + b)
    ensures At(msg, at, a) && At(msg, at + |a|, b)
  {
    var s := msg[at..at + |a + b|];
    assert s[..|a|] == a && s[|a|..] == b;
  }

  // ---------------------------------------------------------------- names

  function FirstDot(name: seq<Byte>): (d: nat)
    ensures d <= |name| && DOT !in name[..d] && (d < |name| ==> name[d] == DOT)
  {
    if name == [] || name[0] == DOT then 0 else FirstDot(name[1..]) + 1
  }

  /** The labels between the dots; a name has one more of them than dots. */
  function Labels(name: seq<Byte>): (labels: seq<seq<Byte>>)
    ensures labels != []
    decreases |name|
  {
    var d := FirstDot(name);
    if d == |name| then [name] else [name[..d]] + Labels(name[d + 1..])
  }

  lemma LabelsFront(name: seq<Byte>)
    requires FirstDot(name) < |name|
    ensures Labels(name) == [name[..FirstDot(name)]] + Labels(name[FirstDot(name) + 1..])
  {
  }

  lemma AroundDot(name: seq<Byte>, d: nat)
    requires d < |name| && name[d] == DOT
    ensures name == name[..d] + [DOT] + name[d + 1..]
  {
  }

  function Joined(labels: seq<seq<Byte>>): seq<Byte>
    requires labels != []
  {
    if |labels| == 1 then labels[0] else labels[0] + [DOT] + Joined(labels[1..])
  }

  predicate DotFree(labels: seq<seq<Byte>>) {
    labels == [] || (DOT !in labels[0] && DotFree(labels[1..]))
  }

  /** No label is lost or changed by splitting the name. */
  lemma {:induction false} LabelsJoin(name: seq<Byte>)
    ensures Joined(Labels(name)) == name
    ensures DotFree(Labels(name))
    ensures |Labels(name)| == 1 <==> 0x2E !in name
    decreases |name|
  {
    hide FirstDot;
    var d := FirstDot(name);
    if d == |name| {
      assert name[..d] == name;
      assert Labels(name) == [name] && DotFree([]);
      return;
    }
    hide Labels, Joined;
    LabelsFront(name);
    AroundDot(name, d);
    LabelsJoin(name[d + 1..]);
    JoinFront(name[..d], Labels(name[d + 1..]));
  }

  lemma JoinFront(l: seq<Byte>, rest: seq<seq<Byte>>)
    requires rest != []
    ensures Joined([l] + rest) == l + [DOT] + Joined(rest)
    ensures DotFree([l] + rest) <==> DOT !in l && DotFree(rest)
  {
    assert ([l] + rest)[1..] == rest;
  }

  /** Every label has `lo` to `hi` bytes. */
  predicate Within(labels: seq<seq<Byte>>, lo: nat, hi: nat) {
    labels == [] || (lo <= |labels[0]| <= hi && Within(labels[1..], lo, hi))
  }

  predicate NulFreeLabels(labels: seq<seq<Byte>>) {
    labels == [] || (NulFree(labels[0]) && NulFreeLabels(labels[1..]))
  }

  /** A count kept in a byte. */
  function InAByte(n: nat): (b: Byte)
    ensures b <= n && (b == n <==> n < 0x100)
  {
    n % 0x100
  }

  /** What is left of a label whose length is counted in a byte: its last bytes, when the count wraps. */
  function Counted(l: seq<Byte>): (c: seq<Byte>)
    ensures |c| == InAByte(|l|)
    ensures |l| < 0x100 ==> c == l
  {
    l[|l| - InAByte(|l|)..]
  }

  function EncodedLabel(l: seq<Byte>): seq<Byte> {
    [|Counted(l)|] + Counted(l)
  }

  /** Length octet, label, and so on to the empty label of the root. */
  function QName(labels: seq<seq<Byte>>): seq<Byte> {
    if labels == [] then [0] else EncodedLabel(labels[0]) + QName(labels[1..])
  }

  /** A name without compression, read as section 3.1 prescribes: its labels and where it ends. */
  function ReadName(msg: seq<Byte>, at: nat): Option<(seq<seq<Byte>>, nat)>
    decreases |msg| - at
  {
    if at >= |msg| then None
    else
      var len := msg[at] as nat;
      if len == 0 then Some(([], at + 1))
      else if len > MAX_LABEL || at + 1 + len > |msg| then None
      else match ReadName(msg, at + 1 + len)
        case None => None
        case Some((rest, end)) => Some(([msg[at + 1..at + 1 + len]] + rest, end))
  }

  /** The name is read back exactly when every label has 1 to 63 bytes. */
  lemma {:induction false} QNameReads(msg: seq<Byte>, at: nat, labels: seq<seq<Byte>>)
    requires At(msg, at, QName(labels))
    ensures ReadName(msg, at) == Some((labels, at + |QName(labels)|)) <==> Within(labels, 1, 63)
    decreases |labels|
  {
    hide QName, Within, ReadName, At, EncodedLabel;
    if labels == [] {
      RootReads(msg, at);
    } else {
      var l, rest := labels[0], labels[1..];
      assert labels == [l] + rest;
      QNameFront(l, rest);
      AtParts(msg, at, EncodedLabel(l), QName(rest));
      QNameReads(msg, at + |EncodedLabel(l)|, rest);
      QNameStep(msg, at, l, rest);
    }
  }

  /** The empty host name: its one label, the empty one, reads back as the root's. */
  lemma EmptyLabel()
    ensures Labels([]) == [[]] && QName([[]]) == [0, 0]
    ensures ReadName(QName([[]]), 0) == Some(([], 1))
  {
    hide Labels, QName, Within;
    OneLabel([]);
    QNameFront([], []);
  }

  lemma RootReads(msg: seq<Byte>, at: nat)
    requires At(msg, at, QName([]))
    ensures ReadName(msg, at) == Some(([], at + |QName([])|)) && Within([], 1, MAX_LABEL)
  {
    AtFirst(msg, at, [0]);
  }

  lemma QNameFront(l: seq<Byte>, rest: seq<seq<Byte>>)
    ensures QName([l] + rest) == EncodedLabel(l) + QName(rest)
    ensures Within([l] + rest, 0, 0xFF) <==> |l| <= 0xFF && Within(rest, 0, 0xFF)
    ensures Within([l] + rest, 1, MAX_LABEL) <==> 1 <= |l| <= MAX_LABEL && Within(rest, 1, MAX_LABEL)
  {
    assert ([l] + rest)[1..] == rest;
  }

  lemma QNameStep(msg: seq<Byte>, at: nat, l: seq<Byte>, rest: seq<seq<Byte>>)
    requires At(msg, at, EncodedLabel(l) + QName(rest))
    requires var next := at + |EncodedLabel(l)|;
             ReadName(msg, next) == Some((rest, next + |QName(rest)|)) <==> Within(rest, 1, MAX_LABEL)
    ensures ReadName(msg, at) == Some(([l] + rest, at + |QName([l] + rest)|)) <==> Within([l] + rest, 1, MAX_LABEL)
  {
    hide QName, Within, ReadName, At, EncodedLabel, Counted;
    QNameFront(l, rest);
    LabelReads(msg, at, l, QName(rest));
    if 1 <= |Counted(l)| <= MAX_LABEL {
      match ReadName(msg, at + |EncodedLabel(l)|)
      case None =>
      case Some((found, end)) => SameLabels(l, found, rest);
    }
  }

  lemma SameLabels(l: seq<Byte>, a: seq<seq<Byte>>, b: seq<seq<Byte>>)
    ensures [Counted(l)] + a == [l] + b <==> |l| < 0x100 && a == b
  {
    hide Counted;
    assert ([Counted(l)] + a)[1..] == a && ([l] + b)[1..] == b;
    assert ([Counted(l)] + a)[0] == Counted(l) && ([l] + b)[0] == l;
  }

  /** The first label, or what was counted of it, is read and reading goes on behind it exactly when it
      has 1 to 63 bytes. */
  lemma LabelReads(msg: seq<Byte>, at: nat, l: seq<Byte>, more: seq<Byte>)
    requires At(msg, at, EncodedLabel(l) + more)
    ensures var c, next := Counted(l), at + |EncodedLabel(l)|;
            if |c| == 0 then ReadName(msg, at) == Some(([], at + 1))
            else if |c| > MAX_LABEL then ReadName(msg, at) == None
            else ReadName(msg, at) ==
                 match ReadName(msg, next) case None => None case Some((rest, end)) => Some(([c] + rest, end))
  {
    hide Counted;
    AtParts(msg, at, EncodedLabel(l), more);
    AtParts(msg, at, [|Counted(l)|], Counted(l));
    AtFirst(msg, at, [|Counted(l)|]);
  }

  lemma AtFirst(msg: seq<Byte>, at: nat, s: seq<Byte>)
    requires At(msg, at, s) && s != []
    ensures msg[at] == s[0]
  {
    assert msg[at..at + |s|][0] == s[0];
  }

  /** Two bytes more than the host name, less what wrapping length bytes drop. */
  lemma {:induction false} QNameSize(name: seq<Byte>)
    ensures 1 <= |QName(Labels(name))| <= |name| + 2
    ensures |QName(Labels(name))| == |name| + 2 <==> Within(Labels(name), 0, 0xFF)
    decreases |name|
  {
    hide Labels, FirstDot, QName, Within, EncodedLabel;
    var d := FirstDot(name);
    if d < |name| {
      QNameSize(name[d + 1..]);
      LabelsFront(name);
      QNameFront(name[..d], Labels(name[d + 1..]));
      LabelSize(name[..d]);
    } else {
      OneLabel(name);
      QNameFront(name, []);
      LabelSize(name);
    }
  }

  lemma LabelSize(l: seq<Byte>)
    ensures 1 <= |EncodedLabel(l)| <= |l| + 1
    ensures |EncodedLabel(l)| == |l| + 1 <==> |l| <= 0xFF
  {
  }

  lemma OneLabel(s: seq<Byte>)
    requires FirstDot(s) == |s|
    ensures Labels(s) == [s] == [s] + [] && QName([]) == [0] && Within([], 0, 0xFF)
  {
  }

  /** A query for the address of `name`: its length goes into the first byte of the transaction ID. */
  function Query(name: seq<Byte>, tid: Byte): seq<Byte> {
    var q := QName(Labels(name));
    [InAByte(|q| + 16), tid, 1, 0, 0, 1, 0, 0, 0, 0, 0, 0] + q + [0, 1, 0, 1]
  }

  /** A host name of at most 237 characters makes a query of less than 256 bytes. */
  lemma ShortQuery(name: seq<Byte>, tid: Byte)
    ensures |name| <= 237 ==> |Query(name, tid)| < 0x100
    ensures |Query(name, tid)| <= |name| + 18
  {
    QNameSize(name);
  }

  /** The message around the name, by section 4.1 of RFC 1035: a standard query that desires recursion, with
      one question, for the address (type A, class IN). */
  lemma QueryFields(name: seq<Byte>, tid: Byte)
    ensures var q, n := Query(name, tid), |Query(name, tid)|;
            && n == |QName(Labels(name))| + 16 && q[0] == n % 0x100 && q[1] == tid
            && q[2] == 1 && q[3] == 0 && q[4] == 0 && q[5] == 1 && (forall k :: 6 <= k < 12 ==> q[k] == 0)
            && q[12..n - 4] == QName(Labels(name)) && q[n - 4..] == [0, 1, 0, 1]
  {
    hide QName, Labels;
  }

  /** From 238 characters on the length no longer fits its byte. */
  lemma LongQuery(name: seq<Byte>, tid: Byte)
    requires 238 <= |name| < 0x100
    ensures |Query(name, tid)| == |name| + 18 && Query(name, tid)[0] == |name| - 238
  {
    QNameSize(name);
    ShortLabels(name);
  }

  lemma {:induction false} ShortLabels(name: seq<Byte>)
    requires |name| < 0x100
    ensures Within(Labels(name), 0, 0xFF)
    decreases |name|
  {
    var d := FirstDot(name);
    if d < |name| {
      ShortLabels(name[d + 1..]);
    }
  }

  // ---------------------------------------------------------------- answers

  datatype Owner = Pointer(hi: Byte, lo: Byte) | Plain(labels: seq<seq<Byte>>)

  datatype Record = Record(owner: Owner, kind: Word, cls: Word, ttl: seq<Byte>, rdata: seq<Byte>)

  predicate GoodOwner(o: Owner) {
    match o
    case Pointer(hi, lo) => hi >= 0xC0
    case Plain(labels) => labels != [] && Within(labels, 1, MAX_LABEL) && NulFreeLabels(labels)
  }

  predicate GoodRecord(r: Record) {
    GoodOwner(r.owner) && |r.ttl| == 4 && |r.rdata| < 0x100
  }

  predicate GoodRecords(rs: seq<Record>) {
    rs == [] || (GoodRecord(rs[0]) && GoodRecords(rs[1..]))
  }

  function EncodedOwner(o: Owner): seq<Byte> {
    match o case Pointer(hi, lo) => [hi, lo] case Plain(labels) => QName(labels)
  }

  function Fixed(r: Record): seq<Byte>
    requires |r.rdata| < 0x100
  {
    [Hi(r.kind), Lo(r.kind), Hi(r.cls), Lo(r.cls)] + r.ttl + [0, |r.rdata|]
  }

  function EncodedRecords(rs: seq<Record>): seq<Byte>
    requires GoodRecords(rs)
  {
    if rs == [] then [] else EncodedOwner(rs[0].owner) + (Fixed(rs[0]) + (rs[0].rdata + EncodedRecords(rs[1..])))
  }

  /** The data of the first record whose type ends in 1 (A) and that holds four bytes. */
  function FirstAddress(rs: seq<Record>): Option<seq<Byte>> {
    if rs == [] then None
    else if Lo(rs[0].kind) == 1 && |rs[0].rdata| == 4 then Some(rs[0].rdata)
    else FirstAddress(rs[1..])
  }

  /** A record on the wire, by section 4.1.3 of RFC 1035: type, class, time to live and length of the data. */
  lemma FixedFields(r: Record)
    requires |r.rdata| < 0x100 && |r.ttl| == 4
    ensures var f := Fixed(r);
            && |f| == 10 && f[0] as int * 0x100 + f[1] as int == r.kind && f[2] as int * 0x100 + f[3] as int == r.cls
            && f[4..8] == r.ttl && f[8] as int * 0x100 + f[9] as int == |r.rdata|
  {
  }

  /** Which record that is: the first whose type is 1 modulo 256 and that holds four bytes, if there is one. */
  lemma {:induction false} FirstAddressIs(rs: seq<Record>)
    ensures match FirstAddress(rs)
            case None => forall i :: 0 <= i < |rs| ==> !(rs[i].kind % 0x100 == 1 && |rs[i].rdata| == 4)
            case Some(ip) => exists i ::
              && 0 <= i < |rs| && rs[i].kind % 0x100 == 1 && |rs[i].rdata| == 4 && rs[i].rdata == ip
              && forall j :: 0 <= j < i ==> !(rs[j].kind % 0x100 == 1 && |rs[j].rdata| == 4)
  {
    if rs != [] && !(rs[0].kind % 0x100 == 1 && |rs[0].rdata| == 4) {
      FirstAddressIs(rs[1..]);
      if FirstAddress(rs).Some? {
        var i :| && 0 <= i < |rs| - 1 && rs[1..][i].kind % 0x100 == 1 && |rs[1..][i].rdata| == 4
                 && rs[1..][i].rdata == FirstAddress(rs).value
                 && forall j :: 0 <= j < i ==> !(rs[1..][j].kind % 0x100 == 1 && |rs[1..][j].rdata| == 4);
        forall j | 0 <= j < i + 1 ensures !(rs[j].kind % 0x100 == 1 && |rs[j].rdata| == 4) {
          if j > 0 { assert rs[1..][j - 1] == rs[j]; }
        }
        assert rs[i + 1] == rs[1..][i];
      } else {
        forall j | 0 <= j < |rs| ensures !(rs[j].kind % 0x100 == 1 && |rs[j].rdata| == 4) {
          if j > 0 { assert rs[1..][j - 1] == rs[j]; }
        }
      }
    }
  }

  /** Behind the next NUL, or the end of the packet. */
  function PlainEnd(msg: seq<Byte>, q: nat): (e: nat)
    ensures e >= q
    decreases |msg| - q
  {
    if q >= |msg| then q else if msg[q] == 0 then q + 1 else PlainEnd(msg, q + 1)
  }

  function OwnerEnd(msg: seq<Byte>, p: nat): (q: nat)
    ensures q > p
  {
    if p < |msg| && msg[p] >= 0x40 then p + 2 else PlainEnd(msg, p + 1)
  }

  /** The loop of checkForDnsAnswer from `p` on. */
  function Scan(msg: seq<Byte>, p: nat): Option<seq<Byte>>
    decreases |msg| - p
  {
    var q := OwnerEnd(msg, p);
    if q + 14 > |msg| then None
    else if msg[q + 1] == 1 && msg[q + 9] == 4 then Some(msg[q + 10..q + 14])
    else Scan(msg, q + msg[q + 9] as nat + 10)
  }

  lemma {:induction false} PlainEndIs(msg: seq<Byte>, q: nat, e: nat)
    requires q <= e < |msg| && msg[e] == 0 && forall k :: q <= k < e ==> msg[k] != 0
    ensures PlainEnd(msg, q) == e + 1
    decreases e - q
  {
    if q < e {
      PlainEndIs(msg, q + 1, e);
    }
  }

  lemma {:induction false} QNameShape(labels: seq<seq<Byte>>)
    requires Within(labels, 1, MAX_LABEL) && NulFreeLabels(labels)
    ensures var q := QName(labels);
            q[|q| - 1] == 0 && forall k :: 0 <= k < |q| - 1 ==> q[k] != 0
    decreases |labels|
  {
    if labels != [] {
      var rest := QName(labels[1..]);
      QNameShape(labels[1..]);
      var q := QName(labels);
      forall k | 0 <= k < |q| - 1 ensures q[k] != 0 {
        if 1 <= k <= |labels[0]| {
          assert q[k] == labels[0][k - 1];
        } else if k > |labels[0]| {
          assert q[k] == rest[k - 1 - |labels[0]|];
        }
      }
    }
  }

  lemma OwnerSkipped(msg: seq<Byte>, at: nat, o: Owner)
    requires GoodOwner(o) && At(msg, at, EncodedOwner(o))
    ensures OwnerEnd(msg, at) == at + |EncodedOwner(o)|
  {
    var s := EncodedOwner(o);
    assert forall k :: 0 <= k < |s| ==> s[k] == msg[at + k];
    if o.Plain? {
      QNameShape(o.labels);
      assert s[0] == |o.labels[0]|;
      var e := at + |s| - 1;
      forall k | at + 1 <= k < e ensures msg[k] != 0 {
        assert msg[k] == s[k - at];
      }
      assert msg[e] == s[|s| - 1];
      PlainEndIs(msg, at + 1, e);
    }
  }

  /** Where the scan takes an owner to end, whatever stands there: a first byte of 64 or more is two bytes
      long, anything else reaches to the next NUL, or to the end of the packet. */
  lemma OwnerEnds(msg: seq<Byte>, p: nat, e: nat)
    requires p < |msg|
    ensures msg[p] >= 0x40 ==> OwnerEnd(msg, p) == p + 2
    ensures msg[p] < 0x40 && p < e < |msg| && msg[e] == 0 && (forall k :: p < k < e ==> msg[k] != 0) ==>
              OwnerEnd(msg, p) == e + 1
    ensures msg[p] < 0x40 && (forall k :: p < k < |msg| ==> msg[k] != 0) ==> OwnerEnd(msg, p) == |msg|
  {
    hide PlainEnd;
    if msg[p] < 0x40 {
      if p < e < |msg| && msg[e] == 0 && forall k :: p < k < e ==> msg[k] != 0 {
        PlainEndIs(msg, p + 1, e);
      }
      if forall k :: p < k < |msg| ==> msg[k] != 0 {
        NoNul(msg, p + 1);
      }
    }
  }

  lemma {:induction false} NoNul(msg: seq<Byte>, q: nat)
    requires q <= |msg| && forall k :: q <= k < |msg| ==> msg[k] != 0
    ensures PlainEnd(msg, q) == |msg|
    decreases |msg| - q
  {
    if q < |msg| {
      NoNul(msg, q + 1);
    }
  }

  lemma RecordsSize(rs: seq<Record>)
    requires GoodRecords(rs)
    ensures if rs == [] then |EncodedRecords(rs)| == 0 else |EncodedRecords(rs)| >= 12
  {
    if rs != [] && rs[0].owner.Plain? {
      assert |QName(rs[0].owner.labels)| >= 2;
    }
  }

  /** From `at` on, `msg` is `s`. */
  predicate EndsWith(msg: seq<Byte>, at: nat, s: seq<Byte>) {
    at <= |msg| && msg[at..] == s
  }

  lemma AtEnd(msg: seq<Byte>, at: nat, s: seq<Byte>)
    requires EndsWith(msg, at, s)
    ensures At(msg, at, s) && at + |s| == |msg|
  {
  }

  /** The fields of a record behind its owner. */
  lemma BodyLies(msg: seq<Byte>, q: nat, r: Record, more: seq<Byte>)
    requires GoodRecord(r) && q <= |msg|
    requires At(msg, q, Fixed(r) + (r.rdata + more)) && q + |Fixed(r) + (r.rdata + more)| == |msg|
    ensures |msg| == q + 10 + |r.rdata| + |more| && msg[q + 1] == Lo(r.kind) && msg[q + 9] == |r.rdata|
    ensures msg[q + 10..q + 10 + |r.rdata|] == r.rdata && msg[q + 10 + |r.rdata|..] == more
  {
    AtParts(msg, q, Fixed(r), r.rdata + more);
    AtParts(msg, q + 10, r.rdata, more);
    var f := msg[q..q + 10];
    assert f[1] == msg[q + 1] && f[9] == msg[q + 9];
    assert msg[q + 10 + |r.rdata|..] == msg[q + 10 + |r.rdata|..q + 10 + |r.rdata| + |more|];
  }

  lemma ScanTurn(msg: seq<Byte>, p: nat)
    ensures p >= |msg| ==> Scan(msg, p) == None
    ensures var q := OwnerEnd(msg, p);
            Scan(msg, p) == if q + 14 > |msg| then None
                            else if msg[q + 1] == 1 && msg[q + 9] == 4 then Some(msg[q + 10..q + 14])
                            else Scan(msg, q + msg[q + 9] as nat + 10)
  {
  }

  /** The scan over one record, with `more` behind it. */
  lemma RecordScanned(msg: seq<Byte>, at: nat, r: Record, more: seq<Byte>)
    requires GoodRecord(r) && EndsWith(msg, at, EncodedOwner(r.owner) + (Fixed(r) + (r.rdata + more)))
    ensures var next := at + |EncodedOwner(r.owner)| + 10 + |r.rdata|;
            && EndsWith(msg, next, more)
            && Scan(msg, at) == if |r.rdata| + |more| < 4 then None
                                else if Lo(r.kind) == 1 && |r.rdata| == 4 then Some(r.rdata)
                                else Scan(msg, next)
  {
    hide At, OwnerEnd, EncodedOwner, Fixed, Scan;
    ScanTurn(msg, at);
    var owner, body := EncodedOwner(r.owner), Fixed(r) + (r.rdata + more);
    AtEnd(msg, at, owner + body);
    AtParts(msg, at, owner, body);
    OwnerSkipped(msg, at, r.owner);
    BodyLies(msg, at + |owner|, r, more);
  }

  lemma FirstScanned(msg: seq<Byte>, at: nat, rs: seq<Record>)
    requires rs != [] && GoodRecords(rs) && EndsWith(msg, at, EncodedRecords(rs))
    ensures GoodRecords(rs[1..])
    ensures var next := at + |EncodedOwner(rs[0].owner)| + 10 + |rs[0].rdata|;
            && EndsWith(msg, next, EncodedRecords(rs[1..]))
            && Scan(msg, at) == if |rs[0].rdata| + |EncodedRecords(rs[1..])| < 4 then None
                                else if Lo(rs[0].kind) == 1 && |rs[0].rdata| == 4 then Some(rs[0].rdata)
                                else Scan(msg, next)
  {
    hide EndsWith, Scan, EncodedOwner, Fixed, FirstAddress;
    RecordScanned(msg, at, rs[0], EncodedRecords(rs[1..]));
  }

  /** The scan finds the first IPv4 address among the records up to the end of the packet, and nothing
      when there is none. */
  lemma {:induction false} ScanFinds(msg: seq<Byte>, at: nat, rs: seq<Record>)
    requires GoodRecords(rs) && EndsWith(msg, at, EncodedRecords(rs))
    ensures Scan(msg, at) == FirstAddress(rs)
    decreases |rs|
  {
    hide EndsWith, Scan, EncodedOwner, EncodedRecords, GoodRecord, GoodRecords;
    RecordsSize(rs);
    if rs == [] {
      NothingLeft(msg, at, EncodedRecords(rs));
    } else {
      var rest := rs[1..];
      FirstScanned(msg, at, rs);
      RecordsSize(rest);
      ScanFinds(msg, at + |EncodedOwner(rs[0].owner)| + 10 + |rs[0].rdata|, rest);
    }
  }

  lemma NothingLeft(msg: seq<Byte>, at: nat, s: seq<Byte>)
    requires EndsWith(msg, at, s) && |s| < 14
    ensures Scan(msg, at) == None
  {
    assert OwnerEnd(msg, at) + 14 > |msg|;
  }

  /** A reply at `at` that repeats the ID and the question of the query and then holds `rs`. */
  ghost predicate IsReply(msg: seq<Byte>, at: nat, name: seq<Byte>, tid: Byte, rs: seq<Record>) {
    var query := Query(name, tid);
    && GoodRecords(rs)
    && At(msg, at, query[..2])
    && At(msg, at + HEADER, query[HEADER..])
    && EndsWith(msg, at + |query|, EncodedRecords(rs))
  }

  /** The length kept in the ID leads to the first answer exactly while it fits a byte. */
  lemma LandsOnAnswers(msg: seq<Byte>, at: nat, name: seq<Byte>, tid: Byte, rs: seq<Record>)
    requires IsReply(msg, at, name, tid, rs)
    ensures at + msg[at] as nat == at + |Query(name, tid)| <==> |Query(name, tid)| < 0x100
    ensures msg[at + 1] == tid
  {
    AtFirst(msg, at, Query(name, tid)[..2]);
    assert msg[at..at + 2][1] == tid;
  }

  /** So the first address in the reply to a query is what the scan returns. */
  lemma AnswerFound(msg: seq<Byte>, at: nat, name: seq<Byte>, tid: Byte, rs: seq<Record>)
    requires IsReply(msg, at, name, tid, rs) && |Query(name, tid)| < 0x100
    ensures Scan(msg, at + msg[at] as nat) == FirstAddress(rs)
  {
    LandsOnAnswers(msg, at, name, tid, rs);
    ScanFinds(msg, at + |Query(name, tid)|, rs);
  }

  /** The query carries the name: read back, its labels are those of the name exactly when all have 1 to
      63 bytes. */
  lemma QueryCarriesName(name: seq<Byte>, tid: Byte)
    ensures ReadName(Query(name, tid), HEADER) == Some((Labels(name), HEADER + |QName(Labels(name))|)) <==>
            Within(Labels(name), 1, 63)
  {
    hide QName, Labels, Within, ReadName;
    var query, q := Query(name, tid), QName(Labels(name));
    assert query[HEADER..HEADER + |q|] == q;
    QNameReads(query, HEADER, Labels(name));
  }
}
