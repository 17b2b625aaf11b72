/** The request packet: built by the device, taken apart by the server. */
module Request {
  import opened Bytes
  import opened CString
  import FileName

  /** Option names and their values. */
  type Settings = map<seq<Byte>, seq<Byte>>

  const MAX_NAME := 20  // 16 characters and 4 for device and extension

  const OCTET: seq<Byte> := [0x6F, 0x63, 0x74, 0x65, 0x74]
  const NETASCII: seq<Byte> := [0x6E, 0x65, 0x74, 0x61, 0x73, 0x63, 0x69, 0x69]
  const BLKSIZE: seq<Byte> := [0x62, 0x6C, 0x6B, 0x73, 0x69, 0x7A, 0x65]
  const TWO_FIVE_SIX: seq<Byte> := [0x32, 0x35, 0x36]

  /** A string in memory: its bytes and a NUL. */
  function Z(s: seq<Byte>): seq<Byte> {
    s + [0]
  }

  /** The packet for a request of type `mode`. */
  function Packet(mode: Word, name: seq<Byte>): (p: seq<Byte>)
    ensures |p| == |name| + 21
  {
    [Hi(mode), Lo(mode)] + Z(name) + Z(OCTET) + Z(BLKSIZE) + Z(TWO_FIVE_SIX)
  }

  /** strcpy behind what is there; returns where the next string goes. */
  method StrCpy(dst: array<Byte>, at: nat, s: seq<Byte>) returns (next: nat)
    requires at + |s| < dst.Length
    modifies dst
    ensures next == at + |s| + 1 && dst[..next] == old(dst[..at]) + Z(s)
    ensures forall k :: next <= k < dst.Length ==> dst[k] == old(dst[k])
  {
    var i := 0;
    while i < |s|
      invariant 0 <= i <= |s|
      invariant forall k :: 0 <= k < dst.Length ==> dst[k] == if at <= k < at + i then s[k - at] else old(dst[k])
    {
      dst[at + i] := s[i];
      i := i + 1;
    }
    dst[at + |s|] := 0;
    next := at + |s| + 1;
  }

  /** tftp_build_request: the length of the packet, or 0 for a name of more than 20 bytes. */
  method BuildRequest(data: array<Byte>, name: seq<Byte>, mode: Word) returns (size: nat)
    requires data.Length == 260
    modifies data
    ensures size == 0 <==> |name| > MAX_NAME
    ensures |name| <= MAX_NAME ==> size == |Packet(mode, name)| && data[..size] == Packet(mode, name)
    ensures forall k :: size <= k < data.Length ==> data[k] == old(data[k])
  {
    hide Z, Hi, Lo;
    if |name| > 16 + 1 + 3 {
      return 0;
    }
    data[0] := Hi(mode);
    data[1] := Lo(mode);
    assert data[..2] == [Hi(mode), Lo(mode)];
    size := StrCpy(data, 2, name);
    size := StrCpy(data, size, OCTET);
    size := StrCpy(data, size, BLKSIZE);
    size := StrCpy(data, size, TWO_FIVE_SIX);
  }

  // ---------------------------------------------------------------- the server's side

  /** `cstring`: up to the next NUL. Where only NULs are left, `split` gives nothing at all. */
  function Cstring(data: seq<Byte>, offset: nat): Option<seq<Byte>> {
    if forall k :: offset <= k < |data| ==> data[k] == 0 then None else Some(CStr(data, offset))
  }

  /** The string at a place: its bytes, without a NUL, up to the next NUL or the end. */
  lemma {:induction false} CstringIs(data: seq<Byte>, offset: nat)
    requires offset <= |data|
    ensures match Cstring(data, offset)
            case None => forall k :: offset <= k < |data| ==> data[k] == 0
            case Some(s) =>
              && NulFree(s) && offset + |s| <= |data| && data[offset..offset + |s|] == s
              && (offset + |s| < |data| ==> data[offset + |s|] == 0)
              && exists k :: offset <= k < |data| && data[k] != 0
  {
    CStrIs(data, offset);
  }

  lemma {:induction false} CStrIs(data: seq<Byte>, offset: nat)
    requires offset <= |data|
    ensures var s := CStr(data, offset);
            && offset + |s| <= |data| && data[offset..offset + |s|] == s
            && (offset + |s| < |data| ==> data[offset + |s|] == 0)
    decreases |data| - offset
  {
    if offset < |data| && data[offset] != 0 {
      CStrIs(data, offset + 1);
      var s := CStr(data, offset + 1);
      assert data[offset..offset + 1 + |s|] == [data[offset]] + data[offset + 1..offset + 1 + |s|];
    }
  }

  /** Key and value pairs from `offset` on; the transfer mode is a key without a value. `None` where the
      server would fail for want of a string. */
  function Options(data: seq<Byte>, offset: nat): Option<Settings>
    decreases |data| - offset
  {
    if offset >= |data| then Some(map[])
    else match Cstring(data, offset)
      case None => None
      case Some(key) =>
        if key == OCTET || key == NETASCII then Options(data, offset + |key| + 1)
        else match Cstring(data, offset + |key| + 1)
          case None => None
          case Some(value) =>
            Over(map[key := value], Options(data, offset + |key| + 1 + |value| + 1))
  }

  /** `found`, overridden by what the rest of the request says. */
  function Over(found: Settings, rest: Option<Settings>): Option<Settings> {
    match rest case None => None case Some(m) => Some(found + m)
  }

  /** A key that is neither transfer mode, with nothing behind its NUL: reading fails. */
  lemma MissingValue(key: seq<Byte>)
    requires key != [] && NulFree(key)
    requires key != [0x6F, 0x63, 0x74, 0x65, 0x74] && key != [0x6E, 0x65, 0x74, 0x61, 0x73, 0x63, 0x69, 0x69]
    ensures Options(key + [0], 0) == None
  {
    assert (key + [0])[0..0 + |key|] == key;
    Reads(key + [0], 0, key);
  }

  /** The rest of the request wins over what came before it, and adds to it. */
  lemma LaterWins(found: Settings, rest: Option<Settings>)
    ensures Over(found, rest) == None <==> rest == None
    ensures rest.Some? ==> Over(found, rest).Some? && forall k :: k in found || k in rest.value ==>
              && k in Over(found, rest).value
              && Over(found, rest).value[k] == if k in rest.value then rest.value[k] else found[k]
  {
  }

  lemma OverTwice(found: Settings, key: seq<Byte>, value: seq<Byte>, rest: Option<Settings>)
    ensures Over(found, Over(map[key := value], rest)) == Over(found[key := value], rest)
  {
    if rest.Some? {
      assert found + (map[key := value] + rest.value) == found[key := value] + rest.value;
    }
  }

  lemma OverEnds(m: Settings, rest: Option<Settings>)
    ensures Over(map[], rest) == rest && Over(m, Some(map[])) == Some(m) && Over(m, None) == None
  {
    assert m + map[] == m;
    assert rest.Some? ==> map[] + rest.value == rest.value;
  }

  /** tftp_options: a later option overrides an earlier one of the same name. */
  method ReadOptions(data: seq<Byte>, start: nat) returns (options: Option<Settings>)
    ensures options == Options(data, start)
  {
    var offset := start;
    var found: Settings := map[];
    hide Cstring, Over;
    OverEnds(map[], Options(data, start));
    while offset < |data|
      invariant Options(data, start) == Over(found, Options(data, offset))
      decreases |data| - offset
    {
      var key := Cstring(data, offset);
      if key == None {
        OverEnds(found, None);
        return None;
      }
      offset := offset + |key.value| + 1;
      if key.value == OCTET || key.value == NETASCII {
        continue;
      }
      var value := Cstring(data, offset);
      if value == None {
        OverEnds(found, None);
        return None;
      }
      offset := offset + |value.value| + 1;
      OverTwice(found, key.value, value.value, Options(data, offset));
      found := found[key.value := value.value];
    }
    OverEnds(found, None);
    return Some(found);
  }

  lemma Piece(p: seq<Byte>, pre: seq<Byte>, s: seq<Byte>, post: seq<Byte>, at: nat)
    requires s != [] && NulFree(s) && p == pre + Z(s) + post && at == |pre|
    ensures Cstring(p, at) == Some(s)
  {
    assert p[at..at + |s|] == s;
    Reads(p, at, s);
  }

  lemma Reads(p: seq<Byte>, at: nat, s: seq<Byte>)
    requires s != [] && NulFree(s) && at + |s| < |p| && p[at..at + |s|] == s && p[at + |s|] == 0
    ensures Cstring(p, at) == Some(s)
  {
    StringLies(p, at, s);
    assert p[at] == s[0];
  }

  lemma Literals()
    ensures NulFree(OCTET) && NulFree(BLKSIZE) && NulFree(TWO_FIVE_SIX)
    ensures |Z(OCTET)| == 6 && |Z(BLKSIZE)| == 8 && |Z(TWO_FIVE_SIX)| == 4
  {
  }

  /** Four strings behind `head` are each read at their place. */
  lemma FourStrings(p: seq<Byte>, head: seq<Byte>, a: seq<Byte>, b: seq<Byte>, c: seq<Byte>, d: seq<Byte>)
    requires p == head + Z(a) + Z(b) + Z(c) + Z(d) && a != [] && b != [] && c != [] && d != []
    requires NulFree(a) && NulFree(b) && NulFree(c) && NulFree(d)
    ensures var n := |head|;
            && Cstring(p, n) == Some(a) && Cstring(p, n + |Z(a)|) == Some(b)
            && Cstring(p, n + |Z(a)| + |Z(b)|) == Some(c) && Cstring(p, n + |Z(a)| + |Z(b)| + |Z(c)|) == Some(d)
            && |p| == n + |Z(a)| + |Z(b)| + |Z(c)| + |Z(d)|
  {
    hide Cstring, Z, NulFree;
    FirstString(p, head, a, Z(b), Z(c), Z(d));
    FirstString(p, head + Z(a), b, Z(c), Z(d), []);
    FirstString(p, head + Z(a) + Z(b), c, Z(d), [], []);
    FirstString(p, head + Z(a) + Z(b) + Z(c), d, [], [], []);
  }

  lemma FirstString(p: seq<Byte>, pre: seq<Byte>, s: seq<Byte>, x: seq<Byte>, y: seq<Byte>, z: seq<Byte>)
    requires s != [] && NulFree(s) && p == pre + Z(s) + x + y + z
    ensures Cstring(p, |pre|) == Some(s)
  {
    hide Cstring, Z, NulFree;
    assert p == pre + Z(s) + (x + y + z);
    Piece(p, pre, s, x + y + z, |pre|);
  }

  /** The server reads from a request the name put in and the one option, a block size of 256: so it
      answers with an option acknowledgement. */
  lemma RequestRoundTrip(mode: Word, name: seq<Byte>)
    requires name != [] && NulFree(name)
    ensures Cstring(Packet(mode, name), 2) == Some(name)
    ensures Options(Packet(mode, name), 2 + |name| + 1) == Some(map[BLKSIZE := TWO_FIVE_SIX])
    ensures Packet(mode, name)[0] as int * 0x100 + Packet(mode, name)[1] as int == mode
    ensures Packet(mode, name)[2..2 + |name|] == name && Packet(mode, name)[2 + |name|] == 0
    ensures Packet(mode, name)[2 + |name| + 1..] ==
            [0x6F, 0x63, 0x74, 0x65, 0x74, 0, 0x62, 0x6C, 0x6B, 0x73, 0x69, 0x7A, 0x65, 0, 0x32, 0x35, 0x36, 0]
  {
    PacketBytes(mode, name);
    hide *;
    var p, a := Packet(mode, name), 2 + |name| + 1;
    PacketStrings(mode, name);
    OneOption(p, a);
  }

  lemma PacketBytes(mode: Word, name: seq<Byte>)
    ensures var p := Packet(mode, name);
            && p[0] as int * 0x100 + p[1] as int == mode && p[2..2 + |name|] == name && p[2 + |name|] == 0
            && p[2 + |name| + 1..] ==
               [0x6F, 0x63, 0x74, 0x65, 0x74, 0, 0x62, 0x6C, 0x6B, 0x73, 0x69, 0x7A, 0x65, 0, 0x32, 0x35, 0x36, 0]
  {
    var p, a := Packet(mode, name), 2 + |name| + 1;
    assert p == [Hi(mode), Lo(mode)] + name + [0] + (Z(OCTET) + Z(BLKSIZE) + Z(TWO_FIVE_SIX));
    assert p[a..] == Z(OCTET) + Z(BLKSIZE) + Z(TWO_FIVE_SIX);
  }

  /** The other transfer mode, `netascii`, is no option either. */
  lemma ModeIsNoOption()
    ensures Options([0x6E, 0x65, 0x74, 0x61, 0x73, 0x63, 0x69, 0x69, 0], 0) == Some(map[])
  {
    var p: seq<Byte> := [0x6E, 0x65, 0x74, 0x61, 0x73, 0x63, 0x69, 0x69, 0];
    assert p[0..0 + 8] == NETASCII;
    Reads(p, 0, NETASCII);
    hide Cstring;
    assert Options(p, 9) == Some(map[]);
  }

  predicate IsOption(key: seq<Byte>) {
    key != [0x6F, 0x63, 0x74, 0x65, 0x74] && key != [0x6E, 0x65, 0x74, 0x61, 0x73, 0x63, 0x69, 0x69]
  }

  lemma OptionStep(p: seq<Byte>, at: nat, key: seq<Byte>, value: seq<Byte>)
    requires IsOption(key) && at + |key| + |value| + 2 <= |p|
    requires Cstring(p, at) == Some(key) && Cstring(p, at + |key| + 1) == Some(value)
    ensures Options(p, at) == Over(map[key := value], Options(p, at + |key| + |value| + 2))
  {
    hide Cstring, Over;
    assert at + |key| + 1 + |value| + 1 == at + |key| + |value| + 2;
  }

  /** Two options, the second over the first where they have the same name. */
  lemma TwoOptions(k1: seq<Byte>, v1: seq<Byte>, k2: seq<Byte>, v2: seq<Byte>)
    requires k1 != [] && v1 != [] && k2 != [] && v2 != [] && IsOption(k1) && IsOption(k2)
    requires NulFree(k1) && NulFree(v1) && NulFree(k2) && NulFree(v2)
    ensures Options(k1 + [0] + v1 + [0] + k2 + [0] + v2 + [0], 0) == Some(map[k1 := v1][k2 := v2])
  {
    hide *;
    FourPut(k1, v1, k2, v2);
    FourStrings(k1 + [0] + v1 + [0] + k2 + [0] + v2 + [0], [], k1, v1, k2, v2);
    Sizes(k1, v1, k2);
    TwoRead(k1 + [0] + v1 + [0] + k2 + [0] + v2 + [0], k1, v1, k2, v2);
  }

  lemma FourPut(k1: seq<Byte>, v1: seq<Byte>, k2: seq<Byte>, v2: seq<Byte>)
    ensures k1 + [0] + v1 + [0] + k2 + [0] + v2 + [0] == [] + Z(k1) + Z(v1) + Z(k2) + Z(v2)
    ensures |k1 + [0] + v1 + [0] + k2 + [0] + v2 + [0]| == |k1| + |v1| + |k2| + |v2| + 4
  {
    var a, b := k1 + [0] + v1 + [0], [] + Z(k1) + Z(v1);
    assert a == b;
    assert a + k2 + [0] == b + Z(k2);
  }

  lemma Sizes(k1: seq<Byte>, v1: seq<Byte>, k2: seq<Byte>)
    ensures |Z(k1)| == |k1| + 1 && |Z(v1)| == |v1| + 1 && |Z(k2)| == |k2| + 1
  {
  }

  lemma TwoRead(p: seq<Byte>, k1: seq<Byte>, v1: seq<Byte>, k2: seq<Byte>, v2: seq<Byte>)
    requires IsOption(k1) && IsOption(k2) && |p| == |k1| + |v1| + |k2| + |v2| + 4
    requires Cstring(p, 0) == Some(k1) && Cstring(p, |k1| + 1) == Some(v1)
    requires Cstring(p, |k1| + |v1| + 2) == Some(k2) && Cstring(p, |k1| + |v1| + |k2| + 3) == Some(v2)
    ensures Options(p, 0) == Some(map[k1 := v1][k2 := v2])
  {
    hide Cstring, Options, IsOption;
    OptionStep(p, 0, k1, v1);
    OptionStep(p, |k1| + |v1| + 2, k2, v2);
    NoOptions(p);
    assert map[k1 := v1] + (map[k2 := v2] + map[]) == map[k1 := v1][k2 := v2];
  }

  lemma NoOptions(p: seq<Byte>)
    ensures Options(p, |p|) == Some(map[])
  {
  }

  lemma PacketStrings(mode: Word, name: seq<Byte>)
    requires name != [] && NulFree(name)
    ensures var p, a := Packet(mode, name), 2 + |name| + 1;
            && Cstring(p, 2) == Some(name) && Cstring(p, a) == Some(OCTET) && Cstring(p, a + 6) == Some(BLKSIZE)
            && Cstring(p, a + 14) == Some(TWO_FIVE_SIX) && |p| == a + 18
  {
    hide Cstring, Hi, Lo, NulFree, Z;
    Literals();
    var head: seq<Byte> := [Hi(mode), Lo(mode)];
    ZSize(name);
    FourStrings(Packet(mode, name), head, name, OCTET, BLKSIZE, TWO_FIVE_SIX);
  }

  lemma ZSize(s: seq<Byte>)
    ensures |Z(s)| == |s| + 1
  {
  }

  lemma OneOption(p: seq<Byte>, a: nat)
    requires |p| == a + 18
    requires Cstring(p, a) == Some(OCTET) && Cstring(p, a + 6) == Some(BLKSIZE)
    requires Cstring(p, a + 14) == Some(TWO_FIVE_SIX)
    ensures Options(p, a) == Some(map[BLKSIZE := TWO_FIVE_SIX])
  {
    hide Cstring;
    assert |OCTET| == 5 && |BLKSIZE| == 7 && |TWO_FIVE_SIX| == 3;
    assert Options(p, a + 18) == Some(map[]);
    assert map[BLKSIZE := TWO_FIVE_SIX] + map[] == map[BLKSIZE := TWO_FIVE_SIX];
    assert OCTET != BLKSIZE && NETASCII != BLKSIZE;
    assert Options(p, a + 6) == Some(map[BLKSIZE := TWO_FIVE_SIX]);
  }

  /** A C64 name fits a request exactly when it encodes to at most 18 bytes: two for each byte of it that has
      to be escaped, besides itself. Letters, digits and the like always fit, and travel as they are. */
  lemma NameFits(device: Byte, name: seq<Byte>)
    requires device < 16
    ensures var m := FileName.Meaning(name);
            |FileName.Sent(device, name)| <= 20 <==> |m| + 2 * FileName.Others(m) <= 18
    ensures FileName.Others(name) == 0 ==>
              && |FileName.Sent(device, name)| <= 20
              && FileName.Sent(device, name)[2..] == FileName.Meaning(name)
    ensures NulFree(FileName.Sent(device, name)) && FileName.Sent(device, name) != []
  {
    hide FileName.Meaning, FileName.Encode, FileName.Others;
    var m := FileName.Meaning(name);
    FileName.EncodeSize(m);
    FileName.EncodeLength(m);
    FileName.EncodeLength(name);
    FileName.MeaningIs(name);
    if FileName.Others(name) == 0 {
      assert forall k :: 0 <= k < |m| ==> m[k] in name;
      assert FileName.Sent(device, name)[2..] == FileName.Encode(m);
    }
  }

  /** Its name and device number reach the server. */
  lemma NameTravels(device: Byte, name: seq<Byte>)
    requires 8 <= device < 16
    ensures var m := FileName.Meaning(name);
            |FileName.Sent(device, name)| <= 20 <==> |m| + 2 * FileName.Others(m) <= 18
    ensures var got := Cstring(Packet(1, FileName.Sent(device, name)), 2);
            && got.Some?
            && var (d, rest) := FileName.SplitDevice(got.value);
               d == device && FileName.C64FileDecode(rest) == FileName.WithoutOverwrite(FileName.Meaning(name), true)
  {
    hide *;
    NameFits(device, name);
    RequestRoundTrip(1, FileName.Sent(device, name));
    FileName.NameRoundTrip(device, name);
  }
}
