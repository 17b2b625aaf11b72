/** URL encoding and its in-place inverse. */
module Url {
  import opened Bytes
  import opened CString
  import opened Hex

  const SPACE: Byte := 0x20
  const PERCENT: Byte := 0x25
  const PLUS: Byte := 0x2B

  predicate IsAlnum(c: Byte) {
    0x30 <= c <= 0x39 || 0x41 <= c <= 0x5A || 0x61 <= c <= 0x7A
  }

  function EncodedByte(c: Byte): seq<Byte> {
    if c == SPACE then [PLUS]
    else if IsAlnum(c) then [c]
    else [PERCENT, HexDigit(c / 16), HexDigit(c % 16)]
  }

  function Encoded(s: seq<Byte>): seq<Byte> {
    if s == [] then [] else EncodedByte(s[0]) + Encoded(s[1..])
  }

  /** Where the turn after the one at `a` begins. */
  function After(mem: seq<Byte>, a: nat): nat
    requires a < |mem|
  {
    a + if mem[a] == PERCENT then 3 else 1
  }

  function CharAt(mem: seq<Byte>, a: nat): Byte
    requires a < |mem| && After(mem, a) <= |mem|
  {
    if mem[a] == PERCENT then PairValue(mem[a + 1], mem[a + 2]) else if mem[a] == PLUS then SPACE else mem[a]
  }

  /** Every `%` that is read as one has two more characters behind it. */
  predicate WholeEscapes(s: seq<Byte>) {
    s == [] || (After(s, 0) <= |s| && WholeEscapes(s[After(s, 0)..]))
  }

  function Decoded(s: seq<Byte>): (t: seq<Byte>)
    requires WholeEscapes(s)
    ensures |t| <= |s|
  {
    if s == [] then [] else [CharAt(s, 0)] + Decoded(s[After(s, 0)..])
  }

  /** Decoding undoes encoding, for every string a C string can hold. */
  lemma {:induction false} UrlRoundTrip(s: seq<Byte>)
    requires NulFree(s)
    ensures NulFree(Encoded(s)) && WholeEscapes(Encoded(s))
    ensures Decoded(Encoded(s)) == s
    ensures |s| <= |Encoded(s)| <= 3 * |s|
  {
    if s != [] {
      NulFreeTail(s);
      UrlRoundTrip(s[1..]);
      ByteRoundTrip(s[0], Encoded(s[1..]));
    }
  }

  lemma ByteRoundTrip(c: Byte, rest: seq<Byte>)
    requires c != 0 && NulFree(rest) && WholeEscapes(rest)
    ensures NulFree(EncodedByte(c) + rest) && WholeEscapes(EncodedByte(c) + rest)
    ensures Decoded(EncodedByte(c) + rest) == [c] + Decoded(rest)
  {
    HexPair(c);
    assert (EncodedByte(c) + rest)[|EncodedByte(c)|..] == rest;
  }

  /** A space travels as `+`; a letter or digit as itself; any other byte as `%` and two digits in lower case. */
  lemma EncodesOne(c: Byte)
    ensures c == 0x20 ==> Encoded([c]) == [0x2B]
    ensures 0x30 <= c <= 0x39 || 0x41 <= c <= 0x5A || 0x61 <= c <= 0x7A ==> Encoded([c]) == [c]
    ensures !(c == 0x20 || 0x30 <= c <= 0x39 || 0x41 <= c <= 0x5A || 0x61 <= c <= 0x7A) ==>
              var e := Encoded([c]);
              && |e| == 3 && e[0] == 0x25 && HexValue(e[1]) == c / 16 && HexValue(e[2]) == c % 16
              && forall k :: 1 <= k < 3 ==> 0x30 <= e[k] <= 0x39 || 0x61 <= e[k] <= 0x66
  {
    assert [c][1..] == [];
    HexPair(c);
  }

  /** The decoder turns `+` into a space and `%` with two characters into the byte they spell, a character
      that is no hex digit counting as 0; it leaves the rest as it is. */
  lemma DecodesOne(c: Byte, hi: Byte, lo: Byte, rest: seq<Byte>)
    requires WholeEscapes(rest)
    ensures WholeEscapes([0x2B] + rest) && Decoded([0x2B] + rest) == [0x20] + Decoded(rest)
    ensures WholeEscapes([0x25, hi, lo] + rest)
    ensures Decoded([0x25, hi, lo] + rest) == [16 * HexValue(hi) + HexValue(lo)] + Decoded(rest)
    ensures c != 0x2B && c != 0x25 ==> WholeEscapes([c] + rest) && Decoded([c] + rest) == [c] + Decoded(rest)
  {
    assert ([0x2B] + rest)[1..] == rest && ([c] + rest)[1..] == rest;
    assert ([0x25, hi, lo] + rest)[3..] == rest;
  }

  lemma NulFreeTail(s: seq<Byte>)
    requires s != [] && NulFree(s)
    ensures NulFree(s[1..])
  {
    assert forall k :: 0 <= k < |s| - 1 ==> s[1..][k] == s[k + 1];
  }

  /** The encoding of a string grows exactly by two for every character that is neither alphanumeric
      nor a space; so it is the string itself when there is none of either. */
  lemma {:induction false} EncodedLength(s: seq<Byte>)
    ensures |Encoded(s)| == |s| + 2 * Escapes(s)
    ensures Encoded(s) == s <==> forall k :: 0 <= k < |s| ==>
              0x30 <= s[k] <= 0x39 || 0x41 <= s[k] <= 0x5A || 0x61 <= s[k] <= 0x7A
  {
    if s != [] {
      EncodedLength(s[1..]);
      assert s == [s[0]] + s[1..];
      assert forall k :: 0 <= k < |s| - 1 ==> s[1..][k] == s[k + 1];
      if Escapes(s) == 0 {
        assert Encoded(s) == [Encoded(s)[0]] + Encoded(s[1..]);
      } else {
        EscapeSeen(s);
      }
    }
  }

  function Escapes(s: seq<Byte>): nat {
    if s == [] then 0 else (if s[0] == SPACE || IsAlnum(s[0]) then 0 else 1) + Escapes(s[1..])
  }

  lemma {:induction false} EscapeSeen(s: seq<Byte>)
    requires Escapes(s) > 0
    ensures exists k :: 0 <= k < |s| && !IsAlnum(s[k])
  {
    if IsAlnum(s[0]) || s[0] == SPACE {
      EscapeSeen(s[1..]);
      var k :| 0 <= k < |s| - 1 && !IsAlnum(s[1..][k]);
      assert !IsAlnum(s[k + 1]);
    } else {
      assert !IsAlnum(s[0]);
    }
  }

  /** With `read` characters taken and `rest` to come, the decoder has written the decoding of what it
      has read, and never more bytes than it read: in place, it overwrites nothing still to come. */
  lemma {:induction false} WritesBehindReads(read: seq<Byte>, rest: seq<Byte>)
    requires WholeEscapes(read) && WholeEscapes(read + rest)
    ensures WholeEscapes(rest) && Decoded(read + rest) == Decoded(read) + Decoded(rest)
    ensures |Decoded(read)| <= |read|
    decreases |read|
  {
    hide WholeEscapes, Decoded, CharAt;
    if read == [] {
      NothingRead(read, rest);
    } else {
      WholeTail(read, rest);
      WritesBehindReads(read[After(read, 0)..], rest);
      Regroup(read, rest);
    }
  }

  lemma NothingRead(read: seq<Byte>, rest: seq<Byte>)
    requires read == [] && WholeEscapes(read + rest)
    ensures WholeEscapes(read) && read + rest == rest && Decoded(rest) == Decoded(read) + Decoded(rest)
  {
  }

  lemma WholeTail(read: seq<Byte>, rest: seq<Byte>)
    requires read != [] && WholeEscapes(read) && WholeEscapes(read + rest)
    ensures var n := After(read, 0);
            && n <= |read| && (read + rest)[n..] == read[n..] + rest
            && WholeEscapes(read[n..]) && WholeEscapes(read[n..] + rest)
  {
    hide Decoded;
    var n := After(read, 0);
    assert (read + rest)[n..] == read[n..] + rest;
  }

  lemma Regroup(read: seq<Byte>, rest: seq<Byte>)
    requires read != [] && WholeEscapes(read) && WholeEscapes(read + rest) && WholeEscapes(rest)
    requires var n := After(read, 0);
             && n <= |read| && (read + rest)[n..] == read[n..] + rest
             && WholeEscapes(read[n..]) && WholeEscapes(read[n..] + rest)
             && Decoded(read[n..] + rest) == Decoded(read[n..]) + Decoded(rest)
    ensures Decoded(read + rest) == Decoded(read) + Decoded(rest)
  {
    var n := After(read, 0);
    assert Decoded(read) == [CharAt(read, 0)] + Decoded(read[n..]);
    assert Decoded(read + rest) == [CharAt(read, 0)] + Decoded((read + rest)[n..]);
    hide WholeEscapes, Decoded;
    Associate([CharAt(read, 0)], Decoded(read[n..]), Decoded(rest));
  }

  lemma Associate(a: seq<Byte>, b: seq<Byte>, c: seq<Byte>)
    ensures a + (b + c) == (a + b) + c
  {
  }

  // ---------------------------------------------------------------- in memory

  /** Reading from `a` on, the decoder meets a NUL between turns before the memory ends. An escape that
      the terminator cuts short hides it, and reading goes on behind it. */
  predicate Stops(mem: seq<Byte>, a: nat)
    decreases |mem| - a
  {
    a < |mem| && (mem[a] == 0 || Stops(mem, After(mem, a)))
  }

  function StopAt(mem: seq<Byte>, a: nat): (e: nat)
    requires Stops(mem, a)
    ensures a <= e < |mem| && mem[e] == 0
    decreases |mem| - a
  {
    if mem[a] == 0 then a else StopAt(mem, After(mem, a))
  }

  /** What the decoder makes of the memory from `a` on. */
  function DecodedAt(mem: seq<Byte>, a: nat): (t: seq<Byte>)
    requires Stops(mem, a)
    ensures |t| <= StopAt(mem, a) - a
    decreases |mem| - a
  {
    if mem[a] == 0 then []
    else
      assert Stops(mem, After(mem, a));
      [CharAt(mem, a)] + DecodedAt(mem, After(mem, a))
  }

  /** The decoder stops at the terminator of the string exactly when every escape in it is whole; then
      it makes of the memory what it makes of the string. */
  lemma {:induction false} StaysInString(mem: seq<Byte>, a: nat)
    requires Terminated(mem, a)
    ensures var s := CStr(mem, a);
            && (WholeEscapes(s) <==> Stops(mem, a) && StopAt(mem, a) == a + |s|)
            && (WholeEscapes(s) ==> DecodedAt(mem, a) == Decoded(s))
    decreases |mem| - a
  {
    var s := CStr(mem, a);
    if mem[a] != 0 {
      CStrTail(mem, a);
      if mem[a] != PERCENT {
        StaysInString(mem, a + 1);
      } else if |s| >= 3 {
        CStrTail(mem, a + 1);
        CStrTail(mem, a + 2);
        assert s[3..] == s[1..][1..][1..];
        StaysInString(mem, a + 3);
      }
    }
  }

  /** The string `%`, with two characters and a NUL behind its terminator: decoding goes on to there. With
      nothing behind the terminator it leaves the memory. */
  lemma CutEscape(c: Byte)
    requires c != 0
    ensures Terminated([PERCENT, 0, c, 0], 0) && CStr([PERCENT, 0, c, 0], 0) == [PERCENT]
    ensures Stops([PERCENT, 0, c, 0], 0) && StopAt([PERCENT, 0, c, 0], 0) == 3
    ensures Terminated([PERCENT, 0], 0) && !Stops([PERCENT, 0], 0)
  {
    var mem: seq<Byte> := [PERCENT, 0, c, 0];
    assert Terminated(mem, 1) && CStr(mem, 1) == [];
    assert Stops(mem, 3);
    assert Terminated([PERCENT, 0 as Byte], 1);
  }

  lemma CStrTail(mem: seq<Byte>, a: nat)
    requires Terminated(mem, a)
    ensures var s := CStr(mem, a);
            s == [] || (Terminated(mem, a + 1) && s[0] == mem[a] != 0 && s[1..] == CStr(mem, a + 1))
  {
  }

  /** int2h: two digits and a NUL. */
  method IntToHex(c: Byte, hstr: array<Byte>, at: nat)
    requires at + 2 < hstr.Length
    modifies hstr
    ensures hstr[at] == HexDigit(c / 16) && hstr[at + 1] == HexDigit(c % 16) && hstr[at + 2] == 0
    ensures forall k :: 0 <= k < hstr.Length && !(at <= k < at + 3) ==> hstr[k] == old(hstr[k])
  {
    hstr[at + 1] := c % 16 + 0x30;
    if c % 16 > 9 {
      hstr[at + 1] := c % 16 - 10 + 0x61;
    }
    var high: Byte := c / 16;
    hstr[at] := high + 0x30;
    if high > 9 {
      hstr[at] := high - 10 + 0x61;
    }
    hstr[at + 2] := 0;
  }

  /** One turn of the loop: the encoding of `c`, with a NUL left behind an escape. */
  method PutEncoded(c: Byte, urlbuf: array<Byte>, at: nat) returns (next: nat)
    requires at + |EncodedByte(c)| < urlbuf.Length
    modifies urlbuf
    ensures next == at + |EncodedByte(c)|
    ensures forall k :: 0 <= k < |EncodedByte(c)| ==> urlbuf[at + k] == EncodedByte(c)[k]
    ensures forall k :: 0 <= k < urlbuf.Length && !(at <= k <= next) ==> urlbuf[k] == old(urlbuf[k])
  {
    if c == SPACE || IsAlnum(c) {
      urlbuf[at] := if c == SPACE then PLUS else c;
      return at + 1;
    }
    urlbuf[at] := PERCENT;
    IntToHex(c, urlbuf, at + 1);
    next := at + 3;
  }

  method UrlEncode(str: array<Byte>, urlbuf: array<Byte>)
    requires str != urlbuf && Terminated(str[..], 0)
    requires |Encoded(CStr(str[..], 0))| < urlbuf.Length
    modifies urlbuf
    ensures var e := Encoded(CStr(str[..], 0));
            && Terminated(urlbuf[..], 0) && CStr(urlbuf[..], 0) == e
            && urlbuf[|e| + 1..] == old(urlbuf[|e| + 1..])
  {
    ghost var s := CStr(str[..], 0);
    CStrLies(str[..], 0);
    UrlRoundTrip(s);
    var end := EncodeAll(str, urlbuf, s, Encoded(s));
    urlbuf[end] := 0;
    assert urlbuf[..end] == Encoded(s);
    StringLies(urlbuf[..], 0, Encoded(s));
  }

  /** The loop over the characters of `s`, which lies in `str`. */
  method EncodeAll(str: array<Byte>, urlbuf: array<Byte>, ghost s: seq<Byte>, ghost e: seq<Byte>) returns (j: nat)
    requires str != urlbuf && |s| < str.Length && NulFree(s) && str[|s|] == 0
    requires forall k :: 0 <= k < |s| ==> str[k] == s[k]
    requires e == Encoded(s) && |e| < urlbuf.Length
    modifies urlbuf
    ensures j == |e|
    ensures forall k :: 0 <= k < |e| ==> urlbuf[k] == e[k]
    ensures forall k :: |e| < k < urlbuf.Length ==> urlbuf[k] == old(urlbuf[k])
  {
    assert s[0..] == s && e[0..] == e;
    hide Encoded, EncodedByte;
    var i := 0;
    j := 0;
    while str[i] != 0
      invariant 0 <= i <= |s| && 0 <= j <= |e| && e[j..] == Encoded(s[i..])
      invariant forall k :: 0 <= k < j ==> urlbuf[k] == e[k]
      invariant forall k :: |e| < k < urlbuf.Length ==> urlbuf[k] == old(urlbuf[k])
      decreases |s| - i
    {
      var c := str[i];
      EncodedFront(s, i);
      DropFront(e, j, EncodedByte(c), Encoded(s[i + 1..]));
      j := PutEncoded(c, urlbuf, j);
      i := i + 1;
    }
    EncodedEmpty(s, i);
  }

  lemma EncodedEmpty(s: seq<Byte>, i: nat)
    requires i == |s|
    ensures Encoded(s[i..]) == []
  {
    assert s[i..] == [];
  }

  lemma EncodedFront(s: seq<Byte>, i: nat)
    requires i < |s|
    ensures Encoded(s[i..]) == EncodedByte(s[i]) + Encoded(s[i + 1..])
  {
    assert s[i..][1..] == s[i + 1..];
  }

  /** urlDecode works in place: what it has written never reaches what it has yet to read. */
  method UrlDecode(urlbuf: array<Byte>)
    requires Stops(urlbuf[..], 0)
    modifies urlbuf
    ensures var t := DecodedAt(old(urlbuf[..]), 0);
            |t| < urlbuf.Length && urlbuf[..] == t + [0] + old(urlbuf[|t| + 1..])
  {
    var end := DecodeAll(urlbuf, DecodedAt(urlbuf[..], 0));
    urlbuf[end] := 0;
  }

  /** The loop over the characters. */
  method DecodeAll(urlbuf: array<Byte>, ghost t: seq<Byte>) returns (dst: nat)
    requires Stops(urlbuf[..], 0) && t == DecodedAt(urlbuf[..], 0)
    modifies urlbuf
    ensures dst == |t| < urlbuf.Length
    ensures forall k :: 0 <= k < |t| ==> urlbuf[k] == t[k]
    ensures forall k :: |t| <= k < urlbuf.Length ==> urlbuf[k] == old(urlbuf[k])
  {
    ghost var mem := urlbuf[..];
    assert t[0..] == t;
    hide DecodedAt, Stops, StopAt, After, CharAt;
    var src := 0;
    dst := 0;
    TurnAt(mem, src, t, dst);
    while urlbuf[src] != 0
      invariant 0 <= dst <= src < urlbuf.Length && dst <= |t|
      invariant forall k :: 0 <= k < dst ==> urlbuf[k] == t[k]
      invariant forall k :: dst <= k < urlbuf.Length ==> urlbuf[k] == mem[k]
      invariant Stops(mem, src) && t[dst..] == DecodedAt(mem, src)
      decreases urlbuf.Length - src
    {
      TurnAt(mem, src, t, dst);
      var c;
      c, src := ReadChar(urlbuf, src, mem);
      urlbuf[dst] := c;
      dst := dst + 1;
      TurnAt(mem, src, t, dst);
    }
    TurnAt(mem, src, t, dst);
  }

  /** A plain character or an escape, and where the next one is. */
  method ReadChar(urlbuf: array<Byte>, at: nat, ghost mem: seq<Byte>) returns (c: Byte, next: nat)
    requires at < urlbuf.Length == |mem| && forall k :: at <= k < |mem| ==> urlbuf[k] == mem[k]
    requires After(mem, at) <= |mem|
    ensures next == After(mem, at) > at && c == CharAt(mem, at)
  {
    next := at;
    c := urlbuf[next];
    if c == PLUS {
      c := SPACE;
    }
    if c == PERCENT {
      next := next + 1;
      c := urlbuf[next];
      next := next + 1;
      c := 16 * HexValue(c) + HexValue(urlbuf[next]);
    }
    next := next + 1;
  }

  /** A turn at `i` ends the decoding, `t`, or gives its character `j`. */
  lemma TurnAt(mem: seq<Byte>, i: nat, t: seq<Byte>, j: nat)
    requires Stops(mem, i) && j <= |t| && t[j..] == DecodedAt(mem, i)
    ensures i < |mem| && (mem[i] == 0 ==> j == |t|)
    ensures mem[i] != 0 ==>
              && j < |t| && After(mem, i) < |mem| && t[j] == CharAt(mem, i)
              && Stops(mem, After(mem, i)) && t[j + 1..] == DecodedAt(mem, After(mem, i))
  {
    if mem[i] != 0 {
      hide After, CharAt;
      assert Stops(mem, After(mem, i));
      DropFront(t, j, [CharAt(mem, i)], DecodedAt(mem, After(mem, i)));
    }
  }
}
