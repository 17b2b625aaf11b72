/** File names: printed by the device for a TFTP request, parsed back by the server. */
module FileName {
  import opened Bytes
  import opened CString
  import opened Hex

  const LIMIT := 16         // C64_FILE_LIMIT
  const SPACE: Byte := 0x20
  const PERCENT: Byte := 0x25
  const SLASH: Byte := 0x2F
  const SHIFT_SPACE: Byte := 0xA0
  const NEWLINE: Byte := 0x0A

  // ---------------------------------------------------------------- the device's side

  predicate Unreserved(c: Byte) {
    || 0x30 <= c <= 0x39 || 0x41 <= c <= 0x5A
    || c == SPACE || c == 0x2D || c == 0x5F || c == 0x2E
  }

  function EncodeByte(c: Byte): seq<Byte> {
    if Unreserved(c) then [c] else [PERCENT, HexDigit(c / 16), HexDigit(c % 16)]
  }

  function Encode(s: seq<Byte>): seq<Byte> {
    if s == [] then [] else EncodeByte(s[0]) + Encode(s[1..])
  }

  /** `s` without the padding bytes 0xA0. */
  function Unpadded(s: seq<Byte>): seq<Byte> {
    if s == [] then [] else (if s[0] == SHIFT_SPACE then [] else [s[0]]) + Unpadded(s[1..])
  }

  /** `s` without the spaces at its end. */
  function Stripped(s: seq<Byte>): seq<Byte> {
    if s != [] && s[|s| - 1] == SPACE then Stripped(s[..|s| - 1]) else s
  }

  /** What a C64 name stands for: its first 16 characters, unpadded, without trailing spaces. */
  function Meaning(name: seq<Byte>): seq<Byte> {
    Stripped(Unpadded(if |name| <= LIMIT then name else name[..LIMIT]))
  }

  /** One character in front: it vanishes if it is padding, or a space with nothing behind it. */
  lemma {:induction false} StripFront(c: Byte, s: seq<Byte>)
    ensures Stripped([c] + s) == if c == SPACE && Stripped(s) == [] then [] else [c] + Stripped(s)
    decreases |s|
  {
    var t := [c] + s;
    if s == [] {
      assert t[..0] == [];
    } else if s[|s| - 1] == SPACE {
      assert t[..|t| - 1] == [c] + s[..|s| - 1];
      StripFront(c, s[..|s| - 1]);
    }
  }

  lemma KeptFront(c: Byte, s: seq<Byte>)
    requires c != 0
    ensures var rest := Stripped(Unpadded(s));
            Stripped(Unpadded([c] + s)) == if c == 0xA0 || (c == 0x20 && rest == []) then rest else [c] + rest
  {
    assert ([c] + s)[1..] == s;
    StripFront(c, Unpadded(s));
    assert [] + Unpadded(s) == Unpadded(s);
  }

  /** What the device sends: its own number, a slash, and the encoded name. */
  function Sent(device: Byte, name: seq<Byte>): seq<Byte> {
    [HexDigit(device % 16), SLASH] + Encode(Meaning(name))
  }

  lemma {:induction false} EncodeSize(s: seq<Byte>)
    ensures |Encode(s)| <= 3 * |s|
    ensures forall k :: 0 <= k < |Encode(s)| ==> Encode(s)[k] != 0 && Encode(s)[k] != NEWLINE
  {
    if s != [] {
      EncodeSize(s[1..]);
    }
  }

  /** How many bytes of `s` are none of the digits, A to Z, space, `-`, `_` and `.`. */
  function Others(s: seq<Byte>): nat {
    if s == [] then 0
    else
      var c := s[0];
      (if 0x30 <= c <= 0x39 || 0x41 <= c <= 0x5A || c in {0x20, 0x2D, 0x5F, 0x2E} then 0 else 1) + Others(s[1..])
  }

  /** Each of those takes two bytes more; a string without them travels as it is, and no other does. */
  lemma {:induction false} EncodeLength(s: seq<Byte>)
    ensures |Encode(s)| == |s| + 2 * Others(s)
    ensures Others(s) == 0 <==> forall k :: 0 <= k < |s| ==>
              0x30 <= s[k] <= 0x39 || 0x41 <= s[k] <= 0x5A || s[k] in {0x20, 0x2D, 0x5F, 0x2E}
    ensures Encode(s) == s <==> Others(s) == 0
  {
    if s != [] {
      EncodeLength(s[1..]);
      assert s == [s[0]] + s[1..];
    }
  }

  /** The escape of any other byte: `%` and two digits, in lower case. */
  lemma Escape(c: Byte)
    requires !(0x30 <= c <= 0x39 || 0x41 <= c <= 0x5A || c in {0x20, 0x2D, 0x5F, 0x2E})
    ensures var e := Encode([c]);
            && |e| == 3 && e[0] == 0x25
            && (forall k :: 1 <= k < 3 ==> 0x30 <= e[k] <= 0x39 || 0x61 <= e[k] <= 0x66)
            && HexValue(e[1]) == c / 16 && HexValue(e[2]) == c % 16
  {
    assert [c][1..] == [];
    HexPair(c);
  }

  /** What a name stands for, in its own terms: at most 16 characters, none of them padding, the last no
      space; and a name that is so already stands for itself. */
  lemma MeaningIs(name: seq<Byte>)
    ensures var m := Meaning(name);
            && |m| <= 16 && (forall k :: 0 <= k < |m| ==> m[k] != 0xA0 && m[k] in name)
            && (m != [] ==> m[|m| - 1] != 0x20)
            && (m == name <==>
                  && |name| <= 16 && (forall k :: 0 <= k < |name| ==> name[k] != 0xA0)
                  && (name != [] ==> name[|name| - 1] != 0x20))
            && (|name| > 16 ==> m == Meaning(name[..16]))
  {
    hide Unpadded, Stripped;
    var first := if |name| <= 16 then name else name[..16];
    assert forall c :: c in first ==> c in name;
    assert |name| > 16 ==> name[..16][..16] == name[..16];
    UnpaddedIs(first);
    StrippedIs(Unpadded(first));
    Front(first, Unpadded(first), Stripped(Unpadded(first)));
  }

  lemma Front(s: seq<Byte>, u: seq<Byte>, t: seq<Byte>)
    requires t <= u && |u| <= |s| && (forall k :: 0 <= k < |u| ==> u[k] != 0xA0 && u[k] in s)
    requires |u| == |s| ==> u == s
    ensures forall k :: 0 <= k < |t| ==> t[k] != 0xA0 && t[k] in s
    ensures t == s ==> u == s
  {
  }

  lemma {:induction false} UnpaddedIs(s: seq<Byte>)
    ensures var u := Unpadded(s);
            && |u| <= |s| && (forall k :: 0 <= k < |u| ==> u[k] != 0xA0 && u[k] in s)
            && (|u| == |s| <==> forall k :: 0 <= k < |s| ==> s[k] != 0xA0) && (|u| == |s| ==> u == s)
  {
    if s != [] {
      UnpaddedIs(s[1..]);
      assert s == [s[0]] + s[1..];
    }
  }

  lemma {:induction false} StrippedIs(s: seq<Byte>)
    ensures var t := Stripped(s);
            t <= s && (t != [] ==> t[|t| - 1] != 0x20) && (t == s <==> s == [] || s[|s| - 1] != 0x20)
  {
    if s != [] && s[|s| - 1] == SPACE {
      StrippedIs(s[..|s| - 1]);
    }
  }

  /** create_tftp_filename builds the name from the right in a buffer of 53 bytes, then moves it behind
      the device number. No index leaves the buffer. */
  method CreateTftpFilename(c64name: array<Byte>, filename: array<Byte>, deviceMode: Byte)
    requires filename.Length == LIMIT * 3 + 5 && filename != c64name && Terminated(c64name[..], 0)
    modifies filename
    ensures Terminated(filename[..], 0) && CStr(filename[..], 0) == Sent(deviceMode, CStr(c64name[..], 0))
  {
    hide CStr, Terminated, Encode, Meaning, Stripped, Unpadded, HexDigit;
    ghost var name := CStr(c64name[..], 0);
    CStrLies(c64name[..], 0);
    var outSize := LIMIT * 3 + 4;
    var start := NameLength(c64name);
    FirstChars(name);
    var outPos := BuildRight(c64name, filename, start, name);
    MoveName(filename, outPos, outSize);
    filename[0] := HexDigit(deviceMode % 16);
    filename[1] := SLASH;
    filename[outSize - outPos + 2] := 0;
    assert filename[2..2 + |Encode(Meaning(name))|] == Encode(Meaning(name));
    SentLies(filename[..], deviceMode, name);
  }

  lemma FirstChars(name: seq<Byte>)
    ensures Meaning(name) == Stripped(Unpadded(name[..if |name| < LIMIT then |name| else LIMIT]))
  {
    hide Stripped, Unpadded;
    assert |name| <= LIMIT ==> name[..|name|] == name;
  }

  lemma SentLies(mem: seq<Byte>, device: Byte, name: seq<Byte>)
    requires var e := Encode(Meaning(name));
             && 2 + |e| < |mem| && mem[0] == HexDigit(device % 16) && mem[1] == SLASH
             && mem[2..2 + |e|] == e && mem[2 + |e|] == 0
    ensures Terminated(mem, 0) && CStr(mem, 0) == Sent(device, name)
  {
    hide Encode, Meaning;
    EncodeSize(Meaning(name));
    var sent := Sent(device, name);
    assert mem[0..0 + |sent|] == sent;
    StringLies(mem, 0, sent);
  }

  /** strlen, at most 16 */
  method NameLength(c64name: array<Byte>) returns (n: nat)
    requires Terminated(c64name[..], 0)
    ensures n == (if |CStr(c64name[..], 0)| < LIMIT then |CStr(c64name[..], 0)| else LIMIT) && n < c64name.Length
  {
    CStrLies(c64name[..], 0);
    ghost var s := CStr(c64name[..], 0);
    n := 0;
    while c64name[n] != 0
      invariant n <= |s| && (n < |s| ==> c64name[n] == s[n])
      decreases |s| - n
    {
      n := n + 1;
    }
    if n >= LIMIT {
      n := LIMIT;
    }
  }

  lemma EncodeFront(c: Byte, s: seq<Byte>)
    ensures Encode([c] + s) == EncodeByte(c) + Encode(s)
  {
    assert ([c] + s)[1..] == s;
  }

  /** One character, in front of what is there from `at` on. */
  method PutLeft(filename: array<Byte>, at: nat, c: Byte) returns (outPos: nat)
    requires 3 <= at <= 52 && filename.Length == LIMIT * 3 + 5
    modifies filename
    ensures at - 3 <= outPos < at
    ensures filename[outPos..52] == EncodeByte(c) + old(filename[at..52])
  {
    if Unreserved(c) {
      outPos := at - 1;
      filename[outPos] := c;
    } else {
      outPos := at - 3;
      filename[outPos] := PERCENT;
      filename[outPos + 1] := HexDigit(c / 16);
      filename[outPos + 2] := HexDigit(c % 16);
    }
  }

  /** The loop from the last character to the first. */
  method BuildRight(c64name: array<Byte>, filename: array<Byte>, start: nat, ghost name: seq<Byte>)
    returns (outPos: nat)
    requires filename.Length == LIMIT * 3 + 5 && filename != c64name && start <= LIMIT
    requires start <= |name| && start <= c64name.Length && NulFree(name)
    requires forall k :: 0 <= k < start ==> c64name[k] == name[k]
    modifies filename
    ensures outPos <= 52 && 52 - outPos <= 3 * start
    ensures filename[outPos..52] == Encode(Stripped(Unpadded(name[..start])))
  {
    outPos := LIMIT * 3 + 4;
    var trailing := true;
    var i := start;
    assert name[start..start] == [] && Encode([]) == [] && Stripped(Unpadded([])) == [];
    hide Encode, Stripped, Unpadded, EncodeByte;
    while i > 0
      invariant 0 <= i <= start
      invariant 52 - 3 * (start - i) <= outPos <= 52
      invariant filename[outPos..52] == Encode(Stripped(Unpadded(name[i..start])))
      invariant trailing <==> Stripped(Unpadded(name[i..start])) == []
    {
      i := i - 1;
      var c := c64name[i];
      ghost var rest := Stripped(Unpadded(name[i + 1..start]));
      assert name[i..start] == [c] + name[i + 1..start];
      KeptFront(c, name[i + 1..start]);
      if c == SHIFT_SPACE || c == 0x00 {
        continue;
      }
      if c == SPACE && trailing {
        continue;
      }
      trailing := false;
      EncodeFront(c, rest);
      outPos := PutLeft(filename, outPos, c);
    }
    assert name[0..start] == name[..start];
  }

  /** memmove to the front, behind the two bytes of the device number */
  method MoveName(filename: array<Byte>, outPos: nat, outSize: nat)
    requires 2 <= outPos <= outSize == 52 && filename.Length == 53
    modifies filename
    ensures filename[2..2 + (outSize - outPos)] == old(filename[outPos..outSize])
  {
    var k := 0;
    while k < outSize - outPos
      invariant 0 <= k <= outSize - outPos
      invariant forall j :: 2 <= j < 2 + k ==> filename[j] == old(filename[outPos - 2 + j])
      invariant forall j :: 2 + k <= j < 53 ==> filename[j] == old(filename[j])
    {
      filename[2 + k] := filename[outPos + k];
      k := k + 1;
    }
  }

  // ---------------------------------------------------------------- the server's side

  /** The device number and the rest, for a request name without line ends. */
  function SplitDevice(f: seq<Byte>): (nat, seq<Byte>) {
    if |f| >= 2 && (f[0] == 0x38 || f[0] == 0x39 || 0x61 <= f[0] <= 0x66) && f[1] == SLASH
    then (HexValue(f[0]), f[2..]) else (8, f)
  }

  /** Only 8, 9 or a to f and a slash in front name a device; any other name is for device 8, as it is. */
  lemma SplitIs(f: seq<Byte>)
    ensures var (d, rest) := SplitDevice(f);
            if |f| >= 2 && f[0] in {0x38, 0x39, 0x61, 0x62, 0x63, 0x64, 0x65, 0x66} && f[1] == 0x2F
            then rest == f[2..] && 8 <= d < 16 && f[0] == (if d < 10 then 0x30 + d else 0x57 + d)
            else d == 8 && rest == f
  {
  }

  /** `gsub(/%([a-fA-F0-9]{2})/)` */
  function Decode(s: seq<Byte>): seq<Byte> {
    if s == [] then []
    else if |s| >= 3 && s[0] == PERCENT && IsHex(s[1]) && IsHex(s[2])
    then [PairValue(s[1], s[2])] + Decode(s[3..])
    else [s[0]] + Decode(s[1..])
  }

  predicate Overwrite(s: seq<Byte>) {
    |s| >= 3 && s[0] == AT_SIGN && 0x30 <= s[1] <= 0x39 && s[2] == 0x3A
  }

  const AT_SIGN: Byte := 0x40

  /** `gsub(/^@\d:/, '')`: the overwrite prefix goes, at the start of every line. */
  function WithoutOverwrite(s: seq<Byte>, lineStart: bool): seq<Byte> {
    if s == [] then []
    else if lineStart && Overwrite(s) then WithoutOverwrite(s[3..], false)
    else [s[0]] + WithoutOverwrite(s[1..], s[0] == NEWLINE)
  }

  /** C64File.decode */
  function C64FileDecode(encoded: seq<Byte>): seq<Byte> {
    WithoutOverwrite(Decode(encoded), true)
  }

  // ---------------------------------------------------------------- there and back

  lemma {:induction false} DecodeEncode(s: seq<Byte>)
    ensures Decode(Encode(s)) == s
  {
    if s != [] {
      var e := Encode(s);
      DecodeEncode(s[1..]);
      if Unreserved(s[0]) {
        assert e[1..] == Encode(s[1..]);
      } else {
        assert e[3..] == Encode(s[1..]);
        HexPair(s[0]);
      }
    }
  }

  /** The name the server opens is the C64's: first 16 characters, unpadded, no trailing spaces, less
      an overwrite prefix. The device number comes back exactly when it is 8 to 15. */
  lemma NameRoundTrip(device: Byte, name: seq<Byte>)
    requires device < 16
    ensures var (d, rest) := SplitDevice(Sent(device, name));
            && (d == device && C64FileDecode(rest) == WithoutOverwrite(Meaning(name), true) <==> device >= 8)
            && (device < 8 ==> d == 8 && rest == Sent(device, name))
    ensures var sent := Sent(device, name);
            |sent| >= 2 && sent[0] == (if device < 10 then 0x30 + device else 0x57 + device) && sent[1] == 0x2F
  {
    var sent := Sent(device, name);
    assert sent[2..] == Encode(Meaning(name));
    DecodeEncode(Meaning(name));
  }

  /** Where no `%` stands the server decodes nothing, and where two hex digits follow one, in either case,
      it puts the byte they spell. */
  lemma {:induction false} DecodePlain(s: seq<Byte>)
    requires 0x25 !in s
    ensures Decode(s) == s
  {
    if s != [] {
      DecodePlain(s[1..]);
      assert s == [s[0]] + s[1..];
    }
  }

  lemma DecodeEscape(c: Byte, hi: Byte, lo: Byte, rest: seq<Byte>)
    requires 0x30 <= hi <= 0x39 || 0x41 <= hi <= 0x46 || 0x61 <= hi <= 0x66
    requires 0x30 <= lo <= 0x39 || 0x41 <= lo <= 0x46 || 0x61 <= lo <= 0x66
    requires HexValue(hi) == c / 16 && HexValue(lo) == c % 16
    ensures Decode([0x25, hi, lo] + rest) == [c] + Decode(rest)
  {
    HexValues(hi);
    HexValues(lo);
    hide HexValue;
    assert PairValue(hi, lo) == c;
    assert ([0x25, hi, lo] + rest)[3..] == rest;
  }

  /** A `%` that two hex digits do not follow stays. */
  lemma DecodeBroken(s: seq<Byte>)
    requires s != [] && s[0] == 0x25
    requires |s| >= 3 ==>
               || !(0x30 <= s[1] <= 0x39 || 0x41 <= s[1] <= 0x46 || 0x61 <= s[1] <= 0x66)
               || !(0x30 <= s[2] <= 0x39 || 0x41 <= s[2] <= 0x46 || 0x61 <= s[2] <= 0x66)
    ensures Decode(s) == [0x25] + Decode(s[1..])
  {
    if |s| >= 3 {
      HexValues(s[1]);
      HexValues(s[2]);
    }
  }

  /** `@`, a digit and a colon from `k` on, where a line starts. */
  predicate PrefixAt(s: seq<Byte>, lineStart: bool, k: nat) {
    && k + 2 < |s| && (if k == 0 then lineStart else s[k - 1] == 0x0A)
    && s[k] == 0x40 && 0x30 <= s[k + 1] <= 0x39 && s[k + 2] == 0x3A
  }

  /** A name in front of which the prefix stands loses exactly that. */
  lemma OverwriteGone(digit: Byte, s: seq<Byte>)
    requires 0x30 <= digit <= 0x39 && 0x0A !in s
    ensures WithoutOverwrite([0x40, digit, 0x3A] + s, true) == s
  {
    assert ([0x40, digit, 0x3A] + s)[3..] == s;
    OverwriteOnly(s, false);
  }

  lemma {:induction false} PlainIs(s: seq<Byte>, lineStart: bool)
    ensures Plain(s, lineStart) <==> forall k :: 0 <= k < |s| ==> !PrefixAt(s, lineStart, k)
  {
    if s != [] {
      var rest, next := s[1..], s[0] == NEWLINE;
      PlainIs(rest, next);
      assert Overwrite(s) && lineStart <==> PrefixAt(s, lineStart, 0);
      forall k | 0 <= k < |rest| ensures PrefixAt(rest, next, k) <==> PrefixAt(s, lineStart, k + 1) {
      }
      forall k | 1 <= k < |s| ensures PrefixAt(rest, next, k - 1) <==> PrefixAt(s, lineStart, k) {
      }
    }
  }

  /** No line of the name starts with an overwrite prefix. */
  predicate Plain(s: seq<Byte>, lineStart: bool) {
    s == [] || (!(lineStart && Overwrite(s)) && Plain(s[1..], s[0] == NEWLINE))
  }

  lemma {:induction false} OverwriteOnly(s: seq<Byte>, lineStart: bool)
    ensures |WithoutOverwrite(s, lineStart)| <= |s|
    ensures WithoutOverwrite(s, lineStart) == s <==> forall k :: 0 <= k < |s| ==> !PrefixAt(s, lineStart, k)
    decreases |s|
  {
    PlainIs(s, lineStart);
    OverwritePlain(s, lineStart);
  }

  lemma {:induction false} OverwritePlain(s: seq<Byte>, lineStart: bool)
    ensures |WithoutOverwrite(s, lineStart)| <= |s|
    ensures WithoutOverwrite(s, lineStart) == s <==> Plain(s, lineStart)
    decreases |s|
  {
    if s != [] {
      assert s == [s[0]] + s[1..];
      if lineStart && Overwrite(s) {
        OverwritePlain(s[3..], false);
      } else {
        OverwritePlain(s[1..], s[0] == NEWLINE);
      }
    }
  }
}
