/** The Internet checksum as tcpip.cpp computes it, against section 1 of RFC 1071. */
module Checksum {
  import opened Bytes

  type DWord = x: int | 0 <= x < 0x1_0000_0000

  // ---------------------------------------------------------------- ones' complement sums

  /** One's complement addition of 16-bit words: the carry goes around. */
  function OcAdd(a: Word, b: Word): Word {
    if a + b < 0x1_0000 then a + b else a + b - 0xFFFF
  }

  /** The words of a byte string, high byte first; an odd last byte is padded with a zero byte. */
  function Words(s: seq<Byte>): seq<Word> {
    if s == [] then []
    else if |s| == 1 then [Be16(s[0], 0)]
    else [Be16(s[0], s[1])] + Words(s[2..])
  }

  function OcSum(ws: seq<Word>): Word {
    if ws == [] then 0 else OcAdd(ws[0], OcSum(ws[1..]))
  }

  /** The checksum of RFC 1071: the complement of the one's complement sum. */
  function Rfc1071(s: seq<Byte>): Word {
    0xFFFF - OcSum(Words(s))
  }

  // ---------------------------------------------------------------- how the code sums

  /** The plain sum of the words. */
  function WordSum(s: seq<Byte>): nat {
    if s == [] then 0
    else if |s| == 1 then Be16(s[0], 0)
    else Be16(s[0], s[1]) + WordSum(s[2..])
  }

  /** `while (sum >> 16) sum = (word) sum + (sum >> 16)` */
  function Fold(n: nat): Word {
    if n < 0x1_0000 then n else Fold(n % 0x1_0000 + n / 0x1_0000)
  }

  /** Folding keeps the sum modulo 65535 and tells zero from 65535, which together determine it. */
  lemma {:induction false} FoldKeeps(n: nat)
    ensures Fold(n) % 0xFFFF == n % 0xFFFF
    ensures Fold(n) == 0 <==> n == 0
    decreases n
  {
    if n >= 0x1_0000 {
      var m := n % 0x1_0000 + n / 0x1_0000;
      assert n - m == 0xFFFF * (n / 0x1_0000);
      SameResidue(n, m, n / 0x1_0000);
      FoldKeeps(m);
    }
  }

  /** A sum verifies exactly when it is a positive multiple of 65535. */
  lemma AllOnes(n: nat)
    ensures Fold(n) == 0xFFFF <==> n % 0xFFFF == 0 && n != 0
  {
    FoldKeeps(n);
  }

  lemma SameResidue(n: nat, m: nat, k: nat)
    requires n - m == 0xFFFF * k
    ensures n % 0xFFFF == m % 0xFFFF
  {
    assert n == 0xFFFF * (n / 0xFFFF) + n % 0xFFFF;
    assert m == 0xFFFF * (m / 0xFFFF) + m % 0xFFFF;
  }

  lemma FoldUnique(a: nat, b: nat)
    requires a % 0xFFFF == b % 0xFFFF && (a == 0 <==> b == 0)
    ensures Fold(a) == Fold(b)
  {
    FoldKeeps(a);
    FoldKeeps(b);
  }

  lemma OcAddFolds(a: Word, b: nat)
    ensures OcAdd(a, Fold(b)) == Fold(a + b)
  {
    hide Fold;
    FoldTwo(a + Fold(b));
    FoldKeeps(b);
    ModAdd(a, Fold(b), b);
    FoldUnique(a + Fold(b), a + b);
  }

  lemma FoldTwo(n: nat)
    requires n <= 0x1_FFFE
    ensures Fold(n) == if n < 0x1_0000 then n else n - 0xFFFF
  {
  }

  lemma ModAdd(a: nat, b: nat, c: nat)
    requires b % 0xFFFF == c % 0xFFFF
    ensures (a + b) % 0xFFFF == (a + c) % 0xFFFF
  {
    var k := (c / 0xFFFF) - (b / 0xFFFF);
    assert c - b == 0xFFFF * k;
    if c >= b {
      SameResidue(a + c, a + b, k);
    } else {
      SameResidue(a + b, a + c, -k);
    }
  }

  /** Summing first and folding once at the end is one's complement addition of all the words. */
  lemma {:induction false} FoldIsOcSum(s: seq<Byte>)
    ensures Fold(WordSum(s)) == OcSum(Words(s))
    decreases |s|
  {
    if |s| == 1 {
      assert Words(s)[1..] == [];
    } else if |s| >= 2 {
      FoldIsOcSum(s[2..]);
      assert Words(s)[1..] == Words(s[2..]);
      OcAddFolds(Be16(s[0], s[1]), WordSum(s[2..]));
    }
  }

  lemma {:induction false} WordSumJoin(s: seq<Byte>, t: seq<Byte>)
    requires |s| % 2 == 0
    ensures WordSum(s + t) == WordSum(s) + WordSum(t)
    decreases |s|
  {
    if s == [] {
      assert s + t == t;
    } else {
      WordSumJoin(s[2..], t);
      assert (s + t)[2..] == s[2..] + t;
    }
  }

  /** A byte string read as one number, high byte first. */
  function Number(s: seq<Byte>): nat {
    if s == [] then 0 else 0x100 * Number(s[..|s| - 1]) + s[|s| - 1]
  }

  /** What the RFC's checksum is, without sums of words: it makes the number that the bytes spell a multiple
      of 65535, is 65535 only for bytes that are all zero, and does not see a zero byte behind an odd last. */
  lemma Rfc1071Is(s: seq<Byte>)
    ensures |s| % 2 == 0 ==> (Number(s) + Rfc1071(s)) % 0xFFFF == 0
    ensures Rfc1071(s) == 0xFFFF <==> forall k :: 0 <= k < |s| ==> s[k] == 0
    ensures |s| % 2 == 1 ==> Rfc1071(s) == Rfc1071(s + [0])
  {
    hide Fold, WordSum, Words, OcSum, Number;
    FoldIsOcSum(s);
    FoldKeeps(WordSum(s));
    AllZero(s);
    if |s| % 2 == 0 {
      NumberKeeps(s);
      Complements(Number(s), WordSum(s), Fold(WordSum(s)));
    } else {
      Padded(s);
      FoldIsOcSum(s + [0]);
    }
  }

  lemma Complements(n: nat, m: nat, f: Word)
    requires n % 0xFFFF == m % 0xFFFF == f % 0xFFFF
    ensures (n + (0xFFFF - f)) % 0xFFFF == 0
  {
  }

  lemma {:induction false} NumberKeeps(s: seq<Byte>)
    requires |s| % 2 == 0
    ensures Number(s) % 0xFFFF == WordSum(s) % 0xFFFF
    decreases |s|
  {
    if s != [] {
      var front, hi, lo := s[..|s| - 2], s[|s| - 2], s[|s| - 1];
      NumberKeeps(front);
      assert s[..|s| - 1][..|s| - 2] == front && s == front + [hi, lo];
      assert Number(s) == 0x1_0000 * Number(front) + (hi as int * 0x100 + lo as int);
      WordSumJoin(front, [hi, lo]);
      assert WordSum([hi, lo]) == hi as int * 0x100 + lo as int + WordSum([hi, lo][2..]);
      SameResidue(0x1_0000 * Number(front), Number(front), Number(front));
      ModAdd(hi as int * 0x100 + lo as int, Number(front), WordSum(front));
      ModAdd(hi as int * 0x100 + lo as int, 0x1_0000 * Number(front), Number(front));
    }
  }

  lemma {:induction false} AllZero(s: seq<Byte>)
    ensures WordSum(s) == 0 <==> forall k :: 0 <= k < |s| ==> s[k] == 0
    decreases |s|
  {
    if |s| >= 2 {
      AllZero(s[2..]);
      ZeroFront(s, s[2..]);
    }
  }

  lemma ZeroFront(s: seq<Byte>, rest: seq<Byte>)
    requires |s| >= 2 && rest == s[2..]
    ensures (forall k :: 0 <= k < |s| ==> s[k] == 0) <==>
            s[0] == 0 && s[1] == 0 && forall k :: 0 <= k < |rest| ==> rest[k] == 0
  {
    if s[0] == 0 && s[1] == 0 && forall k :: 0 <= k < |rest| ==> rest[k] == 0 {
      forall k | 0 <= k < |s| ensures s[k] == 0 {
        assert k >= 2 ==> s[k] == rest[k - 2];
      }
    }
  }

  lemma {:induction false} Padded(s: seq<Byte>)
    requires |s| % 2 == 1
    ensures WordSum(s + [0]) == WordSum(s)
    decreases |s|
  {
    if |s| == 1 {
      assert (s + [0])[2..] == [];
    } else {
      Padded(s[2..]);
      assert (s + [0])[2..] == s[2..] + [0];
    }
  }

  lemma {:induction false} WordSumPut(s: seq<Byte>, i: nat, hi: Byte, lo: Byte)
    requires i % 2 == 0 && i + 1 < |s| && s[i] == 0 && s[i + 1] == 0
    ensures WordSum(s[i := hi][i + 1 := lo]) == WordSum(s) + Be16(hi, lo)
    decreases |s|
  {
    var r := s[i := hi][i + 1 := lo];
    if i == 0 {
      assert r[2..] == s[2..];
    } else {
      WordSumPut(s[2..], i - 2, hi, lo);
      assert r[2..] == s[2..][i - 2 := hi][i - 1 := lo];
    }
  }

  // ---------------------------------------------------------------- fill_checksum

  datatype Kind = Plain | Udp | Tcp

  const IP_PROTO_UDP: Byte := 17
  const IP_PROTO_TCP: Byte := 6

  /** What the sum starts with: protocol plus segment length, in 16-bit arithmetic. `len` counts the
      eight address bytes in front of the segment. */
  function Initial(kind: Kind, len: Word): Word {
    match kind
    case Plain => 0
    case Udp => (IP_PROTO_UDP + len - 8) % 0x1_0000
    case Tcp => (IP_PROTO_TCP + len - 8) % 0x1_0000
  }

  /** The sum of an area with its pseudo-header term, folded: 0xFFFF when the checksum in it is right. */
  function Folded(kind: Kind, area: seq<Byte>): Word
    requires |area| < 0x1_0000
  {
    Fold(Initial(kind, |area|) + WordSum(area))
  }

  predicate Verifies(kind: Kind, area: seq<Byte>)
    requires |area| < 0x1_0000
  {
    Folded(kind, area) == 0xFFFF
  }

  function PseudoHeader(src: seq<Byte>, dst: seq<Byte>, proto: Byte, length: Word): seq<Byte> {
    src + dst + [0, proto, Hi(length), Lo(length)]
  }

  /** Summing addresses and segment in one go, with protocol and length added up front, is the RFC's
      checksum of pseudo-header and segment, exactly as long as protocol plus length fits 16 bits. */
  lemma ChecksumIsRfc(kind: Kind, src: seq<Byte>, dst: seq<Byte>, segment: seq<Byte>)
    requires |src| == |dst| == 4 && kind != Plain && |segment| + 8 < 0x1_0000
    ensures var proto := if kind == Udp then 17 else 6;
            0xFFFF - Folded(kind, src + dst + segment) == Rfc1071(PseudoHeader(src, dst, proto, |segment|) + segment)
            <==> proto + |segment| < 0x1_0000
  {
    assert IP_PROTO_UDP == 17 && IP_PROTO_TCP == 6;
    hide *;
    var proto := if kind == Udp then IP_PROTO_UDP else IP_PROTO_TCP;
    var n := WordSum(src + dst) + WordSum(segment);
    StartedSum(kind, src, dst, segment);
    PseudoChecksum(src, dst, proto, segment);
    Carried(kind, n, |segment|);
  }

  /** A datagram of 65519 bytes: protocol and length add up to 65536, and the sum starts with 0. */
  lemma DroppedCarry(src: seq<Byte>, dst: seq<Byte>, segment: seq<Byte>)
    requires |src| == |dst| == 4 && |segment| == 65519
    ensures Initial(Udp, |segment| + 8) == 0
    ensures 0xFFFF - Folded(Udp, src + dst + segment) != Rfc1071(PseudoHeader(src, dst, 17, 65519) + segment)
  {
    hide Folded, Rfc1071, PseudoHeader;
    ChecksumIsRfc(Udp, src, dst, segment);
  }

  lemma StartedSum(kind: Kind, src: seq<Byte>, dst: seq<Byte>, segment: seq<Byte>)
    requires |src| == |dst| == 4 && |segment| + 8 < 0x1_0000
    ensures Folded(kind, src + dst + segment) ==
            Fold(Initial(kind, |segment| + 8) + (WordSum(src + dst) + WordSum(segment)))
  {
    hide Fold, WordSum, Initial;
    WordSumJoin(src + dst, segment);
    assert |src + dst + segment| == |segment| + 8;
  }

  lemma PseudoChecksum(src: seq<Byte>, dst: seq<Byte>, proto: Byte, segment: seq<Byte>)
    requires |src| == |dst| == 4 && |segment| + 8 < 0x1_0000
    ensures Rfc1071(PseudoHeader(src, dst, proto, |segment|) + segment) ==
            0xFFFF - Fold(proto + |segment| + (WordSum(src + dst) + WordSum(segment)))
  {
    hide Fold, WordSum, Words, OcSum, PseudoHeader;
    var pseudo := PseudoHeader(src, dst, proto, |segment|);
    PseudoSize(src, dst, proto, |segment|);
    WordSumJoin(pseudo, segment);
    PseudoSum(src, dst, proto, |segment|);
    FoldIsOcSum(pseudo + segment);
  }

  lemma PseudoSize(src: seq<Byte>, dst: seq<Byte>, proto: Byte, length: Word)
    requires |src| == |dst| == 4
    ensures |PseudoHeader(src, dst, proto, length)| == 12
  {
  }

  lemma Carried(kind: Kind, n: nat, length: nat)
    requires kind != Plain && length + 8 < 0x1_0000
    ensures var start := (if kind == Udp then IP_PROTO_UDP else IP_PROTO_TCP) + length;
            Fold(Initial(kind, length + 8) + n) == Fold(start + n) <==> start < 0x1_0000
  {
    hide Fold;
    var start := (if kind == Udp then IP_PROTO_UDP else IP_PROTO_TCP) + length;
    if start >= 0x1_0000 {
      LostCarry(start + n);
    }
  }

  /** A carry dropped while the sum starts shows in the result. */
  lemma LostCarry(n: nat)
    requires n >= 0x1_0000
    ensures Fold(n - 0x1_0000) != Fold(n)
  {
    FoldKeeps(n);
    FoldKeeps(n - 0x1_0000);
    SameResidue(n - 1, n - 0x1_0000, 1);
    assert (n - 1) % 0xFFFF != n % 0xFFFF;
  }

  lemma PseudoSum(src: seq<Byte>, dst: seq<Byte>, proto: Byte, length: Word)
    requires |src| == |dst| == 4
    ensures WordSum(PseudoHeader(src, dst, proto, length)) == WordSum(src + dst) + proto + length
  {
    WordSumJoin(src + dst, [0, proto, Hi(length), Lo(length)]);
    hide WordSum;
    FourBytes(0, proto, Hi(length), Lo(length));
  }

  lemma FourBytes(a: Byte, b: Byte, c: Byte, d: Byte)
    ensures WordSum([a, b, c, d]) == Be16(a, b) + Be16(c, d)
  {
    assert [a, b, c, d][2..] == [c, d];
    assert [c, d][2..] == [];
    assert WordSum([c, d]) == Be16(c, d);
  }

  lemma PlainIsRfc(area: seq<Byte>)
    requires |area| < 0x1_0000
    ensures 0xFFFF - Folded(Plain, area) == Rfc1071(area)
  {
    FoldIsOcSum(area);
  }

  /** What it means for an area to verify: with the checksum in it, the RFC's checksum of it is 0; for UDP and
      TCP of the pseudo-header of RFC 768 (addresses, zero, protocol, length) and the segment. */
  lemma VerifiesIs(kind: Kind, src: seq<Byte>, dst: seq<Byte>, segment: seq<Byte>)
    requires |src| == |dst| == 4 && |segment| < 0x1_0000 - 17
    ensures Verifies(Plain, segment) <==> Rfc1071(segment) == 0
    ensures kind != Plain ==>
              var pseudo := src + dst + [0, if kind == Udp then 17 else 6, |segment| / 0x100, |segment| % 0x100];
              Verifies(kind, src + dst + segment) <==> Rfc1071(pseudo + segment) == 0
  {
    PlainIsRfc(segment);
    assert PseudoHeader(src, dst, if kind == Udp then 17 else 6, |segment|) ==
           src + dst + [0, if kind == Udp then 17 else 6, |segment| / 0x100, |segment| % 0x100];
    hide Folded, Rfc1071, PseudoHeader;
    if kind != Plain {
      ChecksumIsRfc(kind, src, dst, segment);
    }
  }

  /** A checksum stored over zeroes, at an even place of the area, makes the area verify. */
  lemma FilledVerifies(kind: Kind, area: seq<Byte>, i: nat)
    requires |area| < 0x1_0000 && i % 2 == 0 && i + 1 < |area| && area[i] == 0 && area[i + 1] == 0
    ensures var ck := 0xFFFF - Folded(kind, area);
            Verifies(kind, area[i := Hi(ck)][i + 1 := Lo(ck)])
  {
    hide Fold, WordSum, Initial;
    var n := Initial(kind, |area|) + WordSum(area);
    var ck := 0xFFFF - Fold(n);
    var filled := area[i := Hi(ck)][i + 1 := Lo(ck)];
    WordSumPut(area, i, Hi(ck), Lo(ck));
    OcAddFolds(ck, n);
    assert Be16(Hi(ck), Lo(ck)) == ck;
    assert |filled| == |area| && Initial(kind, |filled|) + WordSum(filled) == ck + n;
  }

  /** The folding loop, on 32 bits. */
  method FoldSum(n: DWord) returns (folded: Word)
    ensures folded == Fold(n)
  {
    var sum := n;
    while sum / 0x1_0000 != 0
      invariant Fold(sum) == Fold(n)
      decreases sum
    {
      sum := sum % 0x1_0000 + sum / 0x1_0000;
    }
    folded := sum;
  }

  /** The summing loop: it never leaves 32 bits. */
  method SumWords(gpb: array<Byte>, off: Byte, len: Word, begin: Word) returns (sum: DWord)
    requires off + len <= gpb.Length
    ensures sum == begin + WordSum(gpb[off..off + len])
  {
    hide WordSum;
    var ptr: int, left: int := off, len;
    ghost var mem, end, all := gpb[..], off + len, WordSum(gpb[off..off + len]);
    assert gpb[off..off + len] == mem[ptr..end];
    sum := begin;
    while left > 1
      invariant 0 <= left <= len && ptr == end - left
      invariant sum + WordSum(mem[ptr..end]) == begin + all
      invariant sum <= 0xFFFF * (1 + (len - left) / 2) && (len - left) % 2 == 0
    {
      SumTurn(mem, ptr, end);
      sum := sum + Be16(gpb[ptr], gpb[ptr + 1]);
      ptr := ptr + 2;
      left := left - 2;
    }
    SumTurn(mem, ptr, end);
    if left != 0 {
      sum := sum + Be16(gpb[ptr], 0);
    }
  }

  lemma SumTurn(mem: seq<Byte>, ptr: nat, end: nat)
    requires ptr <= end <= |mem|
    ensures ptr == end ==> WordSum(mem[ptr..end]) == 0
    ensures ptr + 1 == end ==> WordSum(mem[ptr..end]) == Be16(mem[ptr], 0)
    ensures ptr + 1 < end ==> WordSum(mem[ptr..end]) == Be16(mem[ptr], mem[ptr + 1]) + WordSum(mem[ptr + 2..end])
  {
    if ptr + 1 < end {
      assert mem[ptr..end][2..] == mem[ptr + 2..end];
    }
  }

  /** fill_checksum: the sum stays within 32 bits, its fold ends, and exactly two bytes change. */
  method FillChecksum(gpb: array<Byte>, dest: Byte, off: Byte, len: Word, kind: Kind)
    requires off + len <= gpb.Length && dest + 1 < gpb.Length
    modifies gpb
    ensures var ck := 0xFFFF - Folded(kind, old(gpb[off..off + len]));
            gpb[..] == old(gpb[..])[dest as int := Hi(ck)][dest as int + 1 := Lo(ck)]
  {
    hide Fold, WordSum, Initial;
    var sum := SumWords(gpb, off, len, Initial(kind, len));
    var folded := FoldSum(sum);
    var ck := 0xFFFF - folded;
    gpb[dest] := Hi(ck);
    gpb[dest + 1] := Lo(ck);
  }
}
