/** The free-page bitmap: 32 bytes, one bit per page number. */
module BlockMap {
  import opened Bytes

  /** `1 << j`, written out: the solver knows little about shifts by a variable. */
  function Mask(j: nat): bv8
    requires j < 8
  {
    match j
    case 0 => 0x01
    case 1 => 0x02
    case 2 => 0x04
    case 3 => 0x08
    case 4 => 0x10
    case 5 => 0x20
    case 6 => 0x40
    case _ => 0x80
  }

  /** `bitRead` */
  predicate Bit(b: bv8, j: nat)
    requires j < 8
  {
    b & Mask(j) != 0
  }

  /** `bitSet` and `bitClear` */
  function BitSet(b: bv8, j: nat): bv8
    requires j < 8
  {
    b | Mask(j)
  }

  function BitClear(b: bv8, j: nat): bv8
    requires j < 8
  {
    b & !Mask(j)
  }

  /** The pages whose bit is set. */
  ghost function Free(bits: seq<bv8>): (s: set<Byte>)
    requires |bits| == 32
    ensures forall p: Byte :: p in s <==> Bit(bits[p / 8], p % 8)
  {
    set p: Byte | Bit(bits[p / 8], p % 8)
  }

  lemma MaskBits(b: bv8, j: nat, k: nat)
    requires j < 8 && k < 8
    ensures Bit(BitSet(b, j), k) <==> k == j || Bit(b, k)
    ensures Bit(BitClear(b, j), k) <==> k != j && Bit(b, k)
  {
  }

  lemma NonZero(b: bv8)
    ensures b != 0 <==> exists j :: 0 <= j < 8 && Bit(b, j)
  {
    assert b != 0 ==>
      Bit(b, 0) || Bit(b, 1) || Bit(b, 2) || Bit(b, 3) || Bit(b, 4) || Bit(b, 5) || Bit(b, 6) || Bit(b, 7);
  }

  lemma BitAt(bits: seq<bv8>, i: nat, j: nat, p: Byte)
    requires |bits| == 32 && i < 32 && j < 8
    ensures Bit(bits[i := BitSet(bits[i], j)][p / 8], p % 8) <==> p == 8 * i + j || Bit(bits[p / 8], p % 8)
    ensures Bit(bits[i := BitClear(bits[i], j)][p / 8], p % 8) <==> p != 8 * i + j && Bit(bits[p / 8], p % 8)
  {
    hide Bit, BitSet, BitClear;
    if p / 8 == i {
      MaskBits(bits[i], j, p % 8);
    }
  }

  /** `bitSet` of one page's bit adds that page to the free set; `bitClear` removes it. */
  lemma OneBit(bits: seq<bv8>, block: Byte)
    requires |bits| == 32
    ensures Free(bits[block / 8 := BitSet(bits[block / 8], block % 8)]) == Free(bits) + {block}
    ensures Free(bits[block / 8 := BitClear(bits[block / 8], block % 8)]) == Free(bits) - {block}
  {
    hide Bit, BitSet, BitClear, Free;
    var set' := bits[block / 8 := BitSet(bits[block / 8], block % 8)];
    var clear := bits[block / 8 := BitClear(bits[block / 8], block % 8)];
    forall p: Byte
      ensures p in Free(set') <==> p == block || p in Free(bits)
      ensures p in Free(clear) <==> p != block && p in Free(bits)
    {
      BitAt(bits, block / 8, block % 8, p);
    }
  }

  method FreeBlock(bits: array<bv8>, block: Byte)
    requires bits.Length == 32
    modifies bits
    ensures Free(bits[..]) == old(Free(bits[..])) + {block}
  {
    OneBit(bits[..], block);
    bits[block / 8] := BitSet(bits[block / 8], block % 8);
    assert bits[..] == old(bits[..])[block / 8 := BitSet(old(bits[..])[block / 8], block % 8)];
  }

  /** Takes the lowest free page out of the map; answers 0 and changes nothing when none is free. */
  method AllocBlock(bits: array<bv8>) returns (block: Byte)
    requires bits.Length == 32
    modifies bits
    ensures old(Free(bits[..])) == {} ==> block == 0 && bits[..] == old(bits[..])
    ensures old(Free(bits[..])) != {} ==>
      && block in old(Free(bits[..])) && (forall p :: p in old(Free(bits[..])) ==> block <= p)
      && Free(bits[..]) == old(Free(bits[..])) - {block}
  {
    hide Bit, BitSet, BitClear, Free;
    ghost var was, s := bits[..], Free(bits[..]);
    var i := 0;
    while i < 32
      invariant 0 <= i <= 32
      invariant bits[..] == was
      invariant forall p :: p in s ==> 8 * i <= p
    {
      NoneBefore(was, i);
      if bits[i] != 0 {
        var j := 0;
        while j < 8
          invariant 0 <= j <= 8
          invariant bits[..] == was
          invariant forall p :: p in s ==> 8 * i + j <= p
        {
          InByte(was, i, j);
          if Bit(bits[i], j) {
            block := 8 * i + j;
            Taken(was, i, j);
            bits[i] := BitClear(bits[i], j);
            assert bits[..] == was[i := BitClear(was[i], j)];
            return;
          }
          j := j + 1;
        }
      }
      i := i + 1;
    }
    block := 0;
  }

  lemma Taken(bits: seq<bv8>, i: nat, j: nat)
    requires |bits| == 32 && i < 32 && j < 8
    ensures Free(bits[i := BitClear(bits[i], j)]) == Free(bits) - {8 * i + j}
  {
    hide Bit, BitSet, BitClear, Free;
    InByte(bits, i, j);
    OneBit(bits, 8 * i + j);
  }

  /** A byte is zero exactly when it describes no free page. */
  lemma NoneBefore(bits: seq<bv8>, i: nat)
    requires |bits| == 32 && i < 32
    ensures bits[i] == 0 <==> forall p :: p in Free(bits) ==> !(8 * i <= p < 8 * i + 8)
  {
    NonZero(bits[i]);
    if j :| 0 <= j < 8 && Bit(bits[i], j) {
      InByte(bits, i, j);
      assert ((8 * i + j) as Byte) in Free(bits);
    }
  }

  lemma InByte(bits: seq<bv8>, i: nat, j: nat)
    requires |bits| == 32 && i < 32 && j < 8
    ensures (8 * i + j) / 8 == i && (8 * i + j) % 8 == j
    ensures Bit(bits[i], j) <==> ((8 * i + j) as Byte) in Free(bits)
  {
  }

  /** `initMap`: every page below `last` except 0 becomes free; a `last` of 0 wraps to 255 first. */
  method InitMap(bits: array<bv8>, last: Byte)
    requires bits.Length == 32
    modifies bits
    ensures forall p: Byte :: p in Free(bits[..]) <==>
      p in old(Free(bits[..])) || 1 <= p < (if last == 0 then 256 else last)
  {
    var l: Byte := if last == 0 then 255 else last - 1;
    ghost var top := l;
    while l > 0
      invariant 0 <= l <= top
      invariant forall p: Byte :: p in Free(bits[..]) <==> p in old(Free(bits[..])) || l < p <= top
    {
      FreeBlock(bits, l);
      l := l - 1;
    }
  }

  ghost function Range(s: set<Byte>, lo: int, hi: int): set<Byte> {
    set p | p in s && lo <= p < hi
  }

  lemma RangeGrows(s: set<Byte>, lo: Byte, mid: nat, hi: nat)
    requires lo < hi <= 256 && mid <= hi
    ensures |Range(s, lo, hi)| == |Range(s, lo + 1, hi)| + (if lo in s then 1 else 0)
    ensures |Range(s, 0, hi)| == |Range(s, 0, mid)| + |Range(s, mid, hi)|
  {
    assert Range(s, lo, hi) == Range(s, lo + 1, hi) + (if lo in s then {lo} else {});
    assert Range(s, 0, hi) == Range(s, 0, mid) + Range(s, mid, hi);
  }

  lemma MaskShift(k: nat)
    requires k < 8
    ensures Mask(k) != 0
    ensures Mask(k) >> 1 == if k == 0 then 0 else Mask(k - 1)
  {
  }

  /** `freeCount` counts the free pages, from the top bit of each byte down, in an 8-bit counter. */
  method FreeCount(bits: array<bv8>) returns (count: Byte)
    requires bits.Length == 32
    ensures count == |Free(bits[..])| % 256
  {
    hide Free, Bit;
    ghost var s, total := Free(bits[..]), 0;
    count := 0;
    assert Range(s, 0, 0) == {};
    var i := 0;
    while i < 32
      invariant 0 <= i <= 32
      invariant total == |Range(s, 0, 8 * i)| && count == total % 256
    {
      count, total := CountByte(bits, i, count, total);
      RangeGrows(s, 8 * i, 8 * i, 8 * i + 8);
      i := i + 1;
    }
    assert Range(s, 0, 256) == s;
  }

  /** The loop over the bits of one byte. */
  method CountByte(bits: array<bv8>, i: nat, start: Byte, ghost total: nat) returns (count: Byte, ghost now: nat)
    requires bits.Length == 32 && i < 32 && start == total % 256
    ensures now == total + |Range(Free(bits[..]), 8 * i, 8 * i + 8)| && count == now % 256
  {
    hide Free, Bit;
    ghost var s := Free(bits[..]);
    assert Range(s, 8 * i + 8, 8 * i + 8) == {};
    hide Range, Mask;
    count, now := start, total;
    var m: bv8 := 0x80;
    ghost var k := 8;
    assert m == Mask(7) by {
      MaskTop();
    }
    while m != 0
      invariant 0 <= k <= 8 && m == if k == 0 then 0 else Mask(k - 1)
      invariant now == total + |Range(s, 8 * i + k, 8 * i + 8)| && count == now % 256
      decreases k
    {
      k := k - 1;
      OneStep(bits[..], i, k);
      if bits[i] & m != 0 {
        NextCount(now);
        count := (count + 1) % 256;
        now := now + 1;
      }
      m := m >> 1;
    }
  }

  lemma MaskTop()
    ensures Mask(7) == 0x80
  {
  }

  lemma NextCount(n: nat)
    ensures (n % 256 + 1) % 256 == (n + 1) % 256
  {
  }

  lemma OneStep(bits: seq<bv8>, i: nat, k: nat)
    requires |bits| == 32 && i < 32 && k < 8
    ensures |Range(Free(bits), 8 * i + k, 8 * i + 8)| ==
            |Range(Free(bits), 8 * i + k + 1, 8 * i + 8)| + (if bits[i] & Mask(k) != 0 then 1 else 0)
    ensures Mask(k) >> 1 == if k == 0 then 0 else Mask(k - 1)
    ensures Mask(k) != 0
  {
    RangeGrows(Free(bits), 8 * i + k, 8 * i, 8 * i + 8);
    InByte(bits, i, k);
    MaskShift(k);
  }
}
