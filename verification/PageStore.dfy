/** The scratch area of the ENC28J60's 8K packet RAM, addressed in pages of 64 bytes. */
module PageStore {
  import opened Bytes
  import opened StashMemory

  const SCRATCH_START: Word := 0x1200
  const SCRATCH_LIMIT: Word := 0x2000
  const SCRATCH_PAGE_SIZE: Word := 64

  /** Byte address of a page, in the 16-bit arithmetic of the driver. */
  function DestPos(page: Byte): Word {
    (SCRATCH_START + page * SCRATCH_PAGE_SIZE) % 0x1_0000
  }

  predicate InScratch(destPos: Word) {
    SCRATCH_START <= destPos <= SCRATCH_LIMIT - SCRATCH_PAGE_SIZE
  }

  lemma PageRange(page: Byte)
    ensures DestPos(page) == 0x1200 + 64 * page
    ensures InScratch(DestPos(page)) <==> page < PAGES
  {
  }

  function PageAt(mem: seq<Byte>, page: nat): Page
    requires |mem| == 0x2000 && page < PAGES
  {
    mem[0x1200 + 64 * page..0x1200 + 64 * page + 64]
  }

  /** The external RAM as the stash sees it. */
  function RamPages(mem: seq<Byte>): (r: seq<Page>)
    requires |mem| == 0x2000
    ensures |r| == PAGES
  {
    seq(PAGES, i requires 0 <= i < PAGES => PageAt(mem, i))
  }

  method Copyout(mem: array<Byte>, page: Byte, data: array<Byte>)
    requires mem.Length == 0x2000 && data.Length == 64 && mem != data
    modifies mem
    ensures RamPages(mem[..]) == CopyOut(old(RamPages(mem[..])), page, data[..])
    ensures forall a :: 0 <= a < SCRATCH_START ==> mem[a] == old(mem[a])
  {
    var destPos := DestPos(page);
    PageRange(page);
    if destPos < SCRATCH_START || destPos > SCRATCH_LIMIT - SCRATCH_PAGE_SIZE {
      return;
    }
    var i := 0;
    while i < 64
      invariant 0 <= i <= 64
      invariant forall a :: 0 <= a < 0x2000 ==>
        mem[a] == if destPos <= a < destPos + i then data[a - destPos] else old(mem[a])
    {
      mem[destPos + i] := data[i];
      i := i + 1;
    }
    ghost var r := RamPages(mem[..]);
    forall p | 0 <= p < PAGES ensures r[p] == CopyOut(old(RamPages(mem[..])), page, data[..])[p] {
      assert r[p] == PageAt(mem[..], p);
      if p == page {
        assert r[p] == data[..];
      } else {
        assert r[p] == PageAt(old(mem[..]), p);
      }
    }
  }

  method Copyin(mem: array<Byte>, page: Byte, data: array<Byte>)
    requires mem.Length == 0x2000 && data.Length == 64 && mem != data
    modifies data
    ensures data[..] == CopyIn(RamPages(mem[..]), page, old(data[..]))
  {
    var destPos := DestPos(page);
    PageRange(page);
    if destPos < SCRATCH_START || destPos > SCRATCH_LIMIT - SCRATCH_PAGE_SIZE {
      return;
    }
    var i := 0;
    while i < 64
      invariant 0 <= i <= 64
      invariant forall k :: 0 <= k < i ==> data[k] == mem[destPos + k]
    {
      data[i] := mem[destPos + i];
      i := i + 1;
    }
    assert data[..] == PageAt(mem[..], page);
  }

  method Peekin(mem: array<Byte>, page: Byte, off: Byte) returns (result: Byte)
    requires mem.Length == 0x2000 && off < 64
    ensures result == Peek(RamPages(mem[..]), page, off)
  {
    result := 0;
    PageRange(page);
    var destPos := (SCRATCH_START + page * SCRATCH_PAGE_SIZE + off) % 0x1_0000;
    if SCRATCH_START <= destPos < SCRATCH_LIMIT {
      result := mem[destPos];
      assert PageAt(mem[..], page)[off] == mem[destPos];
    }
  }
}
