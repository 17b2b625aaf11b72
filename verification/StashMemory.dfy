/** The 64-byte pages behind a stash: external RAM and the two cache slots in front of it. */
module StashMemory {
  import opened Bytes

  const PAGES := 56    // pages of the scratch area that copyin and copyout accept
  const TAIL := 62     // offset of `tail` in a page that is not full
  const NEXT := 63     // offset of `next`
  const HEADER := 3    // sizeof (StashHeader)
  const NONE: Byte := 255  // block number of a forgotten read slot

  type Page = s: seq<Byte> | |s| == 64 witness seq(64, _ => 0)

  /** External RAM, the write-back slot (p0, n0) and the read slot (p1, n1). */
  datatype Mem = Mem(ram: seq<Page>, p0: Page, n0: Byte, p1: Page, n1: Byte)

  predicate ValidMem(m: Mem) {
    |m.ram| == PAGES && m.n0 < PAGES
  }

  function CopyOut(ram: seq<Page>, page: Byte, data: Page): (r: seq<Page>)
    ensures |r| == |ram|
  {
    if page < |ram| then ram[page := data] else ram
  }

  function CopyIn(ram: seq<Page>, page: Byte, old': Page): Page {
    if page < |ram| then ram[page] else old'
  }

  /** `peekin` of a byte inside a page; 0 outside the scratch area. */
  function Peek(ram: seq<Page>, page: Byte, off: Byte): Byte
    requires off < 64
  {
    if page < |ram| then ram[page][off] else 0
  }

  function Load0(m: Mem, blk: Byte): Mem {
    if blk == m.n0 then m
    else
      var ram := CopyOut(m.ram, m.n0, m.p0);
      Mem(ram, CopyIn(ram, blk, m.p0), blk, m.p1, if blk == m.n1 then NONE else m.n1)
  }

  function Load1(m: Mem, blk: Byte): Mem {
    if blk == m.n1 then m
    else if blk == m.n0 then m.(p1 := m.p0, n1 := m.n0)
    else m.(p1 := CopyIn(m.ram, blk, m.p1), n1 := blk)
  }

  function Fetch(m: Mem, blk: Byte, off: Byte): Byte
    requires off < 64
  {
    if blk == m.n0 then m.p0[off]
    else if blk == m.n1 then m.p1[off]
    else Peek(m.ram, blk, off)
  }

  /** What the pages currently mean: the write-back slot wins over external RAM. */
  function View(m: Mem): (v: seq<Page>)
    requires ValidMem(m)
    ensures |v| == PAGES
  {
    m.ram[m.n0 := m.p0]
  }

  /** Moving the write slot writes the old page back, so no page changes its meaning; the new page
      is in the slot, everything else is in RAM, and the read slot never doubles the new page. */
  lemma Load0PreservesView(m: Mem, blk: Byte)
    requires ValidMem(m) && blk < PAGES
    ensures var m' := Load0(m, blk);
            && ValidMem(m') && m'.n0 == blk && m'.p0 == View(m)[blk] && m'.p1 == m.p1
            && View(m') == View(m)
            && (forall p :: 0 <= p < PAGES && p != blk ==> m'.ram[p] == View(m)[p])
            && m'.n1 == (if m.n0 != blk && m.n1 == blk then 255 else m.n1)
  {
  }

  /** Filling the read slot touches neither RAM nor the write slot, and yields the page's meaning
      unless the slot already claims to hold that page. */
  lemma Load1PreservesView(m: Mem, blk: Byte)
    requires ValidMem(m) && blk < PAGES
    ensures var m' := Load1(m, blk);
            && ValidMem(m') && m'.n1 == blk && m'.ram == m.ram && m'.p0 == m.p0 && m'.n0 == m.n0
            && View(m') == View(m)
            && m'.p1 == (if m.n1 == blk then m.p1 else View(m)[blk])
  {
  }

  /** A byte stored in the write slot changes the meaning of that one page only. */
  lemma WriteSlot(m: Mem, pg: Page)
    requires ValidMem(m)
    ensures View(m.(p0 := pg)) == View(m)[m.n0 := pg]
  {
  }

  /** Page 0, the scratch page of templates, and all the other pages. */
  function Scratch(m: Mem): Page {
    if ValidMem(m) then View(m)[0] else m.p0
  }

  function Outside(m: Mem): seq<Page> {
    if ValidMem(m) then View(m)[1..] else m.ram
  }
}
