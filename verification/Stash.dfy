/** Class Stash as it runs: static slots and bitmap in a Pool, one Stash object per descriptor in use.
    Every method is tied to its transition in StashModel and to the directory of live stashes. */
module Stash {
  import opened Bytes
  import opened StashMemory
  import M = StashModel
  import Runs = StashRuns
  import BlockMap
  import PageStore

  /** The static members of class Stash and the RAM behind them. */
  class Pool {
    const ram: array<Byte>
    const bits: array<bv8>
    const buf0: array<Byte>
    const buf1: array<Byte>
    var n0: Byte
    var n1: Byte

    ghost var mem: Mem           // ram and both slots
    ghost var free: set<Byte>    // bits
    ghost var dir: M.Dir         // the live stashes

    ghost function Repr(): set<object> {
      {this, ram, bits, buf0, buf1}
    }

    ghost predicate Tied()
      reads `n0, `n1, `mem, `free, ram, bits, buf0, buf1
    {
      && ram.Length == 0x2000 && bits.Length == 32 && buf0.Length == 64 && buf1.Length == 64
      && ram != buf0 && ram != buf1 && buf0 != buf1
      && mem == Mem(PageStore.RamPages(ram[..]), buf0[..], n0, buf1[..], n1)
      && free == BlockMap.Free(bits[..])
    }

    ghost function Now(): M.World
      reads this
    {
      M.World(free, mem)
    }

    ghost predicate Valid()
      reads Repr()
    {
      Tied() && M.Inv(Now(), dir)
    }

    /** Powering on: both slots name page 0, and initMap(56) frees pages 1..55. */
    constructor (ram: array<Byte>)
      requires ram.Length == 0x2000
      ensures Valid() && fresh(Repr() - {ram}) && this.ram == ram && dir == map[]
      ensures forall p: Byte :: p in free <==> 1 <= p < PAGES
      ensures n0 == 0 && n1 == 0
    {
      this.ram := ram;
      bits := new bv8[32](_ => 0);
      buf0 := new Byte[64](_ => 0);
      buf1 := new Byte[64](_ => 0);
      n0, n1 := 0, 0;
      dir := map[];
      new;
      assert BlockMap.Free(bits[..]) == {};
      BlockMap.InitMap(bits, 56);
      mem := Mem(PageStore.RamPages(ram[..]), buf0[..], n0, buf1[..], n1);
      free := BlockMap.Free(bits[..]);
    }

    lemma Slots()
      requires Tied()
      ensures mem.n0 == n0 && mem.n1 == n1 && |mem.ram| == PAGES
    {
    }

    method Load(idx: nat, blk: Byte)
      requires Tied() && idx < 2
      modifies this`n0, this`n1, this`mem, ram, buf0, buf1
      ensures Tied() && mem == if idx == 0 then Load0(old(mem), blk) else Load1(old(mem), blk)
    {
      hide BlockMap.Free, PageStore.RamPages;
      if blk != (if idx == 0 then n0 else n1) {
        if idx == 0 {
          PageStore.Copyout(ram, n0, buf0);
          if blk == n1 {
            n1 := NONE;
          }
          n0 := blk;
          PageStore.Copyin(ram, n0, buf0);
          mem := Load0(mem, blk);
        } else if blk == n0 {
          CopySlot();
        } else {
          n1 := blk;
          PageStore.Copyin(ram, n1, buf1);
          mem := Load1(mem, blk);
        }
      }
    }

    /** memcpy of the write slot over the read slot, number included. */
    method CopySlot()
      requires Tied()
      modifies this`n1, this`mem, buf1
      ensures Tied() && mem == old(mem).(p1 := old(mem).p0, n1 := old(mem).n0)
    {
      hide BlockMap.Free, PageStore.RamPages;
      var i := 0;
      while i < 64
        invariant 0 <= i <= 64
        invariant buf1[..i] == buf0[..i]
        modifies buf1
      {
        buf1[i] := buf0[i];
        i := i + 1;
      }
      n1 := n0;
      assert buf1[..] == buf0[..];
      mem := mem.(p1 := mem.p0, n1 := mem.n0);
    }

    /** A byte of the write slot, of the read slot. */
    function Byte0(off: Byte): (b: Byte)
      requires Tied() && off < 64
      reads `n0, `n1, `mem, `free, ram, bits, buf0, buf1
      ensures b == mem.p0[off]
    {
      buf0[off]
    }

    function Byte1(off: Byte): (b: Byte)
      requires Tied() && off < 64
      reads `n0, `n1, `mem, `free, ram, bits, buf0, buf1
      ensures b == mem.p1[off]
    {
      buf1[off]
    }

    /** Stores one byte in the write slot. */
    method Poke(off: Byte, b: Byte)
      requires Tied() && off < 64
      modifies this`mem, buf0
      ensures Tied() && mem == old(mem).(p0 := old(mem).p0[off := b])
    {
      hide BlockMap.Free, PageStore.RamPages;
      buf0[off] := b;
      mem := mem.(p0 := mem.p0[off := b]);
      assert buf0[..] == old(buf0[..])[off as int := b];
    }

    method AllocBlock() returns (blk: Byte)
      requires Tied()
      modifies this`free, bits
      ensures Tied() && blk == M.Lowest(old(free)) && free == old(free) - {blk}
    {
      hide PageStore.RamPages, BlockMap.Free;
      blk := BlockMap.AllocBlock(bits);
      free := free - {blk};
    }

    method FreeBlock(blk: Byte)
      requires Tied()
      modifies this`free, bits
      ensures Tied() && free == old(free) + {blk}
    {
      hide PageStore.RamPages, BlockMap.Free;
      BlockMap.FreeBlock(bits, blk);
      free := free + {blk};
    }

    method PeekNext(blk: Byte) returns (next: Byte)
      requires Tied()
      ensures next == Peek(mem.ram, blk, NEXT)
    {
      next := PageStore.Peekin(ram, blk, 63);
    }

    method FetchByte(blk: Byte, off: Byte) returns (b: Byte)
      requires Tied() && off < 64
      ensures b == Fetch(mem, blk, off)
    {
      if blk == n0 {
        b := buf0[off];
      } else if blk == n1 {
        b := buf1[off];
      } else {
        b := PageStore.Peekin(ram, blk, off);
      }
    }

    method FreeCount() returns (count: Byte)
      requires Valid()
      ensures count == |free|
    {
      hide M.Inv, PageStore.RamPages;
      Runs.Conservation(Now(), dir);
      count := BlockMap.FreeCount(bits);
    }
  }

  /** One Stash object: its header fields, read position, and the pool it lives in. */
  class Stash {
    const pool: Pool
    var count: Byte
    var first: Byte
    var last: Byte
    var curr: Byte
    var offs: Byte
    ghost var pos: nat  // bytes read so far

    ghost function Fields(): M.Handle
      reads this
    {
      M.Handle(count, first, last, curr, offs)
    }

    /** The object's fields describe a live stash, and it stands at byte `pos`. */
    ghost predicate Live()
      reads this, pool.Repr()
    {
      pool.Valid() && M.At(pool.dir, Fields(), pos)
    }

    /** A Stash object naming nothing. */
    constructor (pool: Pool)
      ensures this.pool == pool && first == 0 && curr == 0
    {
      this.pool := pool;
      curr, first := 0, 0;
      count, last, offs, pos := 0, 0, 0, 0;
    }

    method Create() returns (fd: Byte)
      requires pool.Valid() && pool.free != {}
      modifies this, pool, pool.ram, pool.bits, pool.buf0, pool.buf1
      ensures Live() && pos == 0 && fd == first && fd !in old(pool.dir)
      ensures pool.dir == M.Created(old(pool.dir), fd)
      ensures (pool.Now(), Fields()) == M.Create(old(pool.Now()))
    {
      hide pool.Tied, M.Inv, M.At, M.FreshPage, M.Open, M.Lowest, View, Load0;
      M.CreateStep(pool.Now(), pool.dir);
      var blk := pool.AllocBlock();
      pool.Load(0, blk);
      EmptyPage(blk);
      OpenFields(blk);
      pool.dir := M.Created(pool.dir, blk);
      pos := 0;
      fd := curr;
    }

    /** The header of an empty stash, and a last page. */
    method EmptyPage(blk: Byte)
      requires pool.Tied()
      modifies pool`mem, pool.buf0
      ensures pool.Tied() && pool.mem == old(pool.mem).(p0 := M.FreshPage(old(pool.mem).p0, blk))
    {
      hide pool.Tied;
      pool.Poke(0, 0);
      pool.Poke(2, blk);
      pool.Poke(1, blk);
      pool.Poke(TAIL, HEADER);
      pool.Poke(NEXT, 0);
      assert pool.mem.p0 == M.FreshPage(old(pool.mem).p0, blk);
    }

    /** What `open` does to the slots and fields, whether or not `blk` names a readable stash. */
    method OpenFields(blk: Byte)
      requires pool.Tied()
      modifies this`count, this`first, this`last, this`curr, this`offs
      modifies pool`n0, pool`n1, pool`mem, pool.ram, pool.buf0, pool.buf1
      ensures pool.Tied() && (pool.mem, Fields()) == M.Open(old(pool.mem), blk)
    {
      hide pool.Tied;
      curr := blk;
      offs := HEADER;
      pool.Load(1, curr);
      count, first, last := pool.Byte1(0), pool.Byte1(1), pool.Byte1(2);
    }

    method Open(blk: Byte) returns (fd: Byte)
      requires pool.Valid() && blk in pool.dir && pool.dir[blk].saved
      modifies this, pool, pool.ram, pool.bits, pool.buf0, pool.buf1
      ensures Live() && pos == 0 && fd == blk == first
      ensures pool.dir == old(pool.dir) && pool.free == old(pool.free)
      ensures (pool.mem, Fields()) == M.Open(old(pool.mem), blk)
    {
      hide pool.Tied, M.Inv, M.At;
      M.OpenStep(pool.Now(), pool.dir, blk);
      OpenFields(blk);
      pos := 0;
      fd := curr;
    }

    method Save()
      requires Live()
      modifies pool, pool.ram, pool.bits, pool.buf0, pool.buf1
      ensures Live() && unchanged(this)
      ensures pool.dir == M.Saved(old(pool.dir), old(first)) && pool.free == old(pool.free)
      ensures pool.mem == M.Save(old(pool.mem), old(Fields()))
    {
      hide pool.Tied, M.Inv;
      M.SaveStep(pool.Now(), pool.dir, Fields(), pos);
      pool.Load(0, first);
      pool.Poke(0, count);
      pool.Poke(1, first);
      pool.Poke(2, last);
      pool.Slots();
      if pool.n1 == first {
        pool.Load(1, 0);
      }
      pool.dir := M.Saved(pool.dir, first);
    }

    /** Gives the stash's pages back. The write slot must hold none of them: links are read from RAM. */
    method Release()
      requires Live() && pool.n0 !in pool.dir[first].chain
      modifies this, pool, pool.ram, pool.bits, pool.buf0, pool.buf1
      ensures pool.Valid() && first == 0 && pool.mem == old(pool.mem)
      ensures pool.dir == old(pool.dir) - {old(first)}
      ensures pool.free == old(pool.free) + M.PageSet(old(pool.dir[first].chain))
    {
      hide pool.Tied, M.Inv, M.ChainOk;
      pool.Slots();
      M.ReleaseStep(pool.Now(), pool.dir, first);
      ReleaseLinks(pool.dir[first].chain);
      pool.dir := pool.dir - {old(first)};
    }

    /** The loop of `release`, for a chain that RAM links together. */
    method ReleaseLinks(ghost chain: seq<Byte>)
      requires pool.Tied() && M.RamChain(pool.mem.ram, first, chain)
      modifies this`first, pool`free, pool.bits
      ensures pool.Tied() && first == 0 && pool.free == old(pool.free) + M.PageSet(chain)
    {
      hide pool.Tied;
      ghost var i := 0;
      assert chain[0..] == chain;
      while first > 0
        invariant i <= |chain| && M.RamChain(pool.mem.ram, first, chain[i..])
        invariant pool.Tied() && pool.free == old(pool.free) + M.PageSet(chain[..i])
        decreases |chain| - i
      {
        pool.FreeBlock(first);
        assert chain[..i + 1] == chain[..i] + [first];
        assert chain[i..][1..] == chain[i + 1..];
        first := pool.PeekNext(first);
        i := i + 1;
      }
      assert chain[..i] == chain;
    }

    method Put(c: Byte)
      requires Live() && !pool.dir[first].saved
      requires M.Grown(pool.dir[first]) ==> pool.free != {}
      modifies this, pool, pool.ram, pool.bits, pool.buf0, pool.buf1
      ensures Live() && first == old(first) && pos == old(pos)
      ensures pool.dir == M.Appended(old(pool.dir), first, c, M.Lowest(old(pool.free)))
      ensures pool.dir[first].data == old(pool.dir[first].data) + [c]
      ensures (pool.Now(), Fields()) == M.Put(old(pool.Now()), old(Fields()), c)
    {
      hide pool.Tied, M.Inv, M.ChainOk, M.Pages, View, M.OwnedBy, M.Store;
      M.PutStep(pool.Now(), pool.dir, Fields(), pos, c);
      M.PutRoom(pool.Now(), pool.dir, Fields(), pos);
      pool.Load(0, last);
      Store(c);
      pool.dir := M.Appended(pool.dir, first, c, M.Lowest(old(pool.free)));
    }

    /** `put` once the write slot holds the last page. */
    method Store(c: Byte)
      requires pool.Tied() && pool.mem.p0[TAIL] <= TAIL
      modifies this`count, this`last
      modifies pool`n0, pool`n1, pool`mem, pool`free, pool.ram, pool.bits, pool.buf0, pool.buf1
      ensures pool.Tied() && (pool.Now(), Fields()) == M.Store(old(pool.Now()), old(Fields()), c)
    {
      hide pool.Tied;
      var t := pool.Byte0(TAIL);
      pool.Poke(t, c);
      t := t + 1;
      if t <= 62 {
        pool.Poke(TAIL, t);
      } else {
        var blk := pool.AllocBlock();
        pool.Poke(NEXT, blk);
        last := pool.Byte0(NEXT);
        pool.Load(0, last);
        pool.Poke(TAIL, 0);
        pool.Poke(NEXT, 0);
        count := (count + 1) % 256;
      }
    }

    /** The next byte, or 0 for ever once all have been read. */
    method Get() returns (b: Byte)
      requires Live() && pool.dir[first].saved
      modifies this, pool, pool.ram, pool.bits, pool.buf0, pool.buf1
      ensures Live() && first == old(first) && pool.dir == old(pool.dir) && pool.free == old(pool.free)
      ensures var data := pool.dir[first].data;
        if old(pos) < |data| then b == data[old(pos)] && pos == old(pos) + 1 else b == 0 && pos == old(pos)
      ensures (pool.mem, Fields(), b) == M.Get(old(pool.mem), old(Fields()))
    {
      hide pool.Tied, M.Inv, M.EntryOk;
      ghost var data := pool.dir[first].data;
      M.GetStep(pool.Now(), pool.dir, Fields(), pos);
      M.GetTail(pool.Now(), pool.dir, Fields(), pos);
      pool.Load(1, curr);
      var tail := pool.Byte1(TAIL);
      if curr == last && offs >= tail {
        return 0;
      }
      b := pool.Byte1(offs);
      offs := offs + 1;
      if offs >= 63 && curr != last {
        curr := pool.Byte1(NEXT);
        offs := 0;
      }
      pos := pos + 1;
    }

    /** Bytes put, under the discipline that keeps the consulted page from being stale. */
    method Size() returns (n: Word)
      requires Live()
      ensures n == M.Size(pool.mem, Fields())
      ensures n == |pool.dir[first].data| <==>
        !(&& !pool.dir[first].saved && last == first && pool.dir[first].data != []
          && pool.n1 == first && pool.n0 != first)
    {
      hide pool.Tied, M.Inv, M.ChainOk;
      M.SizeStep(pool.Now(), pool.dir, Fields(), pos);
      M.InvChain(pool.Now(), pool.dir, first);
      pool.Slots();
      var tail := pool.FetchByte(last, 62);
      n := (63 * count + tail - HEADER) % 0x1_0000;
    }
  }
}
