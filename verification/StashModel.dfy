/** Stash operations as transitions of (free pages, memory), and the queues they implement. */
module StashModel {
  import opened Bytes
  import opened StashMemory

  /** The static state of class Stash: the free bitmap as a set, and the paged memory. */
  datatype World = World(free: set<Byte>, mem: Mem)

  /** The fields of one Stash object. */
  datatype Handle = Handle(count: Byte, first: Byte, last: Byte, curr: Byte, offs: Byte)

  // ---------------------------------------------------------------- transitions

  function LowestFrom(s: set<Byte>, from: Byte): (r: Byte)
    requires exists x :: x in s && from <= x
    ensures r in s && from <= r && forall x :: x in s && from <= x ==> r <= x
    decreases 256 - from
  {
    if from in s then from else LowestFrom(s, from + 1)
  }

  /** `allocBlock` hands out the lowest free page, or 0 when none is left. */
  function Lowest(s: set<Byte>): (r: Byte)
    ensures s == {} ==> r == 0
    ensures s != {} ==> r in s && forall x :: x in s ==> r <= x
  {
    if s == {} then 0 else
      assert exists x :: x in s && 0 <= x;
      LowestFrom(s, 0)
  }

  function Open(m: Mem, blk: Byte): (Mem, Handle) {
    var m' := Load1(m, blk);
    (m', Handle(m'.p1[0], m'.p1[1], m'.p1[2], blk, HEADER))
  }

  function FreshPage(old': Page, blk: Byte): Page {
    old'[0 := 0][1 := blk][2 := blk][TAIL := HEADER][NEXT := 0]
  }

  function Create(w: World): (World, Handle) {
    var blk := Lowest(w.free);
    var m := Load0(w.mem, blk);
    var (m', h) := Open(m.(p0 := FreshPage(m.p0, blk)), blk);
    (World(w.free - {blk}, m'), h)
  }

  /** `put` once the write slot holds the last page. */
  function Store(w: World, h: Handle, c: Byte): (World, Handle) {
    var m, t := w.mem, w.mem.p0[TAIL];
    if t >= 64 then (w, h) // the source would write past the page; At rules it out
    else if t + 1 <= 62 then (World(w.free, m.(p0 := m.p0[t := c][TAIL := t + 1])), h)
    else
      var blk := Lowest(w.free);
      var m1 := Load0(m.(p0 := m.p0[t := c][NEXT := blk]), blk);
      (World(w.free - {blk}, m1.(p0 := m1.p0[TAIL := 0][NEXT := 0])),
       h.(last := blk, count := (h.count + 1) % 256))
  }

  function Put(w: World, h: Handle, c: Byte): (World, Handle) {
    Store(w.(mem := Load0(w.mem, h.last)), h, c)
  }

  function Save(m: Mem, h: Handle): Mem {
    var m1 := Load0(m, h.first);
    var m2 := m1.(p0 := m1.p0[0 := h.count][1 := h.first][2 := h.last]);
    if m2.n1 == h.first then Load1(m2, 0) else m2
  }

  function Get(m: Mem, h: Handle): (Mem, Handle, Byte)
  {
    var m' := Load1(m, h.curr);
    if h.curr == h.last && h.offs >= m'.p1[TAIL] then (m', h, 0)
    else if h.offs >= 63 then (m', h, 0) // not reached: see Reading
    else
      var b := m'.p1[h.offs];
      if h.offs + 1 >= 63 && h.curr != h.last
      then (m', h.(curr := m'.p1[NEXT], offs := 0), b)
      else (m', h.(offs := h.offs + 1), b)
  }

  function Size(m: Mem, h: Handle): Word {
    (63 * h.count + Fetch(m, h.last, TAIL) - HEADER) % 0x1_0000
  }

  /** `chain` is what following `next` bytes in external RAM from `first` visits, up to the 0. */
  predicate RamChain(ram: seq<Page>, first: Byte, chain: seq<Byte>)
    decreases |chain|
  {
    if chain == [] then first == 0
    else first != 0 && chain[0] == first && RamChain(ram, Peek(ram, first, NEXT), chain[1..])
  }

  // ---------------------------------------------------------------- the abstract directory

  /** A live stash: its pages in link order, the bytes put, and whether `save` has been called. */
  datatype Entry = Entry(chain: seq<Byte>, data: seq<Byte>, saved: bool)

  type Dir = map<Byte, Entry>

  /** Page `i`, offset `o` of a chain holds byte 63*i + o of the stream header ++ data. */
  function Pages(len: nat): nat {
    (len + HEADER) / 63 + 1
  }

  ghost predicate DataOk(pg: Page, i: nat, data: seq<Byte>) {
    forall o :: 0 <= o < 63 && HEADER <= 63 * i + o < |data| + HEADER ==> pg[o] == data[63 * i + o - HEADER]
  }

  predicate LinkOk(pg: Page, e: Entry, i: nat)
    requires i < |e.chain|
  {
    if i + 1 < |e.chain| then pg[NEXT] == e.chain[i + 1]
    else pg[NEXT] == 0 && pg[TAIL] == (|e.data| + HEADER) % 63
  }

  predicate HeaderOk(pg: Page, e: Entry)
    requires 0 < |e.chain| <= PAGES
  {
    && pg[1] == e.chain[0]
    && if e.saved then pg[0] == |e.chain| - 1 && pg[2] == e.chain[|e.chain| - 1]
       else pg[0] == 0 && pg[2] == e.chain[0]
  }

  predicate ChainOk(e: Entry, fd: Byte) {
    && |e.chain| == Pages(|e.data|) && |e.chain| < PAGES
    && e.chain[0] == fd
    && (forall i :: 0 <= i < |e.chain| ==> 1 <= e.chain[i] < PAGES)
    && (forall i, j :: 0 <= i < j < |e.chain| ==> e.chain[i] != e.chain[j])
  }

  ghost predicate EntryOk(v: seq<Page>, e: Entry, fd: Byte)
    requires |v| == PAGES
  {
    && ChainOk(e, fd)
    && HeaderOk(v[fd], e)
    && (forall i :: 0 <= i < |e.chain| ==> LinkOk(v[e.chain[i]], e, i))
    && (forall i :: 0 <= i < |e.chain| ==> DataOk(v[e.chain[i]], i, e.data))
  }

  predicate OwnedBy(dir: Dir, fd: Byte, p: Byte) {
    fd in dir && p in dir[fd].chain
  }

  ghost predicate Owned(dir: Dir, p: Byte) {
    exists fd: Byte :: OwnedBy(dir, fd, p)
  }

  ghost predicate Disjoint(dir: Dir) {
    forall f: Byte, g: Byte, p: Byte :: OwnedBy(dir, f, p) && OwnedBy(dir, g, p) ==> f == g
  }

  /** Pages 1..55 are split between the free map and the live chains; page 0 is in neither. */
  ghost predicate Partition(free: set<Byte>, dir: Dir) {
    forall p: Byte :: p in free <==> 1 <= p < PAGES && !Owned(dir, p)
  }

  /** The read slot agrees with every saved stash; of an unsaved stash it may hold only the first
      page, and then as `create` left it. */
  ghost predicate ReadSlotOk(m: Mem, dir: Dir)
    requires ValidMem(m)
  {
    forall fd: Byte :: OwnedBy(dir, fd, m.n1) ==>
      if dir[fd].saved then m.n1 < PAGES && m.p1 == View(m)[m.n1]
      else m.n1 == fd && m.p1[TAIL] == HEADER
  }

  ghost predicate Inv(w: World, dir: Dir) {
    && ValidMem(w.mem)
    && (forall fd :: fd in dir ==> EntryOk(View(w.mem), dir[fd], fd))
    && Disjoint(dir)
    && Partition(w.free, dir)
    && (w.mem.n0 == 0 || Owned(dir, w.mem.n0))
    && ReadSlotOk(w.mem, dir)
  }

  /** The handle's header fields are those of the live stash `fd`, and it stands at byte `pos`. */
  predicate At(dir: Dir, h: Handle, pos: nat) {
    && h.first in dir && ChainOk(dir[h.first], h.first)
    && var e := dir[h.first];
       && h.count == |e.chain| - 1 && h.last == e.chain[|e.chain| - 1]
       && pos <= |e.data|
       && h.offs == (pos + HEADER) % 63 && h.curr == e.chain[(pos + HEADER) / 63]
  }

  // ---------------------------------------------------------------- preservation

  /** Every allowed move of the write slot keeps the invariant. */
  lemma Load0Inv(w: World, dir: Dir, blk: Byte)
    requires Inv(w, dir) && (blk == 0 || Owned(dir, blk))
    ensures Inv(w.(mem := Load0(w.mem, blk)), dir)
  {
    Load0PreservesView(w.mem, blk);
  }

  /** Every allowed move of the read slot keeps the invariant, and reads the page's meaning. */
  lemma Load1Inv(w: World, dir: Dir, fd: Byte, blk: Byte)
    requires Inv(w, dir) && fd in dir && dir[fd].saved && blk in dir[fd].chain
    ensures Inv(w.(mem := Load1(w.mem, blk)), dir)
    ensures blk < PAGES && Load1(w.mem, blk).p1 == View(w.mem)[blk]
  {
    assert EntryOk(View(w.mem), dir[fd], fd);
    Load1PreservesView(w.mem, blk);
    assert OwnedBy(dir, fd, blk);
  }

  /** An entry reads only its own pages. */
  lemma EntryFrame(v: seq<Page>, v': seq<Page>, e: Entry, fd: Byte)
    requires |v| == |v'| == PAGES && EntryOk(v, e, fd)
    requires forall p :: p in e.chain && p < PAGES ==> v'[p] == v[p]
    ensures EntryOk(v', e, fd)
  {
    assert fd in e.chain;
    forall i | 0 <= i < |e.chain| ensures v'[e.chain[i]] == v[e.chain[i]] {
      assert e.chain[i] in e.chain;
    }
  }

  /** One stash gained the pages `added`; the others are as before. */
  ghost predicate Grows(dir: Dir, dir': Dir, fd: Byte, added: set<Byte>) {
    && dir'.Keys == dir.Keys + {fd}
    && (forall g :: g in dir && g != fd ==> dir'[g] == dir[g])
    && (forall p: Byte :: OwnedBy(dir', fd, p) <==> OwnedBy(dir, fd, p) || p in added)
  }

  /** One stash changed: it may have taken some free pages and rewritten its own. */
  ghost predicate Touched(w: World, dir: Dir, w': World, dir': Dir, fd: Byte, added: set<Byte>)
    requires ValidMem(w.mem) && ValidMem(w'.mem)
  {
    && Grows(dir, dir', fd, added)
    && added <= w.free && w'.free == w.free - added
    && (forall p: Byte :: p < PAGES && !OwnedBy(dir', fd, p) ==> View(w'.mem)[p] == View(w.mem)[p])
    && OwnedBy(dir', fd, w'.mem.n0)
    && EntryOk(View(w'.mem), dir'[fd], fd)
  }

  lemma OwnershipMoves(free: set<Byte>, dir: Dir, dir': Dir, fd: Byte, added: set<Byte>)
    requires Disjoint(dir) && Partition(free, dir) && Grows(dir, dir', fd, added) && added <= free
    ensures Disjoint(dir') && Partition(free - added, dir')
  {
    forall p: Byte ensures Owned(dir', p) <==> Owned(dir, p) || p in added {
      assert OwnedBy(dir', fd, p) <==> OwnedBy(dir, fd, p) || p in added;
      if Owned(dir', p) {
        var g: Byte :| OwnedBy(dir', g, p);
        assert g == fd || OwnedBy(dir, g, p);
      }
      if Owned(dir, p) {
        var g: Byte :| OwnedBy(dir, g, p);
        assert OwnedBy(dir', g, p);
      }
    }
    forall f: Byte, g: Byte, p: Byte | OwnedBy(dir', f, p) && OwnedBy(dir', g, p) ensures f == g {
      assert f == fd || OwnedBy(dir, f, p);
      assert g == fd || OwnedBy(dir, g, p);
      assert p in added ==> !Owned(dir, p);
    }
  }

  lemma OthersKept(w: World, dir: Dir, w': World, dir': Dir, fd: Byte, added: set<Byte>)
    requires ValidMem(w.mem) && ValidMem(w'.mem) && Touched(w, dir, w', dir', fd, added)
    requires Disjoint(dir') && forall g :: g in dir ==> EntryOk(View(w.mem), dir[g], g)
    ensures forall g :: g in dir' ==> EntryOk(View(w'.mem), dir'[g], g)
  {
    forall g | g in dir' && g != fd ensures EntryOk(View(w'.mem), dir'[g], g) {
      forall p: Byte | p in dir[g].chain && p < PAGES ensures View(w'.mem)[p] == View(w.mem)[p] {
        assert OwnedBy(dir', g, p);
      }
      EntryFrame(View(w.mem), View(w'.mem), dir[g], g);
    }
  }

  lemma TouchedInv(w: World, dir: Dir, w': World, dir': Dir, fd: Byte, added: set<Byte>)
    requires Inv(w, dir) && ValidMem(w'.mem) && Touched(w, dir, w', dir', fd, added)
    requires w'.mem.p1 == w.mem.p1
    requires w'.mem.n1 == w.mem.n1 || w'.mem.n1 == NONE
    requires OwnedBy(dir', fd, w'.mem.n1) ==> !dir'[fd].saved && w'.mem.n1 == fd && w'.mem.p1[TAIL] == HEADER
    ensures Inv(w', dir')
  {
    OwnershipMoves(w.free, dir, dir', fd, added);
    OthersKept(w, dir, w', dir', fd, added);
    forall g: Byte | OwnedBy(dir', g, w'.mem.n1) && g != fd
      ensures if dir'[g].saved then w'.mem.n1 < PAGES && w'.mem.p1 == View(w'.mem)[w'.mem.n1]
              else w'.mem.n1 == g && w'.mem.p1[TAIL] == HEADER {
      assert EntryOk(View(w'.mem), dir'[g], g);
      assert OwnedBy(dir, g, w'.mem.n1);
      assert !OwnedBy(dir', fd, w'.mem.n1);
    }
  }

  lemma FirstIsOwned(w: World, dir: Dir)
    requires Inv(w, dir)
    ensures forall fd :: fd in dir ==> Owned(dir, fd)
  {
    forall fd | fd in dir ensures Owned(dir, fd) {
      assert EntryOk(View(w.mem), dir[fd], fd);
      assert OwnedBy(dir, fd, fd);
    }
  }

  lemma LowestIsFree(w: World, dir: Dir)
    requires Inv(w, dir) && w.free != {}
    ensures var b := Lowest(w.free); 1 <= b < PAGES && b in w.free && !Owned(dir, b) && b !in dir && w.mem.n0 != b
    ensures NONE !in w.free
  {
    FirstIsOwned(w, dir);
  }

  function Created(dir: Dir, fd: Byte): Dir {
    dir[fd := Entry([fd], [], false)]
  }

  /** `create` adds an empty unsaved stash on the lowest free page and disturbs nothing else. */
  lemma CreateStep(w: World, dir: Dir)
    requires Inv(w, dir) && w.free != {}
    ensures var (w', h) := Create(w);
            && h.first == Lowest(w.free) && h.first !in dir
            && Inv(w', Created(dir, h.first)) && At(Created(dir, h.first), h, 0)
            && w'.mem.n0 == h.first && w'.free == w.free - {h.first}
            && View(w'.mem)[0] == View(w.mem)[0]
  {
    var fd := Lowest(w.free);
    LowestIsFree(w, dir);
    var m := Load0(w.mem, fd);
    Load0PreservesView(w.mem, fd);
    var w1 := World(w.free - {fd}, m.(p0 := FreshPage(m.p0, fd)));
    WriteSlot(m, w1.mem.p0);
    var dir' := Created(dir, fd);
    CreatedTouched(w, dir, w1, dir', fd);
    TouchedInv(w, dir, w1, dir', fd, {fd});
    Load1PreservesView(w1.mem, fd);
    FreshRead(w1, dir', fd);
  }

  lemma CreatedTouched(w: World, dir: Dir, w': World, dir': Dir, fd: Byte)
    requires Inv(w, dir) && ValidMem(w'.mem)
    requires 1 <= fd < PAGES && fd in w.free && fd !in dir && dir' == Created(dir, fd)
    requires w'.free == w.free - {fd} && w'.mem.n0 == fd
    requires View(w'.mem) == View(w.mem)[fd := FreshPage(View(w.mem)[fd], fd)]
    ensures Touched(w, dir, w', dir', fd, {fd})
  {
    assert dir'[fd].chain == [fd];
    assert EntryOk(View(w'.mem), dir'[fd], fd);
  }

  /** `open` on the page just created copies it from the write slot. */
  lemma FreshRead(w: World, dir: Dir, fd: Byte)
    requires Inv(w, dir) && fd in dir && w.mem.n0 == fd && w.mem.n1 != fd
    requires !dir[fd].saved && dir[fd].data == [] && dir[fd].chain == [fd]
    ensures var (m', h) := Open(w.mem, fd);
            && Inv(w.(mem := m'), dir) && h.first == fd && At(dir, h, 0)
  {
    hide DataOk, Partition, Owned;
    var m' := Load1(w.mem, fd);
    assert EntryOk(View(w.mem), dir[fd], fd);
    assert m'.p1 == m'.p0 && View(m') == View(w.mem);
    assert LinkOk(View(m')[fd], dir[fd], 0);
    assert OwnedBy(dir, fd, fd);
  }

  predicate Grown(e: Entry) {
    (|e.data| + 1 + HEADER) % 63 == 0
  }

  /** The directory after `c` was put: one more byte, and one more page when that byte fills one. */
  function Appended(dir: Dir, fd: Byte, c: Byte, blk: Byte): Dir
    requires fd in dir
  {
    var e := dir[fd];
    dir[fd := e.(data := e.data + [c], chain := if Grown(e) then e.chain + [blk] else e.chain)]
  }

  /** What one put promises: the byte is appended, everything else stays as it was. */
  ghost predicate PutDone(w: World, dir: Dir, h: Handle, pos: nat, c: Byte, w': World, h': Handle)
    requires h.first in dir && ValidMem(w.mem)
  {
    var dir' := Appended(dir, h.first, c, Lowest(w.free));
    && Inv(w', dir') && At(dir', h', pos) && h'.first == h.first
    && OwnedBy(dir', h.first, w'.mem.n0)
    && View(w'.mem)[0] == View(w.mem)[0]
    && w'.free == (if Grown(dir[h.first]) then w.free - {Lowest(w.free)} else w.free)
  }

  /** `put` appends one byte to an unsaved stash, taking a page only when the last one fills. */
  lemma PutStep(w: World, dir: Dir, h: Handle, pos: nat, c: Byte)
    requires Inv(w, dir) && At(dir, h, pos) && !dir[h.first].saved
    requires Grown(dir[h.first]) ==> w.free != {}
    ensures var (w', h') := Put(w, h, c); PutDone(w, dir, h, pos, c, w', h')
  {
    assert OwnedBy(dir, h.first, h.last);
    Load0PreservesView(w.mem, h.last);
    Load0Inv(w, dir, h.last);
    var w1 := w.(mem := Load0(w.mem, h.last));
    assert EntryOk(View(w1.mem), dir[h.first], h.first);
    assert LinkOk(w1.mem.p0, dir[h.first], |dir[h.first].chain| - 1);
    if Grown(dir[h.first]) {
      StoreFull(w1, dir, h, pos, c);
    } else {
      StoreRoom(w1, dir, h, pos, c);
    }
  }

  /** A put fills the last page exactly when it lands on the byte that is otherwise `tail`. */
  lemma TailRoom(e: Entry)
    ensures Grown(e) <==> (|e.data| + HEADER) % 63 == TAIL
    ensures (|e.data| + HEADER) % 63 <= TAIL
  {
  }

  lemma InvValid(w: World, dir: Dir)
    requires Inv(w, dir)
    ensures ValidMem(w.mem)
  {
  }

  lemma InvChain(w: World, dir: Dir, fd: Byte)
    requires Inv(w, dir) && fd in dir
    ensures ChainOk(dir[fd], fd)
  {
    assert EntryOk(View(w.mem), dir[fd], fd);
  }

  /** Of a stash being written, the read slot can hold only the first page as `create` left it. */
  lemma SlotOfWriter(w: World, dir: Dir, fd: Byte)
    requires Inv(w, dir) && fd in dir && !dir[fd].saved
    ensures OwnedBy(dir, fd, w.mem.n1) ==> w.mem.n1 == fd && w.mem.p1[TAIL] == HEADER
    ensures !OwnedBy(dir, fd, NONE)
  {
    assert EntryOk(View(w.mem), dir[fd], fd);
  }

  lemma StoreRoom(w: World, dir: Dir, h: Handle, pos: nat, c: Byte)
    requires Inv(w, dir) && At(dir, h, pos) && !dir[h.first].saved && !Grown(dir[h.first])
    requires w.mem.n0 == h.last && w.mem.p0[TAIL] == (|dir[h.first].data| + HEADER) % 63
    ensures var (w', h') := Store(w, h, c); PutDone(w, dir, h, pos, c, w', h')
  {
    hide EntryOk, Touched, Partition, Disjoint, ReadSlotOk, View;
    SlotOfWriter(w, dir, h.first);
    var fd, w' := h.first, Store(w, h, c).0;
    var dir' := Appended(dir, fd, c, Lowest(w.free));
    TailRoom(dir[fd]);
    WriteSlot(w.mem, w'.mem.p0);
    RoomTouched(w, dir, w', dir', fd, c);
    TouchedInv(w, dir, w', dir', fd, {});
    WriterKeeps(w, dir, h, pos, c, Lowest(w.free));
  }

  lemma RoomTouched(w: World, dir: Dir, w': World, dir': Dir, fd: Byte, c: Byte)
    requires ValidMem(w.mem) && ValidMem(w'.mem) && fd in dir && !dir[fd].saved && !Grown(dir[fd])
    requires EntryOk(View(w.mem), dir[fd], fd)
    requires w.mem.n0 == dir[fd].chain[|dir[fd].chain| - 1] && w'.mem.n0 == w.mem.n0 && w'.free == w.free
    requires dir' == dir[fd := dir[fd].(data := dir[fd].data + [c])]
    requires var t := (|dir[fd].data| + HEADER) % 63; w'.mem.p0 == w.mem.p0[t := c][TAIL := t + 1]
    requires View(w'.mem) == View(w.mem)[w.mem.n0 := w'.mem.p0]
    ensures Touched(w, dir, w', dir', fd, {})
    ensures View(w'.mem)[0] == View(w.mem)[0]
  {
    hide DataOk, LinkOk, HeaderOk;
    var e, v, v' := dir[fd], View(w.mem), View(w'.mem);
    RoomRewritten(v, v', e, fd, w'.mem.p0, c);
    PutInPage(v, v', e, dir'[fd], fd, c, w'.mem.p0);
    hide EntryOk;
    assert OwnedBy(dir', fd, w.mem.n0);
  }

  lemma RoomRewritten(v: seq<Page>, v': seq<Page>, e: Entry, fd: Byte, pg: Page, c: Byte)
    requires |v| == |v'| == PAGES && ChainOk(e, fd) && !Grown(e)
    requires var t := (|e.data| + HEADER) % 63; pg == v[e.chain[|e.chain| - 1]][t := c][TAIL := t + 1]
    requires v' == v[e.chain[|e.chain| - 1] := pg]
    ensures LastRewritten(v, v', e, pg)
  {
    TailRoom(e);
    assert |e.chain| == 1 ==> (|e.data| + HEADER) % 63 >= HEADER;
  }

  /** `put` finds room for its byte: `tail` is at most 62 on the last page. */
  lemma PutRoom(w: World, dir: Dir, h: Handle, pos: nat)
    requires Inv(w, dir) && At(dir, h, pos)
    ensures ValidMem(w.mem) && h.last < PAGES && Load0(w.mem, h.last).p0[TAIL] <= TAIL
  {
    hide EntryOk;
    LastTail(w, dir, h.first);
    Load0PreservesView(w.mem, h.last);
  }

  /** The writer's own handle follows its stash; its read position stays. */
  lemma WriterKeeps(w: World, dir: Dir, h: Handle, pos: nat, c: Byte, blk: Byte)
    requires At(dir, h, pos)
    requires var dir' := Appended(dir, h.first, c, blk); ChainOk(dir'[h.first], h.first)
    ensures var e := dir[h.first];
            At(Appended(dir, h.first, c, blk),
               if Grown(e) then h.(last := blk, count := (h.count + 1) % 256) else h, pos)
  {
  }

  lemma StoreFull(w: World, dir: Dir, h: Handle, pos: nat, c: Byte)
    requires Inv(w, dir) && At(dir, h, pos) && !dir[h.first].saved && Grown(dir[h.first])
    requires w.mem.n0 == h.last && w.mem.p0[TAIL] == (|dir[h.first].data| + HEADER) % 63
    requires w.free != {}
    ensures var (w', h') := Store(w, h, c); PutDone(w, dir, h, pos, c, w', h')
  {
    hide EntryOk, Touched, Partition, Disjoint, ReadSlotOk;
    var fd, blk := h.first, Lowest(w.free);
    var w' := Store(w, h, c).0;
    var dir' := Appended(dir, fd, c, blk);
    TailRoom(dir[fd]);
    LowestIsFree(w, dir);
    var m1 := w.mem.(p0 := w.mem.p0[TAIL := c][NEXT := blk]);
    WriteSlot(w.mem, m1.p0);
    Load0PreservesView(m1, blk);
    WriteSlot(Load0(m1, blk), w'.mem.p0);
    SlotOfWriter(w, dir, fd);
    assert !OwnedBy(dir, fd, blk);
    FullTouched(w, dir, w', dir', fd, c, m1.p0, blk);
    TouchedInv(w, dir, w', dir', fd, {blk});
    InvChain(w', dir', fd);
    WriterKeeps(w, dir, h, pos, c, blk);
  }

  lemma FullTouched(w: World, dir: Dir, w': World, dir': Dir, fd: Byte, c: Byte, pg: Page, blk: Byte)
    requires ValidMem(w.mem) && ValidMem(w'.mem) && fd in dir && !dir[fd].saved && Grown(dir[fd])
    requires EntryOk(View(w.mem), dir[fd], fd)
    requires w.mem.n0 == dir[fd].chain[|dir[fd].chain| - 1] && w'.mem.n0 == blk
    requires blk in w.free && w'.free == w.free - {blk} && !OwnedBy(dir, fd, blk) && 1 <= blk < PAGES
    requires dir' == dir[fd := dir[fd].(data := dir[fd].data + [c], chain := dir[fd].chain + [blk])]
    requires pg == w.mem.p0[TAIL := c][NEXT := blk] && w'.mem.p0[TAIL] == w'.mem.p0[NEXT] == 0
    requires View(w'.mem) == View(w.mem)[w.mem.n0 := pg][blk := w'.mem.p0]
    ensures Touched(w, dir, w', dir', fd, {blk})
    ensures View(w'.mem)[0] == View(w.mem)[0]
  {
    var e, v, v' := dir[fd], View(w.mem), View(w'.mem);
    assert LastRewritten(v, v', e, pg);
    PutNewPage(v, v', e, dir'[fd], fd, c, pg, blk);
    assert dir'[fd].chain[|e.chain|] == blk;
    StoreTouched(w, dir, w', dir', fd, blk);
  }

  lemma StoreTouched(w: World, dir: Dir, w': World, dir': Dir, fd: Byte, blk: Byte)
    requires ValidMem(w.mem) && ValidMem(w'.mem) && OwnedBy(dir, fd, w.mem.n0)
    requires blk in w.free && w'.free == w.free - {blk} && w'.mem.n0 == blk
    requires dir'.Keys == dir.Keys && forall g :: g in dir && g != fd ==> dir'[g] == dir[g]
    requires fd in dir && dir'[fd].chain == dir[fd].chain + [blk]
    requires forall p: Byte :: p < PAGES && p != w.mem.n0 && p != blk ==> View(w'.mem)[p] == View(w.mem)[p]
    requires EntryOk(View(w'.mem), dir'[fd], fd)
    ensures Touched(w, dir, w', dir', fd, {blk})
  {
    assert OwnedBy(dir', fd, w.mem.n0) && OwnedBy(dir', fd, blk);
  }

  /** A page before the last is full, so a longer stream reads it the same way. */
  lemma FullPage(pg: Page, e: Entry, e': Entry, i: nat, c: Byte)
    requires i + 1 < |e.chain| && |e.chain| == Pages(|e.data|) && e'.data == e.data + [c]
    requires i + 1 < |e'.chain| && e'.chain[i + 1] == e.chain[i + 1]
    requires LinkOk(pg, e, i) && DataOk(pg, i, e.data)
    ensures LinkOk(pg, e', i) && DataOk(pg, i, e'.data)
  {
    assert 63 * (i + 1) <= |e.data| + HEADER;
  }

  /** The byte stored at `tail` is the next byte of the stream. */
  lemma LastByte(pg: Page, pg': Page, n: nat, t: nat, data: seq<Byte>, c: Byte)
    requires t < 63 && |data| + HEADER == 63 * n + t && DataOk(pg, n, data)
    requires pg'[t] == c && forall o :: 0 <= o < t ==> pg'[o] == pg[o]
    ensures DataOk(pg', n, data + [c])
  {
  }

  lemma HeaderKept(pg: Page, pg': Page, e: Entry, e': Entry)
    requires 0 < |e.chain| <= |e'.chain| <= PAGES && e.chain[0] == e'.chain[0] && !e.saved && !e'.saved
    requires HeaderOk(pg, e) && pg'[0] == pg[0] && pg'[1] == pg[1] && pg'[2] == pg[2]
    ensures HeaderOk(pg', e')
  {
  }

  /** Rewriting the last page leaves the earlier pages and the stash's name alone. */
  ghost predicate LastRewritten(v: seq<Page>, v': seq<Page>, e: Entry, pg: Page)
    requires |v| == PAGES == |v'| && 0 < |e.chain|
  {
    var n := |e.chain| - 1;
    && e.chain[n] < PAGES && v'[e.chain[n]] == pg
    && (n == 0 ==> pg[0] == v[e.chain[0]][0] && pg[1] == v[e.chain[0]][1] && pg[2] == v[e.chain[0]][2])
    && (forall i :: 0 <= i < n ==> e.chain[i] < PAGES && v'[e.chain[i]] == v[e.chain[i]])
  }

  lemma EarlierPages(v: seq<Page>, v': seq<Page>, e: Entry, e': Entry, fd: Byte, c: Byte)
    requires |v| == |v'| == PAGES && EntryOk(v, e, fd)
    requires e'.data == e.data + [c] && e.chain <= e'.chain
    requires forall i :: 0 <= i < |e.chain| - 1 ==> v'[e.chain[i]] == v[e.chain[i]]
    ensures forall i :: 0 <= i < |e.chain| - 1 ==>
              && e'.chain[i] == e.chain[i] && LinkOk(v'[e.chain[i]], e', i) && DataOk(v'[e.chain[i]], i, e'.data)
  {
    forall i | 0 <= i < |e.chain| - 1
      ensures e'.chain[i] == e.chain[i] && LinkOk(v'[e.chain[i]], e', i) && DataOk(v'[e.chain[i]], i, e'.data) {
      FullPage(v[e.chain[i]], e, e', i, c);
    }
  }

  lemma TailMoves(pg: Page, pg': Page, e: Entry, e': Entry, c: Byte)
    requires |e.chain| == Pages(|e.data|) && !Grown(e) && e' == e.(data := e.data + [c])
    requires LinkOk(pg, e, |e.chain| - 1) && pg'[NEXT] == pg[NEXT] && pg'[TAIL] == (|e.data| + HEADER) % 63 + 1
    ensures |e'.chain| == Pages(|e'.data|) && LinkOk(pg', e', |e.chain| - 1)
  {
  }

  /** The last page has room: its tail moves on. */
  lemma PutInPage(v: seq<Page>, v': seq<Page>, e: Entry, e': Entry, fd: Byte, c: Byte, pg: Page)
    requires |v| == |v'| == PAGES && EntryOk(v, e, fd) && !Grown(e) && !e.saved
    requires e' == e.(data := e.data + [c])
    requires pg == v[e.chain[|e.chain| - 1]][(|e.data| + HEADER) % 63 := c][TAIL := (|e.data| + HEADER) % 63 + 1]
    requires v' == v[e.chain[|e.chain| - 1] := pg]
    requires LastRewritten(v, v', e, pg)
    ensures EntryOk(v', e', fd)
  {
    hide DataOk, HeaderOk, LinkOk;
    var n, t := |e.chain| - 1, (|e.data| + HEADER) % 63;
    HeaderKept(v[fd], v'[fd], e, e');
    EarlierPages(v, v', e, e', fd, c);
    LastByte(v[e.chain[n]], pg, n, t, e.data, c);
    TailMoves(v[e.chain[n]], pg, e, e', c);
  }

  /** The byte filled the last page: a fresh page is linked behind it. */
  lemma PutNewPage(v: seq<Page>, v': seq<Page>, e: Entry, e': Entry, fd: Byte, c: Byte, pg: Page, blk: Byte)
    requires |v| == |v'| == PAGES && EntryOk(v, e, fd) && Grown(e) && !e.saved
    requires 1 <= blk < PAGES && blk !in e.chain
    requires e' == e.(data := e.data + [c], chain := e.chain + [blk])
    requires pg == v[e.chain[|e.chain| - 1]][TAIL := c][NEXT := blk]
    requires v'[blk][TAIL] == v'[blk][NEXT] == 0
    requires LastRewritten(v, v', e, pg)
    ensures EntryOk(v', e', fd)
  {
    hide DataOk, HeaderOk, LinkOk;
    var n := |e.chain| - 1;
    HeaderKept(v[fd], v'[fd], e, e');
    EarlierPages(v, v', e, e', fd, c);
    LastByte(v[e.chain[n]], pg, n, TAIL, e.data, c);
    ChainGrows(e, e', fd, c, blk);
    NewPageOk(pg, v'[blk], e', n);
  }

  lemma ChainGrows(e: Entry, e': Entry, fd: Byte, c: Byte, blk: Byte)
    requires ChainOk(e, fd) && Grown(e) && 1 <= blk < PAGES && blk !in e.chain
    requires e' == e.(data := e.data + [c], chain := e.chain + [blk])
    ensures ChainOk(e', fd) && |e'.data| + HEADER == 63 * |e.chain|
  {
    DistinctPages(e'.chain, PAGES);
  }

  lemma NewPageOk(pg: Page, pg': Page, e: Entry, n: nat)
    requires |e.chain| == n + 2 && |e.data| + HEADER == 63 * (n + 1)
    requires pg[NEXT] == e.chain[n + 1] && pg'[TAIL] == pg'[NEXT] == 0
    ensures LinkOk(pg, e, n) && LinkOk(pg', e, n + 1) && DataOk(pg', n + 1, e.data)
  {
  }

  /** Pigeonhole: distinct pages between 1 and `n`-1 are fewer than `n`. */
  lemma {:induction false} DistinctPages(chain: seq<Byte>, n: nat)
    requires n > 0
    requires forall i :: 0 <= i < |chain| ==> 1 <= chain[i] < n
    requires forall i, j :: 0 <= i < j < |chain| ==> chain[i] != chain[j]
    ensures |chain| < n
  {
    assert |chain| > 0 ==> 1 <= chain[0] < n;
    if n == 1 {
    } else if k :| 0 <= k < |chain| && chain[k] == n - 1 {
      DistinctPages(chain[..k] + chain[k + 1..], n - 1);
    } else {
      DistinctPages(chain, n - 1);
    }
  }

  // ---------------------------------------------------------------- save, open, get, size

  function Saved(dir: Dir, fd: Byte): Dir
    requires fd in dir
  {
    dir[fd := dir[fd].(saved := true)]
  }

  /** The header written by `save` makes the first page describe the whole chain. */
  lemma HeaderTouched(w: World, dir: Dir, w': World, h: Handle, pos: nat)
    requires Inv(w, dir) && At(dir, h, pos) && ValidMem(w'.mem)
    requires w'.free == w.free && w'.mem.n0 == h.first
    requires var pg := View(w.mem)[h.first][0 := h.count][1 := h.first][2 := h.last];
             View(w'.mem) == View(w.mem)[h.first := pg]
    ensures Touched(w, dir, w', Saved(dir, h.first), h.first, {})
    ensures View(w'.mem)[0] == View(w.mem)[0]
    ensures dir[h.first].saved ==> View(w'.mem) == View(w.mem)
  {
    hide DataOk, LinkOk, View, Inv, At;
    HeaderIs(w, dir, h, pos);
    var fd, dir' := h.first, Saved(dir, h.first);
    var v, v', e := View(w.mem), View(w'.mem), dir[h.first];
    HeaderEntry(v, v', e, fd);
    if e.saved {
      SameHeader(v, v', e, fd);
    }
    OwnHeader(dir, fd);
  }

  /** What a handle knows of the header. */
  lemma HeaderIs(w: World, dir: Dir, h: Handle, pos: nat)
    requires Inv(w, dir) && At(dir, h, pos)
    ensures ValidMem(w.mem) && h.first in dir
    ensures var e := dir[h.first];
            && EntryOk(View(w.mem), e, h.first) && 1 <= h.first < PAGES
            && h.count == |e.chain| - 1 && h.last == e.chain[|e.chain| - 1]
  {
    hide DataOk, LinkOk, View;
    assert EntryOk(View(w.mem), dir[h.first], h.first);
  }

  lemma SameHeader(v: seq<Page>, v': seq<Page>, e: Entry, fd: Byte)
    requires |v| == PAGES && EntryOk(v, e, fd) && e.saved && 1 <= fd < PAGES
    requires v' == v[fd := v[fd][0 := |e.chain| - 1][1 := fd][2 := e.chain[|e.chain| - 1]]]
    ensures v' == v
  {
    hide DataOk, LinkOk;
    assert v'[fd] == v[fd];
  }

  lemma OwnHeader(dir: Dir, fd: Byte)
    requires fd in dir && ChainOk(dir[fd], fd)
    ensures OwnedBy(Saved(dir, fd), fd, fd) && Grows(dir, Saved(dir, fd), fd, {})
  {
  }

  lemma HeaderEntry(v: seq<Page>, v': seq<Page>, e: Entry, fd: Byte)
    requires |v| == PAGES && EntryOk(v, e, fd)
    requires v' == v[fd := v[fd][0 := |e.chain| - 1][1 := fd][2 := e.chain[|e.chain| - 1]]]
    ensures EntryOk(v', e.(saved := true), fd)
  {
    hide DataOk, LinkOk;
    var e' := e.(saved := true);
    assert e.chain[0] == fd;
    HeaderData(v[fd], v'[fd], e);
    LinkSaved(v[fd], v'[fd], e, 0);
    forall i | 1 <= i < |e.chain| ensures LinkOk(v'[e.chain[i]], e', i) && DataOk(v'[e.chain[i]], i, e.data) {
      assert v'[e.chain[i]] == v[e.chain[i]];
      LinkSaved(v[e.chain[i]], v'[e.chain[i]], e, i);
    }
  }

  lemma LinkSaved(pg: Page, pg': Page, e: Entry, i: nat)
    requires i < |e.chain| && LinkOk(pg, e, i) && pg'[TAIL] == pg[TAIL] && pg'[NEXT] == pg[NEXT]
    ensures LinkOk(pg', e.(saved := true), i)
  {
  }

  lemma HeaderData(pg: Page, pg': Page, e: Entry)
    requires DataOk(pg, 0, e.data)
    requires forall o :: HEADER <= o < 64 ==> pg'[o] == pg[o]
    ensures DataOk(pg', 0, e.data)
  {
  }

  /** `save` turns a written stash into a readable one: afterwards both slots agree with it. */
  lemma SaveStep(w: World, dir: Dir, h: Handle, pos: nat)
    requires Inv(w, dir) && At(dir, h, pos)
    ensures var w' := w.(mem := Save(w.mem, h));
            && Inv(w', Saved(dir, h.first)) && At(Saved(dir, h.first), h, pos)
            && View(w'.mem)[0] == View(w.mem)[0] && w'.mem.n0 == h.first
  {
    hide EntryOk, Touched, Partition, Disjoint, Owned;
    var fd, dir' := h.first, Saved(dir, h.first);
    InvChain(w, dir, fd);
    assert OwnedBy(dir, fd, fd);
    Load0PreservesView(w.mem, fd);
    FirstIsOwned(w, dir);
    Load0Inv(w, dir, fd);
    var w1 := w.(mem := Load0(w.mem, fd));
    var pg := w1.mem.p0[0 := h.count][1 := h.first][2 := h.last];
    var w2 := w1.(mem := w1.mem.(p0 := pg));
    WriteSlot(w1.mem, pg);
    HeaderTouched(w1, dir, w2, h, pos);
    if dir[fd].saved {
      assert dir' == dir;
      assert Inv(w2, dir');
      ZeroSlot(w2, dir');
    } else {
      SlotOfWriter(w1, dir, fd);
      var w3 := w2.(mem := if w2.mem.n1 == fd then Load1(w2.mem, 0) else w2.mem);
      ScratchRead(w1, dir, w2, dir', fd);
    }
  }

  /** Reading a page no live stash owns makes no claim about it. */
  lemma UnownedRead(w: World, dir: Dir, blk: Byte)
    requires Inv(w, dir) && blk < PAGES && !Owned(dir, blk)
    ensures Inv(w.(mem := Load1(w.mem, blk)), dir)
    ensures View(Load1(w.mem, blk)) == View(w.mem)
  {
    Load1PreservesView(w.mem, blk);
    assert forall fd: Byte :: !OwnedBy(dir, fd, blk);
  }

  lemma ZeroSlot(w: World, dir: Dir)
    requires Inv(w, dir)
    ensures Inv(w.(mem := Load1(w.mem, 0)), dir)
    ensures View(Load1(w.mem, 0)) == View(w.mem)
  {
    forall fd: Byte ensures !OwnedBy(dir, fd, 0) {
      if fd in dir { InvChain(w, dir, fd); }
    }
    UnownedRead(w, dir, 0);
  }

  /** Page 0 belongs to no stash: templates may be written there. */
  lemma ScratchWrite(w: World, dir: Dir, pg: Page)
    requires Inv(w, dir) && w.mem.n0 == 0
    ensures Inv(w.(mem := w.mem.(p0 := pg)), dir)
    ensures View(w.mem.(p0 := pg)) == View(w.mem)[0 := pg]
  {
    WriteSlot(w.mem, pg);
    var v, v' := View(w.mem), View(w.mem.(p0 := pg));
    forall fd | fd in dir ensures EntryOk(v', dir[fd], fd) {
      EntryFrame(v, v', dir[fd], fd);
    }
    forall fd: Byte ensures !OwnedBy(dir, fd, 0) {
      if fd in dir { InvChain(w, dir, fd); }
    }
  }

  lemma NoneUnowned(v: seq<Page>, dir: Dir, fd: Byte)
    requires |v| == PAGES && fd in dir && EntryOk(v, dir[fd], fd)
    ensures !OwnedBy(dir, fd, NONE) && !OwnedBy(dir, fd, 0)
  {
  }

  /** A stash becomes saved while the read slot holds its stale first page: re-reading page 0 into
      the slot is what restores agreement. */
  lemma ScratchRead(w: World, dir: Dir, w': World, dir': Dir, fd: Byte)
    requires Inv(w, dir) && ValidMem(w'.mem) && Touched(w, dir, w', dir', fd, {})
    requires w'.mem.p1 == w.mem.p1 && w'.mem.n1 == w.mem.n1
    requires OwnedBy(dir', fd, w'.mem.n1) ==> w'.mem.n1 == fd
    ensures Inv(w'.(mem := if w'.mem.n1 == fd then Load1(w'.mem, 0) else w'.mem), dir')
    ensures w'.mem.n1 == fd ==> View(Load1(w'.mem, 0)) == View(w'.mem)
  {
    hide EntryOk;
    if w'.mem.n1 == fd {
      Load1PreservesView(w'.mem, 0);
      var m := w'.mem.(n1 := NONE);
      var w1 := w'.(mem := m);
      assert View(m) == View(w'.mem);
      NoneUnowned(View(w'.mem), dir', fd);
      TouchedInv(w, dir, w1, dir', fd, {});
      ZeroSlot(w1, dir');
    } else {
      TouchedInv(w, dir, w', dir', fd, {});
    }
  }

  /** `open` of a saved descriptor yields a handle at its first byte. */
  lemma OpenStep(w: World, dir: Dir, fd: Byte)
    requires Inv(w, dir) && fd in dir && dir[fd].saved
    ensures var (m', h) := Open(w.mem, fd);
            && Inv(w.(mem := m'), dir) && h.first == fd && At(dir, h, 0)
            && View(m') == View(w.mem) && m'.n0 == w.mem.n0 && m'.ram == w.mem.ram
  {
    InvChain(w, dir, fd);
    assert OwnedBy(dir, fd, fd);
    Load1Inv(w, dir, fd, fd);
    Load1PreservesView(w.mem, fd);
    assert HeaderOk(View(w.mem)[fd], dir[fd]);
  }

  /** The k-th `get` of a saved stash returns its k-th byte; past the end it returns 0 and stays. */
  lemma GetStep(w: World, dir: Dir, h: Handle, pos: nat)
    requires Inv(w, dir) && At(dir, h, pos) && dir[h.first].saved
    ensures var (m', h', b) := Get(w.mem, h);
            var data := dir[h.first].data;
            && Inv(w.(mem := m'), dir) && h'.first == h.first
            && b == (if pos < |data| then data[pos] else 0)
            && At(dir, h', if pos < |data| then pos + 1 else pos)
            && View(m') == View(w.mem) && m'.n0 == w.mem.n0 && m'.ram == w.mem.ram
  {
    hide EntryOk, ReadSlotOk, Partition, Disjoint;
    var fd, e := h.first, dir[h.first];
    var i := (pos + HEADER) / 63;
    Load1Reads(w, dir, fd, i);
    var pg := View(w.mem)[h.curr];
    assert LinkOk(pg, e, i) && DataOk(pg, i, e.data);
    GetPosition(e, pos);
    if pos < |e.data| {
      assert pg[h.offs] == e.data[63 * i + h.offs - HEADER];
    }
  }

  /** `get` reports the end of data exactly when the position is the end. */
  lemma GetTail(w: World, dir: Dir, h: Handle, pos: nat)
    requires Inv(w, dir) && At(dir, h, pos) && dir[h.first].saved
    ensures h.offs < 63
    ensures pos < |dir[h.first].data| <==> !(h.curr == h.last && h.offs >= Load1(w.mem, h.curr).p1[TAIL])
  {
    hide EntryOk, ReadSlotOk, Partition, Disjoint;
    var e := dir[h.first];
    Load1Reads(w, dir, h.first, (pos + HEADER) / 63);
    GetPosition(e, pos);
  }

  lemma Load1Reads(w: World, dir: Dir, fd: Byte, i: nat)
    requires Inv(w, dir) && fd in dir && dir[fd].saved && i < |dir[fd].chain|
    ensures var e := dir[fd]; var m' := Load1(w.mem, e.chain[i]);
            && Inv(w.(mem := m'), dir) && e.chain[i] < PAGES && m'.p1 == View(w.mem)[e.chain[i]]
            && View(m') == View(w.mem) && m'.n0 == w.mem.n0 && m'.ram == w.mem.ram
            && ChainOk(e, fd) && LinkOk(m'.p1, e, i) && DataOk(m'.p1, i, e.data)
  {
    InvChain(w, dir, fd);
    assert OwnedBy(dir, fd, dir[fd].chain[i]);
    Load1Inv(w, dir, fd, dir[fd].chain[i]);
    Load1PreservesView(w.mem, dir[fd].chain[i]);
    assert EntryOk(View(w.mem), dir[fd], fd);
  }

  /** Where a position lies in the chain, and how one step moves it. */
  lemma GetPosition(e: Entry, pos: nat)
    requires |e.chain| == Pages(|e.data|) && pos <= |e.data|
    ensures var i, o, n := (pos + HEADER) / 63, (pos + HEADER) % 63, |e.chain| - 1;
            && i <= n && 63 * i + o == pos + HEADER
            && (pos < |e.data| <==> i < n || o < (|e.data| + HEADER) % 63)
            && (o + 1 < 63 ==> (pos + 1 + HEADER) / 63 == i && (pos + 1 + HEADER) % 63 == o + 1)
            && (o + 1 >= 63 ==> (pos + 1 + HEADER) / 63 == i + 1 && (pos + 1 + HEADER) % 63 == 0)
  {
  }

  /** `size` counts the bytes put, unless it is asked of a stash still being written whose first
      page is also its last, sits stale in the read slot and is no longer in the write slot. */
  lemma SizeStep(w: World, dir: Dir, h: Handle, pos: nat)
    requires Inv(w, dir) && At(dir, h, pos)
    ensures Size(w.mem, h) == |dir[h.first].data| <==>
            !(&& !dir[h.first].saved && h.last == h.first && dir[h.first].data != []
              && w.mem.n1 == h.first && w.mem.n0 != h.first)
  {
    hide EntryOk, ReadSlotOk, Partition, Disjoint;
    var e := dir[h.first];
    LastTail(w, dir, h.first);
    assert 63 * h.count + (|e.data| + HEADER) % 63 == |e.data| + HEADER;
    if e.saved && w.mem.n1 == h.last {
      ReadSlotAgrees(w, dir, h.first, h.last);
    }
    if !e.saved {
      SlotOfWriter(w, dir, h.first);
    }
  }

  lemma LastTail(w: World, dir: Dir, fd: Byte)
    requires Inv(w, dir) && fd in dir
    ensures var e := dir[fd]; var last := e.chain[|e.chain| - 1];
            && ChainOk(e, fd) && OwnedBy(dir, fd, last) && 1 <= last < PAGES
            && View(w.mem)[last][TAIL] == (|e.data| + HEADER) % 63
            && (!e.saved && e.data == [] ==> View(w.mem)[last][TAIL] == HEADER)
  {
    var e := dir[fd];
    assert EntryOk(View(w.mem), e, fd);
    assert LinkOk(View(w.mem)[e.chain[|e.chain| - 1]], e, |e.chain| - 1);
  }

  lemma ReadSlotAgrees(w: World, dir: Dir, fd: Byte, p: Byte)
    requires Inv(w, dir) && OwnedBy(dir, fd, p) && dir[fd].saved && w.mem.n1 == p
    ensures p < PAGES && w.mem.p1 == View(w.mem)[p]
  {
  }

  // ---------------------------------------------------------------- release

  function PageSet(chain: seq<Byte>): set<Byte> {
    set p | p in chain
  }

  /** Once the write slot is elsewhere, RAM alone carries the links of a chain. */
  lemma {:induction false} FlushedChain(v: seq<Page>, ram: seq<Page>, e: Entry, fd: Byte, i: nat)
    requires |v| == |ram| == PAGES && EntryOk(v, e, fd) && i <= |e.chain|
    requires forall p :: p in e.chain && p < PAGES ==> ram[p] == v[p]
    ensures RamChain(ram, if i < |e.chain| then e.chain[i] else 0, e.chain[i..])
    decreases |e.chain| - i
  {
    if i < |e.chain| {
      assert e.chain[i] in e.chain && LinkOk(v[e.chain[i]], e, i);
      FlushedChain(v, ram, e, fd, i + 1);
      assert e.chain[i..][1..] == e.chain[i + 1..];
    }
  }

  lemma OwnershipReturns(free: set<Byte>, dir: Dir, fd: Byte)
    requires Disjoint(dir) && Partition(free, dir) && fd in dir
    requires forall p: Byte :: OwnedBy(dir, fd, p) ==> 1 <= p < PAGES
    ensures Disjoint(dir - {fd}) && Partition(free + PageSet(dir[fd].chain), dir - {fd})
    ensures forall g: Byte, p: Byte :: OwnedBy(dir - {fd}, g, p) <==> OwnedBy(dir, g, p) && g != fd
  {
    var dir' := dir - {fd};
    assert forall g: Byte, p: Byte :: OwnedBy(dir', g, p) <==> OwnedBy(dir, g, p) && g != fd;
    forall p: Byte ensures Owned(dir', p) <==> Owned(dir, p) && !OwnedBy(dir, fd, p) {
      if Owned(dir, p) && !OwnedBy(dir, fd, p) {
        var g: Byte :| OwnedBy(dir, g, p);
        assert OwnedBy(dir', g, p);
      }
      if Owned(dir', p) {
        var g: Byte :| OwnedBy(dir', g, p);
        assert OwnedBy(dir, g, p);
      }
    }
    forall p: Byte ensures p in PageSet(dir[fd].chain) <==> OwnedBy(dir, fd, p) {
    }
    assert forall p: Byte :: OwnedBy(dir, fd, p) ==> Owned(dir, p);
  }

  /** A flushed `release` walks exactly its own chain and gives back exactly those pages. */
  lemma ReleaseStep(w: World, dir: Dir, fd: Byte)
    requires Inv(w, dir) && fd in dir && w.mem.n0 !in dir[fd].chain
    ensures RamChain(w.mem.ram, fd, dir[fd].chain)
    ensures Inv(w.(free := w.free + PageSet(dir[fd].chain)), dir - {fd})
  {
    hide LinkOk, DataOk, RamChain, HeaderOk;
    var v, e := View(w.mem), dir[fd];
    assert EntryOk(v, e, fd);
    FlushedChain(v, w.mem.ram, e, fd, 0);
    assert e.chain[0..] == e.chain;
    OwnershipReturns(w.free, dir, fd);
    if w.mem.n0 != 0 {
      var g: Byte :| OwnedBy(dir, g, w.mem.n0);
      assert OwnedBy(dir - {fd}, g, w.mem.n0);
    }
  }
}
