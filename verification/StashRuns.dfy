/** Whole runs: any disciplined use of stashes behaves as one byte queue per descriptor. */
module StashRuns {
  import opened Bytes
  import opened StashMemory
  import opened StashModel

  // ---------------------------------------------------------------- conservation of pages

  ghost function PagesUsed(dir: Dir): nat {
    if dir == map[] then 0 else
      var fd :| fd in dir;
      |dir[fd].chain| + PagesUsed(dir - {fd})
  }

  ghost function OwnedPages(dir: Dir): (s: set<Byte>)
    ensures forall p: Byte :: p in s <==> Owned(dir, p)
  {
    set p: Byte | Owned(dir, p)
  }

  lemma {:induction false} ChainSize(chain: seq<Byte>)
    requires forall i, j :: 0 <= i < j < |chain| ==> chain[i] != chain[j]
    ensures |PageSet(chain)| == |chain|
  {
    if chain != [] {
      ChainSize(chain[1..]);
      assert PageSet(chain) == PageSet(chain[1..]) + {chain[0]} by {
        assert chain == [chain[0]] + chain[1..];
      }
    }
  }

  lemma UnionSize(a: set<Byte>, b: set<Byte>, c: set<Byte>)
    requires forall p :: p in c <==> p in a || p in b
    requires forall p :: p in a ==> p !in b
    ensures |c| == |a| + |b|
  {
    assert c == a + b && a !! b;
  }

  lemma {:induction false} OwnedCount(dir: Dir)
    requires Disjoint(dir) && forall fd :: fd in dir ==> ChainOk(dir[fd], fd)
    ensures |OwnedPages(dir)| == PagesUsed(dir)
  {
    if dir == map[] {
      assert OwnedPages(dir) == {};
    } else {
      var fd :| fd in dir && PagesUsed(dir) == |dir[fd].chain| + PagesUsed(dir - {fd});
      var rest := dir - {fd};
      assert forall g: Byte, p: Byte :: OwnedBy(rest, g, p) <==> OwnedBy(dir, g, p) && g != fd;
      OwnedCount(rest);
      ChainSize(dir[fd].chain);
      forall p: Byte ensures p in OwnedPages(dir) <==> p in PageSet(dir[fd].chain) || p in OwnedPages(rest) {
        if p in PageSet(dir[fd].chain) { assert OwnedBy(dir, fd, p); }
        if Owned(dir, p) {
          var g: Byte :| OwnedBy(dir, g, p);
          assert OwnedBy(rest, g, p) || g == fd;
        }
        if Owned(rest, p) {
          var g: Byte :| OwnedBy(rest, g, p);
          assert OwnedBy(dir, g, p);
        }
      }
      forall p: Byte | p in PageSet(dir[fd].chain) ensures p !in OwnedPages(rest) {
        assert OwnedBy(dir, fd, p);
      }
      UnionSize(PageSet(dir[fd].chain), OwnedPages(rest), OwnedPages(dir));
    }
  }

  /** Conservation: in every state that keeps the invariant, free pages and the pages of live
      stashes add up to 55. */
  lemma Conservation(w: World, dir: Dir)
    requires Inv(w, dir)
    ensures |w.free| + PagesUsed(dir) == 55
  {
    forall fd | fd in dir ensures ChainOk(dir[fd], fd) {
      InvChain(w, dir, fd);
    }
    SplitCount(w.free, dir);
  }

  lemma SplitCount(free: set<Byte>, dir: Dir)
    requires Disjoint(dir) && Partition(free, dir) && forall fd :: fd in dir ==> ChainOk(dir[fd], fd)
    ensures |free| + PagesUsed(dir) == PAGES - 1
  {
    hide PagesUsed, PagesBelow;
    OwnedCount(dir);
    forall p: Byte ensures Owned(dir, p) ==> 1 <= p < PAGES {
      if Owned(dir, p) {
        var g: Byte :| OwnedBy(dir, g, p);
        assert ChainOk(dir[g], g);
      }
    }
    hide Owned, Disjoint, ChainOk;
    UnionSize(free, OwnedPages(dir), PagesBelow(PAGES));
  }

  ghost function PagesBelow(n: nat): (s: set<Byte>)
    requires 1 <= n <= 256
    ensures forall p: Byte :: p in s <==> 1 <= p < n
    ensures |s| == n - 1
  {
    if n == 1 then {} else PagesBelow(n - 1) + {n - 1}
  }

  /** The live stashes determine the free map: once they are what they were, so is it. */
  lemma FreeDetermined(w: World, w': World, dir: Dir, dir': Dir)
    requires Inv(w, dir) && Inv(w', dir')
    requires forall p: Byte :: Owned(dir, p) <==> Owned(dir', p)
    ensures w.free == w'.free
  {
    assert forall p: Byte :: p in w.free <==> p in w'.free;
  }

  // ---------------------------------------------------------------- writing and reading back

  function PutAll(w: World, h: Handle, data: seq<Byte>): (World, Handle)
    decreases |data|
  {
    if data == [] then (w, h)
    else
      var (w1, h1) := Put(w, h, data[0]);
      PutAll(w1, h1, data[1..])
  }

  function GetMany(m: Mem, h: Handle, n: nat): (Mem, Handle, seq<Byte>)
    decreases n
  {
    if n == 0 then (m, h, [])
    else
      var (m1, h1, b) := Get(m, h);
      var (m2, h2, rest) := GetMany(m1, h1, n - 1);
      (m2, h2, [b] + rest)
  }

  /** create, put*, save, open, and `n` gets. */
  function WriteThenRead(w: World, data: seq<Byte>, n: nat): (World, Byte, seq<Byte>) {
    var (w1, h1) := Create(w);
    var (w2, h2) := PutAll(w1, h1, data);
    var m3 := Save(w2.mem, h2);
    var (m4, h4) := Open(m3, h1.first);
    var (m5, h5, out) := GetMany(m4, h4, n);
    (w2.(mem := m5), h1.first, out)
  }

  /** Byte `k` of a queue holding `data`; zero past its end, as `get` answers. */
  function Nth(data: seq<Byte>, k: nat): Byte {
    if k < |data| then data[k] else 0
  }

  /** Only `fd` differs between the directories, and `fd` holds `data`. */
  ghost predicate OnlyAdded(dir: Dir, dir': Dir, fd: Byte, data: seq<Byte>, saved: bool) {
    && fd !in dir && dir'.Keys == dir.Keys + {fd}
    && (forall g :: g in dir ==> dir'[g] == dir[g])
    && dir'[fd].data == data && dir'[fd].saved == saved
  }

  lemma {:induction false} PutAllSteps(w: World, dir0: Dir, dir: Dir, h: Handle, done: seq<Byte>, data: seq<Byte>,
      total: nat)
    returns (dir': Dir)
    requires Inv(w, dir) && h.first in dir && At(dir, h, 0) && OnlyAdded(dir0, dir, h.first, done, false)
    requires total == |done| + |data| && |w.free| + Pages(|done|) >= Pages(total)
    ensures var (w', h') := PutAll(w, h, data);
            && Inv(w', dir') && h'.first in dir' && At(dir', h', 0) && h'.first == h.first
            && OnlyAdded(dir0, dir', h.first, done + data, false)
            && View(w'.mem)[0] == View(w.mem)[0]
            && |w'.free| + Pages(total) == |w.free| + Pages(|done|)
    decreases |data|
  {
    hide Inv, At, View, Put, Appended, Pages, Lowest, OnlyAdded;
    if data == [] {
      dir' := dir;
      assert done + data == done;
    } else {
      PutOne(w, dir0, dir, h, done, data[0], |data|);
      var (w1, h1) := Put(w, h, data[0]);
      var dir1 := Appended(dir, h.first, data[0], Lowest(w.free));
      dir' := PutAllSteps(w1, dir0, dir1, h1, done + [data[0]], data[1..], total);
      assert done + [data[0]] + data[1..] == done + data;
    }
  }

  lemma PutOne(w: World, dir0: Dir, dir: Dir, h: Handle, done: seq<Byte>, c: Byte, left: nat)
    requires Inv(w, dir) && h.first in dir && At(dir, h, 0)
    requires OnlyAdded(dir0, dir, h.first, done, false) && left > 0
    requires |w.free| + Pages(|done|) >= Pages(|done| + left)
    ensures var (w', h') := Put(w, h, c); var dir' := Appended(dir, h.first, c, Lowest(w.free));
            && Inv(w', dir') && At(dir', h', 0) && h'.first == h.first && h'.first in dir'
            && OnlyAdded(dir0, dir', h.first, done + [c], false)
            && View(w'.mem)[0] == View(w.mem)[0]
            && |w'.free| + Pages(|done| + 1) == |w.free| + Pages(|done|)
  {
    hide Inv, At, Put, View, OwnedBy, Lowest, Appended, OnlyAdded, Grown, Pages;
    RoomLeft(w, dir0, dir, h.first, done, left);
    PutStep(w, dir, h, 0, c);
    AppendAdded(dir0, dir, h.first, done, c, Lowest(w.free));
    TakenPages(w, dir, h.first, done, c);
  }

  lemma RoomLeft(w: World, dir0: Dir, dir: Dir, fd: Byte, done: seq<Byte>, left: nat)
    requires Inv(w, dir) && OnlyAdded(dir0, dir, fd, done, false) && left > 0
    requires |w.free| + Pages(|done|) >= Pages(|done| + left)
    ensures ValidMem(w.mem) && fd in dir && dir[fd].data == done && !dir[fd].saved
    ensures Grown(dir[fd]) ==> w.free != {}
  {
    hide Inv;
    InvValid(w, dir);
    PagesStep(|done|, left);
    if Grown(dir[fd]) {
      assert |w.free| > 0;
    }
  }

  lemma AppendAdded(dir0: Dir, dir: Dir, fd: Byte, done: seq<Byte>, c: Byte, blk: Byte)
    requires OnlyAdded(dir0, dir, fd, done, false) && fd in dir
    ensures var dir' := Appended(dir, fd, c, blk); fd in dir' && OnlyAdded(dir0, dir', fd, done + [c], false)
  {
  }

  lemma TakenPages(w: World, dir: Dir, fd: Byte, done: seq<Byte>, c: Byte)
    requires fd in dir && dir[fd].data == done && (Grown(dir[fd]) ==> w.free != {})
    ensures var free := if Grown(dir[fd]) then w.free - {Lowest(w.free)} else w.free;
            |free| + Pages(|done| + 1) == |w.free| + Pages(|done|)
  {
    PagesStep(|done|, 1);
  }

  lemma PagesStep(n: nat, left: nat)
    requires left > 0
    ensures Pages(n + 1) == Pages(n) + (if (n + 1 + HEADER) % 63 == 0 then 1 else 0)
    ensures Pages(n + 1) <= Pages(n + left)
  {
  }

  lemma {:induction false} GetManySteps(w: World, dir: Dir, h: Handle, pos: nat, n: nat)
    requires Inv(w, dir) && h.first in dir && At(dir, h, pos) && dir[h.first].saved
    ensures var (m', h', out) := GetMany(w.mem, h, n);
            && Inv(w.(mem := m'), dir) && View(m') == View(w.mem)
            && |out| == n && forall k :: 0 <= k < n ==> out[k] == Nth(dir[h.first].data, pos + k)
    decreases n
  {
    hide Inv, At, View, Get;
    if n > 0 {
      GetStep(w, dir, h, pos);
      var (m1, h1, b) := Get(w.mem, h);
      var pos1 := if pos < |dir[h.first].data| then pos + 1 else pos;
      GetManySteps(w.(mem := m1), dir, h1, pos1, n - 1);
      var rest := GetMany(m1, h1, n - 1).2;
      assert GetMany(w.mem, h, n).2 == [b] + rest;
      forall k | 0 <= k < n ensures ([b] + rest)[k] == Nth(dir[h.first].data, pos + k) {
        if k > 0 {
          assert rest[k - 1] == Nth(dir[h.first].data, pos1 + (k - 1));
        }
      }
    }
  }

  /** A stash is a FIFO. With enough free pages for `data`, create, put*, save and open of the
      descriptor make the k-th `get` return the k-th byte put, and every later one 0. Every other
      stash, and the template page 0, is left as it was, and exactly the pages needed are taken. */
  lemma StashIsFifo(w: World, dir: Dir, data: seq<Byte>, n: nat) returns (dir': Dir)
    requires Inv(w, dir) && |w.free| >= (|data| + 3) / 63 + 1
    ensures var (w', fd, out) := WriteThenRead(w, data, n);
            && Inv(w', dir') && OnlyAdded(dir, dir', fd, data, true)
            && |out| == n && (forall k :: 0 <= k < n ==> out[k] == if k < |data| then data[k] else 0)
            && View(w'.mem)[0] == View(w.mem)[0]
            && |w'.free| == |w.free| - ((|data| + 3) / 63 + 1)
  {
    hide Inv, At, View, Create, Save, Open, Get, OnlyAdded, PutAll, GetMany, Pages;
    OnePage(|data|);
    var dir2 := WriteSteps(w, dir, data);
    var (w1, h1) := Create(w);
    var (w2, h2) := PutAll(w1, h1, data);
    SaveStep(w2, dir2, h2, 0);
    dir' := Saved(dir2, h2.first);
    AddedThenSaved(dir, dir2, h2.first, data);
    var w3 := w2.(mem := Save(w2.mem, h2));
    OpenStep(w3, dir', h1.first);
    var (m4, h4) := Open(w3.mem, h1.first);
    GetManySteps(w3.(mem := m4), dir', h4, 0, n);
  }

  lemma WriteSteps(w: World, dir: Dir, data: seq<Byte>) returns (dir': Dir)
    requires Inv(w, dir) && w.free != {} && |w.free| >= Pages(|data|)
    ensures var (w1, h1) := Create(w); var (w', h') := PutAll(w1, h1, data);
            && Inv(w', dir') && h1.first !in dir && h'.first == h1.first && h'.first in dir' && At(dir', h', 0)
            && OnlyAdded(dir, dir', h1.first, data, false)
            && View(w'.mem)[0] == View(w.mem)[0]
            && |w'.free| == |w.free| - Pages(|data|)
  {
    hide Inv, At, View, Create, OnlyAdded, PutAll, Pages;
    OnePage(|data|);
    CreateStep(w, dir);
    var (w1, h1) := Create(w);
    AddedThenSaved(dir, dir, h1.first, []);
    assert |w1.free| == |w.free| - 1;
    assert [] + data == data;
    dir' := PutAllSteps(w1, dir, Created(dir, h1.first), h1, [], data, |data|);
  }

  lemma OnePage(n: nat)
    ensures Pages(0) == 1 <= Pages(n) == (n + 3) / 63 + 1
  {
  }

  lemma AddedThenSaved(dir: Dir, dir': Dir, fd: Byte, data: seq<Byte>)
    ensures fd !in dir ==> OnlyAdded(dir, Created(dir, fd), fd, [], false)
    ensures OnlyAdded(dir, dir', fd, data, false) ==>
      fd in dir' && OnlyAdded(dir, Saved(dir', fd), fd, data, true) && Saved(dir', fd)[fd].data == data
  {
  }
}
