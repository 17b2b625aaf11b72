/** extract: any window of the expansion, and cleanup: the referenced stashes go back to the pool. */
module TemplateExtract {
  import opened Bytes
  import opened CString
  import opened StashMemory
  import opened Template
  import opened TemplateRun
  import M = StashModel
  import opened Stash

  /** Bytes lo..hi of `e`, as far as they exist. */
  function Window(e: seq<Byte>, lo: nat, hi: nat): seq<Byte> {
    if lo >= hi || lo >= |e| then [] else if hi <= |e| then e[lo..hi] else e[lo..]
  }

  /** Its bytes are those of `e` from `lo` on, up to `hi` or the end of `e`. */
  lemma WindowIs(e: seq<Byte>, lo: nat, hi: nat)
    ensures var w := Window(e, lo, hi);
            && (forall k :: 0 <= k < |w| ==> lo + k < hi && lo + k < |e| && w[k] == e[lo + k])
            && (lo < hi && lo < |e| ==> lo + |w| == hi || lo + |w| == |e|)
  {
  }

  /** Consecutive windows join; one window of the whole length is everything. */
  lemma WindowsJoin(e: seq<Byte>, a: nat, b: nat, c: nat)
    requires a <= b <= c
    ensures Window(e, a, b) + Window(e, b, c) == Window(e, a, c)
    ensures Window(e, 0, |e|) == e
  {
  }

  /** The locals of `extract`: the directive being expanded and where it stands. */
  class Source {
    const pool: Pool
    const host: Host
    const stash: Stash
    const tmp: array<Byte>
    var mode: Byte
    var ptr: nat
    var p: nat  // address in the format
    var k: nat  // arguments consumed

    constructor (pool: Pool, host: Host, fmt: Word)
      requires pool.Valid()
      ensures Ready() && Remaining() == []
      ensures this.pool == pool && this.host == host && fresh(stash) && stash.pool == pool
      ensures fresh(tmp) && tmp.Length == 7 && mode == AT && p == fmt && k == 0
    {
      this.pool := pool;
      this.host := host;
      stash := new Stash(pool);
      tmp := new Byte[7](_ => 0);
      mode, ptr, p, k := AT, 0, fmt, 0;
    }

    ghost predicate Ready()
      reads this, stash, tmp, stash.pool.Repr(), pool.Repr()
    {
      && stash.pool == pool && tmp.Length == 7
      && tmp !in pool.Repr()
      && pool.Valid()
      && (mode == D ==> Terminated(tmp[..], ptr))
      && (mode == S ==> Terminated(host.sram, ptr))
      && (mode == F ==> Terminated(host.flash, ptr))
      && (mode == E ==> Terminated(host.eeprom, ptr))
      && (mode == H ==> stash.Live() && pool.dir[stash.first].saved)
    }

    /** What the current directive still has to give. */
    ghost function Remaining(): seq<Byte>
      requires Ready()
      reads this, stash, tmp, stash.pool.Repr(), pool.Repr()
    {
      if mode == D then CStr(tmp[..], ptr)
      else if mode == S then CStr(host.sram, ptr)
      else if mode == F then CStr(host.flash, ptr)
      else if mode == E then CStr(host.eeprom, ptr)
      else if mode == H then UpToNul(pool.dir[stash.first].data[stash.pos..])
      else []
    }

    /** Meeting a directive. */
    method Start(letter: Byte, arg: Word)
      requires Ready() && pool.mem.n0 == 0 && ArgOk(letter, arg, host, pool.dir)
      modifies `mode, `ptr, stash, tmp, pool, pool.ram, pool.bits, pool.buf0, pool.buf1
      ensures Ready() && OnScratch(pool) && pool.mem.p0 == old(pool.mem).p0
      ensures mode == letter && Remaining() == Piece(letter, arg, host, pool.dir)
    {
      hide pool.Tied, M.Inv, M.At, M.Open, Outside, Scratch;
      mode := letter;
      if letter == D {
        DecimalWidth(arg, 5);
        var end := Wtoa(arg, tmp, 0);
        ptr := 0;
        StringLies(tmp[..], 0, Decimal(arg));
      } else if letter == S || letter == F || letter == E {
        ptr := arg;
      } else if letter == H {
        ReadsKeep(pool.Now(), pool.dir, Lo(arg));
        var fd := stash.Open(Lo(arg));
        assert pool.dir[Lo(arg)].data[0..] == pool.dir[Lo(arg)].data;
      }
    }

    /** The next character of the current directive, 0 when there is none. */
    method Next() returns (c: Byte)
      requires Ready() && pool.mem.n0 == 0
      modifies this`ptr, stash, pool, pool.ram, pool.bits, pool.buf0, pool.buf1
      ensures Ready() && OnScratch(pool) && pool.mem.p0 == old(pool.mem).p0
      ensures if old(Remaining()) == [] then c == 0
              else c != 0 && c == old(Remaining())[0] && Remaining() == old(Remaining())[1..]
    {
      hide pool.Tied, M.Inv, M.ChainOk, M.Get, Outside, Scratch;
      if mode == D || mode == S || mode == F || mode == E {
        var mem := if mode == D then tmp[..] else if mode == S then host.sram
                   else if mode == F then host.flash else host.eeprom;
        c := mem[ptr];
        if c != 0 { // past the NUL the pointer is dead: the directive ends
          ptr := ptr + 1;
        }
      } else if mode == H {
        GetKeeps(pool.Now(), pool.dir, stash.Fields(), stash.pos);
        ghost var left := pool.dir[stash.first].data[stash.pos..];
        c := stash.Get();
        if left != [] && left[0] != 0 {
          assert pool.dir[stash.first].data[stash.pos..] == left[1..];
        }
      } else {
        c := 0;
      }
    }

    /** One turn of the loop of `extract`, up to the byte it produces: the format may end, a byte may
        come, or (c == 0) the turn only moves between text and directive. */
    method Turn(ghost e: seq<Byte>, ghost i: nat, ghost len: Word, ghost fmt: Word, ghost args: seq<Word>)
        returns (done: bool, c: Byte)
      requires Ready() && pool.mem.n0 == 0 && Prepared(pool.mem.p0, len, fmt, args)
      requires Standing(e, i, Remaining(), host, fmt, args, p, k, pool.dir)
      modifies this, stash, tmp, pool, pool.ram, pool.bits, pool.buf0, pool.buf1
      ensures Ready() && OnScratch(pool) && pool.mem.p0 == old(pool.mem).p0
      ensures done ==> i == |e| && c == 0
      ensures !done && c != 0 ==>
        i < |e| && c == e[i] && Standing(e, i + 1, Remaining(), host, fmt, args, p, k, pool.dir)
      ensures !done && c == 0 ==>
        && Standing(e, i, Remaining(), host, fmt, args, p, k, pool.dir)
        && (p == old(p) ==> old(mode) != AT && mode == AT)
      ensures old(p) <= p <= |host.flash|
    {
      StandingAt(e, i, Remaining(), host, fmt, args, p, k, pool.dir);
      if mode == AT {
        done, c := Text(e, i, len, fmt, args);
      } else {
        hide Ready, pool.Tied, M.Inv, Standing, Expand, ArgOk, WellFormed, Letters, CStr, Terminated;
        hide Outside, Scratch, PageWord;
        if Remaining() != [] {
          GaveByte(e, i, Remaining(), host, fmt, args, p, k, pool.dir);
        }
        c := Next();
        done := false;
        if c == 0 {
          Stop();
        }
      }
    }

    /** A directive gave all it had. */
    method Stop()
      requires Ready()
      modifies `mode
      ensures Ready() && mode == AT && Remaining() == []
    {
      mode := AT;
    }

    /** A turn between directives. */
    method Text(ghost e: seq<Byte>, ghost i: nat, ghost len: Word, ghost fmt: Word, ghost args: seq<Word>)
        returns (done: bool, c: Byte)
      requires Ready() && mode == AT && pool.mem.n0 == 0 && Prepared(pool.mem.p0, len, fmt, args)
      requires Standing(e, i, [], host, fmt, args, p, k, pool.dir)
      modifies this, stash, tmp, pool, pool.ram, pool.bits, pool.buf0, pool.buf1
      ensures Ready() && OnScratch(pool) && pool.mem.p0 == old(pool.mem).p0
      ensures done ==> i == |e| && c == 0
      ensures !done && c != 0 ==>
        i < |e| && c == e[i] && Standing(e, i + 1, Remaining(), host, fmt, args, p, k, pool.dir)
      ensures !done && c == 0 ==> Standing(e, i, Remaining(), host, fmt, args, p, k, pool.dir)
      ensures old(p) < p <= |host.flash|
    {
      hide pool.Tied, M.Inv, Standing, Expand, ArgOk, WellFormed, Letters, CStr, Terminated, Outside, Scratch, PageWord;
      FormatStep(e, i, host, fmt, args, p, k, pool.dir);
      c := host.flash[p];
      p := p + 1;
      done := c == 0;
      if c == DOLLAR {
        var arg := ReadWord(pool, k + 2);
        var letter := host.flash[p];
        k, p := k + 1, p + 1;
        Start(letter, arg);
        c := 0;
      }
    }
  }

  /** Where an extraction stands: `i` bytes of the expansion are done, the rest is what the current
      directive still gives followed by the rest of the format. */
  ghost predicate Standing(e: seq<Byte>, i: nat, left: seq<Byte>, host: Host, fmt: Word, args: seq<Word>,
      p: nat, k: nat, dir: M.Dir)
  {
    && At(host, fmt, args, p, k, dir) && i <= |e|
    && e[i..] == left + Expand(Rest(host, fmt, p), args[k..], host, dir)
  }

  lemma StandingAt(e: seq<Byte>, i: nat, left: seq<Byte>, host: Host, fmt: Word, args: seq<Word>,
      p: nat, k: nat, dir: M.Dir)
    requires Standing(e, i, left, host, fmt, args, p, k, dir)
    ensures p < |host.flash|
    ensures left == [] ==> Standing(e, i, [], host, fmt, args, p, k, dir)
  {
    Advance(host, fmt, args, p, k, dir);
  }

  lemma Begins(host: Host, fmt: Word, args: seq<Word>, dir: M.Dir)
    requires Usable(host, fmt, args, dir)
    ensures Standing(Expand(CStr(host.flash, fmt), args, host, dir), 0, [], host, fmt, args, fmt, 0, dir)
  {
    var f := CStr(host.flash, fmt);
    assert f[0..] == f && args[0..] == args && Letters(f)[0..] == Letters(f);
    var e := Expand(f, args, host, dir);
    assert e[0..] == e && [] + e == e;
  }

  /** A byte of the current directive is handed over. */
  lemma GaveByte(e: seq<Byte>, i: nat, left: seq<Byte>, host: Host, fmt: Word, args: seq<Word>,
      p: nat, k: nat, dir: M.Dir)
    requires Standing(e, i, left, host, fmt, args, p, k, dir) && left != []
    ensures i < |e| && e[i] == left[0] && Standing(e, i + 1, left[1..], host, fmt, args, p, k, dir)
  {
    var tail := Expand(Rest(host, fmt, p), args[k..], host, dir);
    assert e[i] == (left + tail)[0];
    assert e[i + 1..] == e[i..][1..];
    assert (left + tail)[1..] == left[1..] + tail;
  }

  /** Between directives: the format ends, gives a plain byte, or opens the next directive. */
  lemma FormatStep(e: seq<Byte>, i: nat, host: Host, fmt: Word, args: seq<Word>, p: nat, k: nat, dir: M.Dir)
    requires Standing(e, i, [], host, fmt, args, p, k, dir)
    ensures p < |host.flash|
    ensures var c := host.flash[p];
            && (c == 0 ==> i == |e|)
            && (c != 0 && c != DOLLAR ==>
                  && p + 1 < |host.flash| && i < |e| && e[i] == c
                  && Standing(e, i + 1, [], host, fmt, args, p + 1, k, dir))
            && (c == DOLLAR ==>
                  && p + 2 < |host.flash| && k < |args| && ArgOk(host.flash[p + 1], args[k], host, dir)
                  && Standing(e, i, Piece(host.flash[p + 1], args[k], host, dir), host, fmt, args, p + 2, k + 1, dir))
  {
    Advance(host, fmt, args, p, k, dir);
    var rest := Rest(host, fmt, p);
    if rest != [] {
      Advance(host, fmt, args, if rest[0] == DOLLAR then p + 2 else p + 1, if rest[0] == DOLLAR then k + 1 else k, dir);
    }
    var tail := Expand(rest, args[k..], host, dir);
    assert [] + tail == tail;
    if rest != [] && rest[0] != DOLLAR {
      assert e[i] == tail[0];
      assert e[i + 1..] == e[i..][1..];
      assert tail[1..] == [] + Expand(rest[1..], args[k..], host, dir);
    } else if rest != [] {
      assert args[k..][1..] == args[k + 1..] && args[k..][0] == args[k];
    }
  }

  /** The output so far: `o` bytes of the window, the rest of the buffer as it was. */
  ghost predicate Copied(out: seq<Byte>, was: seq<Byte>, e: seq<Byte>, offset: nat, i: nat, o: nat) {
    |out| == |was| && i <= |e| && o <= |out| && out == Window(e, offset, i) + was[o..] && |Window(e, offset, i)| == o
  }

  lemma CopyStarts(was: seq<Byte>, e: seq<Byte>, offset: nat)
    ensures Copied(was, was, e, offset, 0, 0)
  {
  }

  lemma CopyEnds(out: seq<Byte>, was: seq<Byte>, e: seq<Byte>, offset: nat, i: nat, o: nat, end: nat)
    requires Copied(out, was, e, offset, i, o) && (i == end || (i < end && i == |e|))
    ensures |Window(e, offset, end)| == o && out == Window(e, offset, end) + was[o..]
  {
  }

  lemma CopyMore(out: seq<Byte>, was: seq<Byte>, e: seq<Byte>, offset: nat, i: nat, o: nat)
    requires Copied(out, was, e, offset, i, o) && i < |e|
    requires i >= offset ==> o < |out|
    ensures Copied(if i >= offset then out[o := e[i]] else out, was, e, offset, i + 1, if i >= offset then o + 1 else o)
  {
  }

  /** A byte at or past `offset` goes to the buffer. */
  method Emit(out: array<Byte>, offset: nat, i: nat, o: nat, c: Byte, ghost was: seq<Byte>, ghost e: seq<Byte>)
      returns (o': nat)
    requires Copied(out[..], was, e, offset, i, o) && i < |e| && c == e[i]
    requires i >= offset ==> o < out.Length
    modifies out
    ensures Copied(out[..], was, e, offset, i + 1, o') && o' == if i >= offset then o + 1 else o
  {
    hide Copied;
    CopyMore(out[..], was, e, offset, i, o);
    o' := o;
    if i >= offset {
      ghost var before: seq<Byte> := out[..];
      out[o] := c;
      assert out[..] == before[o := c];
      o' := o + 1;
    }
  }

  /** `extract` writes exactly its window of the expansion, offset + count taken in 16 bits, and
      leaves every stash alone. */
  method Extract(pool: Pool, host: Host, offset: Word, count: Word, out: array<Byte>,
      ghost len: Word, ghost fmt: Word, ghost args: seq<Word>)
    requires pool.Valid() && Prepared(Scratch(pool.mem), len, fmt, args)
    requires Usable(host, fmt, args, pool.dir)
    requires out.Length >= count && out !in pool.Repr()
    modifies out, pool, pool.ram, pool.bits, pool.buf0, pool.buf1
    ensures OnScratch(pool) && Scratch(pool.mem) == Scratch(old(pool.mem))
    ensures var e := Expand(CStr(host.flash, fmt), args, host, pool.dir);
            var w := Window(e, offset, (offset + count) % 0x1_0000);
            |w| <= count && out[..] == w + old(out[..])[|w|..]
  {
    hide pool.Tied, M.Inv, Source.Ready, Source.Remaining, At, Standing, Window, Expand, ArgOk, WellFormed;
    hide Letters, CStr, Terminated, Outside, Scratch, PageWord, Copied;
    LoadScratch(pool);
    ghost var e := Expand(CStr(host.flash, fmt), args, host, pool.dir);
    ghost var was := out[..];
    var start := ReadWord(pool, 1);
    var o, i := 0, 0;
    var end := (offset + count) % 0x1_0000;
    var src := new Source(pool, host, start);
    Begins(host, fmt, args, pool.dir);
    CopyStarts(was, e, offset);
    StandingAt(e, 0, [], host, fmt, args, start, 0, pool.dir);
    while i < end
      invariant i <= end
      invariant src.pool == pool && src.host == host && fresh(src) && fresh(src.tmp) && fresh(src.stash)
      invariant src.Ready() && OnScratch(pool) && Prepared(pool.mem.p0, len, fmt, args)
      invariant pool.mem.p0 == Scratch(old(pool.mem))
      invariant Standing(e, i, src.Remaining(), host, fmt, args, src.p, src.k, pool.dir)
      invariant o == (if i > offset then i - offset else 0)
      invariant Copied(out[..], was, e, offset, i, o)
      invariant src.p <= |host.flash|
      decreases end - i, |host.flash| - src.p, if src.mode == AT then 0 else 1
    {
      var done, c := src.Turn(e, i, len, fmt, args);
      if done {
        break;
      }
      if c == 0 {
        continue;
      }
      o := Emit(out, offset, i, o, c, was, e);
      i := i + 1;
    }
    CopyEnds(out[..], was, e, offset, i, o, end);
    ScratchView(pool.Now(), pool.dir);
  }

  /** Two calls for consecutive windows write, one behind the other, the window of both. */
  method ExtractTwice(pool: Pool, host: Host, offset: Word, first: Word, second: Word, a: array<Byte>, b: array<Byte>,
      ghost len: Word, ghost fmt: Word, ghost args: seq<Word>)
    requires pool.Valid() && Prepared(Scratch(pool.mem), len, fmt, args)
    requires Usable(host, fmt, args, pool.dir) && offset as int + first as int + second as int < 0x1_0000
    requires a.Length >= first && b.Length >= second && a !in pool.Repr() && b !in pool.Repr() && a != b
    modifies a, b, pool, pool.ram, pool.bits, pool.buf0, pool.buf1
    ensures OnScratch(pool) && Scratch(pool.mem) == Scratch(old(pool.mem))
    ensures var e := Expand(CStr(host.flash, fmt), args, host, pool.dir);
            var mid, end := offset as int + first as int, offset as int + first as int + second as int;
            var n, m := |Window(e, offset, mid)|, |Window(e, mid, end)|;
            n <= first && m <= second && a[..n] + b[..m] == Window(e, offset, end)
  {
    hide pool.Tied, M.Inv, Prepared, Window, Expand, CStr, WellFormed, Letters, Terminated, Outside, Scratch;
    ghost var e := Expand(CStr(host.flash, fmt), args, host, pool.dir);
    var mid := offset as int + first as int;
    Extract(pool, host, offset, first, a, len, fmt, args);
    Extract(pool, host, mid, second, b, len, fmt, args);
    WindowsJoin(e, offset, mid, mid + second as int);
  }

  // ---------------------------------------------------------------- cleanup

  /** The stashes a template refers to. */
  function Referenced(letters: seq<Byte>, args: seq<Word>): set<Byte>
    requires |letters| == |args|
  {
    set k | 0 <= k < |args| && letters[k] == H :: Lo(args[k])
  }

  lemma ReferencedIs(letters: seq<Byte>, args: seq<Word>, fd: Byte)
    requires |letters| == |args|
    ensures fd in Referenced(letters, args) <==>
            exists k :: 0 <= k < |args| && letters[k] == 0x48 && args[k] % 0x100 == fd
  {
  }

  lemma ReferencedStep(letters: seq<Byte>, args: seq<Word>, k: nat)
    requires |letters| == |args| && k < |args|
    ensures Referenced(letters[..k + 1], args[..k + 1]) ==
            Referenced(letters[..k], args[..k]) + (if letters[k] == H then {Lo(args[k])} else {})
  {
    var l, a := letters[..k + 1], args[..k + 1];
    forall x | x in Referenced(letters[..k], args[..k]) ensures x in Referenced(l, a) {
      var j :| 0 <= j < k && letters[..k][j] == H && Lo(args[..k][j]) == x;
      assert l[j] == H && Lo(a[j]) == x;
    }
    forall x | x in Referenced(l, a) && (letters[k] != H || x != Lo(args[k]))
      ensures x in Referenced(letters[..k], args[..k]) {
      var j :| 0 <= j < k + 1 && l[j] == H && Lo(a[j]) == x;
      assert letters[..k][j] == H && Lo(args[..k][j]) == x;
    }
    if letters[k] == H {
      assert l[k] == H && Lo(a[k]) == Lo(args[k]);
    }
  }

  /** `cleanup` so far: the directory without the first `k` references, seen from both sides. The
      links in RAM and the read slot still describe all of `dir0`. */
  ghost predicate Released(w: M.World, free: set<Byte>, dir0: M.Dir, dir: M.Dir, gone: set<Byte>) {
    && w.mem.n0 == 0 && M.Inv(w.(free := free), dir0) && M.Inv(w, dir) && dir == dir0 - gone
  }

  /** Releasing one more reference, whether or not it was released before. */
  lemma ReleaseAgain(w: M.World, free: set<Byte>, dir0: M.Dir, dir: M.Dir, gone: set<Byte>, fd: Byte)
    requires Released(w, free, dir0, dir, gone) && fd in dir0 && dir0[fd].saved
    ensures var (m, h) := M.Open(w.mem, fd);
            && h.first == fd && M.RamChain(m.ram, fd, dir0[fd].chain)
            && Outside(m) == Outside(w.mem) && Scratch(m) == Scratch(w.mem) && m.p0 == w.mem.p0
            && Released(M.World(w.free + M.PageSet(dir0[fd].chain), m), free, dir0, dir - {fd}, gone + {fd})
  {
    hide M.EntryOk, M.RamChain, M.Partition, M.Disjoint, M.ReadSlotOk;
    var w0 := w.(free := free);
    ReadsKeep(w0, dir0, fd);
    M.OpenStep(w0, dir0, fd);
    var m := M.Open(w.mem, fd).0;
    M.ReleaseStep(w0.(mem := m), dir0, fd) by { ScratchUnowned(w0.(mem := m), dir0, fd); }
    if fd in dir {
      M.OpenStep(w, dir, fd);
      M.ReleaseStep(w.(mem := m), dir, fd) by { ScratchUnowned(w.(mem := m), dir, fd); }
    } else {
      AlreadyFree(w, free, dir0, dir, gone, fd);
      M.UnownedRead(w, dir, fd);
    }
    assert dir - {fd} == dir0 - (gone + {fd});
  }

  lemma ScratchUnowned(w: M.World, dir: M.Dir, fd: Byte)
    requires M.Inv(w, dir) && fd in dir
    ensures 0 !in dir[fd].chain
  {
    M.InvChain(w, dir, fd);
  }

  lemma AlreadyFree(w: M.World, free: set<Byte>, dir0: M.Dir, dir: M.Dir, gone: set<Byte>, fd: Byte)
    requires Released(w, free, dir0, dir, gone) && fd in dir0 && fd !in dir
    ensures fd < PAGES && !M.Owned(dir, fd)
    ensures w.free + M.PageSet(dir0[fd].chain) == w.free && dir - {fd} == dir
  {
    hide M.EntryOk, M.ReadSlotOk;
    M.InvChain(w.(free := free), dir0, fd);
    forall p: Byte | p in dir0[fd].chain ensures p in w.free {
      assert M.OwnedBy(dir0, fd, p);
      forall g: Byte ensures !M.OwnedBy(dir, g, p) {
        assert M.OwnedBy(dir, g, p) ==> M.OwnedBy(dir0, g, p);
      }
    }
    assert dir0[fd].chain[0] in dir0[fd].chain;
  }

  lemma StashArg(arg: Word, host: Host, dir: M.Dir)
    requires ArgOk(H, arg, host, dir)
    ensures Lo(arg) in dir && dir[Lo(arg)].saved
  {
  }

  /** `cleanup` frees exactly the pages of the stashes the template refers to, each once however
      often it is named, and leaves every other stash alone. */
  method Cleanup(pool: Pool, host: Host, ghost len: Word, ghost fmt: Word, ghost args: seq<Word>)
    requires pool.Valid() && Prepared(Scratch(pool.mem), len, fmt, args) && Usable(host, fmt, args, pool.dir)
    modifies pool, pool.ram, pool.bits, pool.buf0, pool.buf1
    ensures pool.Valid() && pool.mem.n0 == 0
    ensures pool.dir == old(pool.dir) - Referenced(Letters(CStr(host.flash, fmt)), args)
    ensures Outside(pool.mem) == Outside(old(pool.mem)) && Scratch(pool.mem) == Scratch(old(pool.mem))
  {
    hide pool.Tied, M.Inv, At, ArgOk, WellFormed, Letters, CStr, Terminated, Outside, Scratch, PageWord;
    LoadScratch(pool);
    ghost var dir0, free0, gone := pool.dir, pool.free, {};
    var start := ReadWord(pool, 1);
    var p: nat, k := start, 0;
    ghost var letters := Letters(CStr(host.flash, fmt));
    AtStart(host, fmt, args, dir0);
    while true
      invariant pool.Tied() && Released(pool.Now(), free0, dir0, pool.dir, gone)
      invariant At(host, fmt, args, p, k, dir0) && Prepared(pool.mem.p0, len, fmt, args)
      invariant k <= |args| && gone == Referenced(letters[..k], args[..k])
      invariant Outside(pool.mem) == Outside(old(pool.mem)) && Scratch(pool.mem) == Scratch(old(pool.mem))
      decreases |host.flash| - p
    {
      Advance(host, fmt, args, p, k, dir0);
      var c := host.flash[p];
      p := p + 1;
      if c == 0 {
        assert letters[..k] == letters && args[..k] == args;
        break;
      }
      if c == DOLLAR {
        var arg := ReadWord(pool, k + 2);
        var letter := host.flash[p];
        ReferencedStep(letters, args, k);
        k, p := k + 1, p + 1;
        if letter == H {
          StashArg(arg, host, dir0);
          ReleaseOne(pool, Lo(arg), free0, dir0, gone);
          gone := gone + {Lo(arg)};
        }
      }
    }
  }

  method ReleaseOne(pool: Pool, fd: Byte, ghost free: set<Byte>, ghost dir0: M.Dir, ghost gone: set<Byte>)
    requires pool.Tied() && Released(pool.Now(), free, dir0, pool.dir, gone) && fd in dir0 && dir0[fd].saved
    modifies pool, pool.ram, pool.bits, pool.buf0, pool.buf1
    ensures pool.Tied() && Released(pool.Now(), free, dir0, pool.dir, gone + {fd})
    ensures pool.mem.p0 == old(pool.mem).p0
    ensures Outside(pool.mem) == Outside(old(pool.mem)) && Scratch(pool.mem) == Scratch(old(pool.mem))
  {
    hide pool.Tied, M.Inv, M.Open, Outside, Scratch, M.RamChain;
    ReleaseAgain(pool.Now(), free, dir0, pool.dir, gone, fd);
    var stash := new Stash(pool);
    stash.OpenFields(fd);
    stash.ReleaseLinks(dir0[fd].chain);
    pool.dir := pool.dir - {fd};
  }
}
