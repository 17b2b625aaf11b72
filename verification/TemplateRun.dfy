/** prepare, length, extract and cleanup at work on scratch page 0. */
module TemplateRun {
  import opened Bytes
  import opened CString
  import opened StashMemory
  import opened Template
  import M = StashModel
  import opened Stash

  /** Word `k` of a page, low byte first. */
  function PageWord(pg: Page, k: nat): Word
    requires k < 32
  {
    Be16(pg[2 * k + 1], pg[2 * k])
  }

  /** What `prepare` leaves in page 0: the length, the format's address, and the arguments. */
  ghost predicate Prepared(pg: Page, len: Word, fmt: Word, args: seq<Word>) {
    && |args| <= 30
    && PageWord(pg, 0) == len && PageWord(pg, 1) == fmt
    && forall k :: 0 <= k < |args| ==> PageWord(pg, k + 2) == args[k]
  }

  /** A template the device can be asked to expand: strings end, directives are complete and have
      arguments of their kind, and all fit in page 0. */
  ghost predicate Usable(host: Host, fmt: Word, args: seq<Word>, dir: M.Dir) {
    && |host.flash| <= 0x1_0000 && |host.sram| <= 0x1_0000 && |host.eeprom| <= 0x1_0000
    && Terminated(host.flash, fmt) && WellFormed(CStr(host.flash, fmt))
    && |args| <= 30 && ArgsOk(Letters(CStr(host.flash, fmt)), args, host, dir)
  }

  /** The pool still holds the same stashes with the same pages; page 0 is in the write slot. */
  twostate predicate OnScratch(pool: Pool)
    reads pool, pool.ram, pool.bits, pool.buf0, pool.buf1
  {
    && pool.Valid() && pool.mem.n0 == 0
    && pool.dir == old(pool.dir) && pool.free == old(pool.free)
    && Outside(pool.mem) == Outside(old(pool.mem))
  }

  method WriteWord(pool: Pool, k: nat, v: Word)
    requires pool.Valid() && pool.mem.n0 == 0 && k < 32
    modifies pool`mem, pool.buf0
    ensures OnScratch(pool)
    ensures PageWord(pool.mem.p0, k) == v
    ensures forall j :: 0 <= j < 32 && j != k ==> PageWord(pool.mem.p0, j) == PageWord(old(pool.mem).p0, j)
  {
    hide pool.Tied, M.Inv;
    ghost var m := pool.mem;
    M.InvValid(pool.Now(), pool.dir);
    pool.Poke(2 * k, v % 0x100);
    pool.Poke(2 * k + 1, v / 0x100);
    M.ScratchWrite(old(pool.Now()), pool.dir, pool.mem.p0);
    assert pool.mem == m.(p0 := pool.mem.p0);
  }

  method ReadWord(pool: Pool, k: nat) returns (v: Word)
    requires pool.Tied() && k < 32
    ensures v == PageWord(pool.mem.p0, k)
  {
    v := Be16(pool.Byte0(2 * k + 1), pool.Byte0(2 * k));
  }

  /** Opening a saved stash, and reading from one, leave every page's meaning alone. */
  lemma ReadsKeep(w: M.World, dir: M.Dir, fd: Byte)
    requires M.Inv(w, dir) && fd in dir && dir[fd].saved
    ensures var m := M.Open(w.mem, fd).0;
            Outside(m) == Outside(w.mem) && Scratch(m) == Scratch(w.mem) && m.n0 == w.mem.n0 && m.p0 == w.mem.p0
  {
    hide M.EntryOk;
    M.OpenStep(w, dir, fd);
    M.InvValid(w, dir);
  }

  lemma GetKeeps(w: M.World, dir: M.Dir, h: M.Handle, pos: nat)
    requires M.Inv(w, dir) && M.At(dir, h, pos) && dir[h.first].saved
    ensures var m := M.Get(w.mem, h).0;
            Outside(m) == Outside(w.mem) && Scratch(m) == Scratch(w.mem) && m.n0 == w.mem.n0 && m.p0 == w.mem.p0
  {
    hide M.EntryOk;
    M.GetStep(w, dir, h, pos);
    M.InvValid(w, dir);
  }

  lemma ScratchView(w: M.World, dir: M.Dir)
    requires M.Inv(w, dir) && w.mem.n0 == 0
    ensures Scratch(w.mem) == w.mem.p0
  {
  }

  /** load(0, 0): afterwards page 0 is in the write slot and every chain is in RAM. */
  method LoadScratch(pool: Pool)
    requires pool.Valid()
    modifies pool`n0, pool`n1, pool`mem, pool.ram, pool.buf0, pool.buf1
    ensures OnScratch(pool) && pool.mem.p0 == Scratch(pool.mem) == Scratch(old(pool.mem))
  {
    hide pool.Tied, M.Inv;
    M.InvValid(pool.Now(), pool.dir);
    M.Load0Inv(pool.Now(), pool.dir, 0);
    Load0PreservesView(pool.mem, 0);
    pool.Load(0, 0);
  }

  /** strlen, strlen_P and the EEPROM loop. */
  method StrLen(mem: seq<Byte>, a: Word) returns (n: Word)
    requires Terminated(mem, a) && |mem| <= 0x1_0000
    ensures n == |CStr(mem, a)|
  {
    ghost var s := CStr(mem, a);
    CStrLies(mem, a);
    n := 0;
    while mem[a + n] != 0
      invariant n <= |s| && (n < |s| ==> mem[a + n] == s[n])
      decreases |s| - n
    {
      n := n + 1;
    }
  }

  /** Writes the digits of `value` and a NUL, and returns where the NUL is. */
  method Wtoa(value: Word, buf: array<Byte>, at: nat) returns (end: nat)
    requires at + |Decimal(value)| < buf.Length
    modifies buf
    ensures end == at + |Decimal(value)| && buf[at..end] == Decimal(value) && buf[end] == 0
    ensures buf[..at] == old(buf[..at])
  {
    end := at;
    if value > 9 {
      end := Wtoa(value / 10, buf, at);
    }
    ghost var head := buf[at..end];
    buf[end] := 0x30 + value % 10;
    end := end + 1;
    buf[end] := 0;
    assert buf[at..end] == head + [0x30 + value % 10];
  }

  method DecimalLen(value: Word) returns (len: Word)
    ensures len == |Decimal(value)|
  {
    var buf := new Byte[7];
    DecimalWidth(value, 5);
    len := Wtoa(value, buf, 0);
  }

  method ArgLen(pool: Pool, host: Host, letter: Byte, arg: Word) returns (len: Word)
    requires pool.Valid() && pool.mem.n0 == 0 && ArgOk(letter, arg, host, pool.dir)
    requires |host.flash| <= 0x1_0000 && |host.sram| <= 0x1_0000 && |host.eeprom| <= 0x1_0000
    modifies pool, pool.ram, pool.bits, pool.buf0, pool.buf1
    ensures OnScratch(pool) && Scratch(pool.mem) == Scratch(old(pool.mem))
    ensures len == PieceLen(letter, arg, host, pool.dir) % 0x1_0000
  {
    hide pool.Tied, M.Inv, Outside, Scratch, CStr, Decimal, UpToNul, Terminated;
    len := 0;
    if letter == D {
      len := DecimalLen(arg);
    } else if letter == S {
      len := StrLen(host.sram, arg);
    } else if letter == F {
      len := StrLen(host.flash, arg);
    } else if letter == E {
      len := StrLen(host.eeprom, arg);
    } else if letter == H {
      len := StashLen(pool, Lo(arg));
    }
  }

  method StashLen(pool: Pool, fd: Byte) returns (len: Word)
    requires pool.Valid() && pool.mem.n0 == 0 && fd in pool.dir && pool.dir[fd].saved
    modifies pool, pool.ram, pool.bits, pool.buf0, pool.buf1
    ensures OnScratch(pool) && Scratch(pool.mem) == Scratch(old(pool.mem))
    ensures len == |pool.dir[fd].data|
  {
    hide pool.Tied, M.Inv, M.At, M.Open, Outside, Scratch;
    ReadsKeep(pool.Now(), pool.dir, fd);
    var stash := new Stash(pool);
    var first := stash.Open(fd);
    len := stash.Size();
  }

  /** The part of a format at address `p` of flash, from which letters and arguments are still to come. */
  ghost predicate At(host: Host, fmt: Word, args: seq<Word>, p: nat, k: nat, dir: M.Dir) {
    && Usable(host, fmt, args, dir)
    && var f := CStr(host.flash, fmt);
       && fmt <= p && p - fmt <= |f| && k <= |args|
       && WellFormed(f[p - fmt..]) && Letters(f[p - fmt..]) == Letters(f)[k..]
  }

  function Rest(host: Host, fmt: Word, p: nat): seq<Byte>
    requires fmt <= p && p - fmt <= |CStr(host.flash, fmt)|
  {
    CStr(host.flash, fmt)[p - fmt..]
  }

  lemma AtStart(host: Host, fmt: Word, args: seq<Word>, dir: M.Dir)
    requires Usable(host, fmt, args, dir)
    ensures At(host, fmt, args, fmt, 0, dir) && Rest(host, fmt, fmt) == CStr(host.flash, fmt)
    ensures |Letters(CStr(host.flash, fmt))| == |args|
  {
    var f := CStr(host.flash, fmt);
    assert f[0..] == f && Letters(f)[0..] == Letters(f);
  }

  /** Reading a format one step further: its end, a plain character, or a directive. */
  lemma Advance(host: Host, fmt: Word, args: seq<Word>, p: nat, k: nat, dir: M.Dir)
    requires At(host, fmt, args, p, k, dir)
    ensures var rest := Rest(host, fmt, p);
            && p < |host.flash|
            && (host.flash[p] == 0 <==> rest == [])
            && (rest == [] ==> k == |args|)
            && (rest != [] ==> host.flash[p] == rest[0])
            && (rest != [] && rest[0] != DOLLAR ==>
                  At(host, fmt, args, p + 1, k, dir) && Rest(host, fmt, p + 1) == rest[1..])
            && (rest != [] && rest[0] == DOLLAR ==>
                  && |rest| >= 2 && k < |args| && p + 1 < |host.flash| && host.flash[p + 1] == rest[1]
                  && At(host, fmt, args, p + 2, k + 1, dir) && Rest(host, fmt, p + 2) == rest[2..]
                  && ArgOk(rest[1], args[k], host, dir)
                  && |Letters(CStr(host.flash, fmt))| == |args| && rest[1] == Letters(CStr(host.flash, fmt))[k])
  {
    hide Terminated, WellFormed, Letters, ArgOk;
    var f, q := CStr(host.flash, fmt), p - fmt;
    CStrLies(host.flash, fmt);
    FormatTail(f, q, k);
    assert q < |f| ==> host.flash[fmt + q] == f[q] != 0;
    assert q + 1 < |f| ==> host.flash[fmt + (q + 1)] == f[q + 1];
  }

  /** Its directives are those of the format from number `k` on. */
  lemma FormatTail(f: seq<Byte>, q: nat, k: nat)
    requires WellFormed(f) && q <= |f| && WellFormed(f[q..]) && k <= |Letters(f)| && Letters(f[q..]) == Letters(f)[k..]
    ensures q == |f| ==> k == |Letters(f)|
    ensures q < |f| && f[q] != DOLLAR ==>
              f[q..][1..] == f[q + 1..] && WellFormed(f[q + 1..]) && Letters(f[q + 1..]) == Letters(f)[k..]
    ensures q < |f| && f[q] == DOLLAR ==>
              && q + 2 <= |f| && f[q..][2..] == f[q + 2..] && k < |Letters(f)| && Letters(f)[k] == f[q + 1]
              && WellFormed(f[q + 2..]) && Letters(f[q + 2..]) == Letters(f)[k + 1..]
  {
    var rest, all := f[q..], Letters(f);
    if q < |f| {
      assert f[q + 1..] == rest[1..];
      if f[q] == DOLLAR {
        assert f[q + 2..] == rest[2..];
        assert Letters(rest) == [rest[1]] + Letters(rest[2..]);
        DropFront(all, k, [rest[1]], Letters(rest[2..]));
      }
    }
  }

  /** One directive of `prepare`: its argument is stored, its length added and the directive's taken off. */
  method AddArg(pool: Pool, host: Host, letter: Byte, k: nat, argval: Word)
    requires pool.Valid() && pool.mem.n0 == 0 && ArgOk(letter, argval, host, pool.dir) && k < 30
    requires |host.flash| <= 0x1_0000 && |host.sram| <= 0x1_0000 && |host.eeprom| <= 0x1_0000
    modifies pool, pool.ram, pool.bits, pool.buf0, pool.buf1
    ensures OnScratch(pool)
    ensures PageWord(pool.mem.p0, k + 2) == argval
    ensures PageWord(pool.mem.p0, 0) ==
      (PageWord(old(pool.mem).p0, 0) + PieceLen(letter, argval, host, pool.dir) - 2) % 0x1_0000
    ensures forall j :: 0 < j < 32 && j != k + 2 ==> PageWord(pool.mem.p0, j) == PageWord(old(pool.mem).p0, j)
  {
    hide pool.Tied, M.Inv, PieceLen, Outside, Scratch, PageWord;
    var arglen := ArgLen(pool, host, letter, argval);
    ScratchView(pool.Now(), pool.dir);
    ScratchView(old(pool.Now()), pool.dir);
    WriteWord(pool, k + 2, argval);
    var w := ReadWord(pool, 0);
    var sum: int := w;
    WriteWord(pool, 0, (sum + arglen - 2) % 0x1_0000);
  }

  /** words[0] while `rest` of the format is still to come: its directives still count as text. */
  function Owing(all: nat, rest: seq<Byte>, args: seq<Word>, host: Host, dir: M.Dir): int
    requires WellFormed(rest) && |Letters(rest)| == |args|
  {
    (all + |rest| - PreparedLen(rest, args, host, dir)) % 0x1_0000
  }

  lemma OwingEnds(all: nat, rest: seq<Byte>, args: seq<Word>, host: Host, dir: M.Dir)
    requires WellFormed(rest) && |Letters(rest)| == |args|
    ensures rest == [] ==> Owing(all, rest, args, host, dir) == all % 0x1_0000
    ensures all == PreparedLen(rest, args, host, dir) ==> Owing(all, rest, args, host, dir) == |rest| % 0x1_0000
    ensures rest != [] && rest[0] != DOLLAR ==>
      Owing(all, rest[1..], args, host, dir) == Owing(all, rest, args, host, dir)
  {
  }

  lemma OwingDirective(all: nat, rest: seq<Byte>, args: seq<Word>, host: Host, dir: M.Dir)
    requires WellFormed(rest) && |Letters(rest)| == |args| && rest != [] && rest[0] == DOLLAR
    ensures Owing(all, rest[2..], args[1..], host, dir) ==
      (Owing(all, rest, args, host, dir) + PieceLen(rest[1], args[0], host, dir) - 2) % 0x1_0000
  {
    hide PieceLen;
    WrapAdd(all + |rest| - PreparedLen(rest, args, host, dir), PieceLen(rest[1], args[0], host, dir) - 2);
  }

  lemma WrapAdd(a: int, b: int)
    ensures (a % 0x1_0000 + b) % 0x1_0000 == (a + b) % 0x1_0000
  {
  }

  /** `prepare` stores format, arguments and the computed length in page 0 and touches no stash. */
  method Prepare(pool: Pool, host: Host, fmt: Word, args: seq<Word>)
    requires pool.Valid() && Usable(host, fmt, args, pool.dir)
    modifies pool, pool.ram, pool.bits, pool.buf0, pool.buf1
    ensures OnScratch(pool)
    ensures Prepared(pool.mem.p0, PreparedLen(CStr(host.flash, fmt), args, host, pool.dir) % 0x1_0000, fmt, args)
  {
    hide pool.Tied, M.Inv, Owing, PieceLen, PreparedLen, PageWord, ArgOk, WellFormed, Letters;
    hide Outside, Scratch, CStr, Terminated;
    LoadScratch(pool);
    var flen := StrLen(host.flash, fmt);
    WriteWord(pool, 0, flen);
    WriteWord(pool, 1, fmt);
    var p: nat, k := fmt, 0;
    ghost var f := CStr(host.flash, fmt);
    ghost var all := PreparedLen(f, args, host, pool.dir);
    assert f[0..] == f && args[0..] == args && Letters(f)[0..] == Letters(f);
    OwingEnds(all, f, args, host, pool.dir);
    while true
      invariant OnScratch(pool)
      invariant At(host, fmt, args, p, k, pool.dir)
      invariant PageWord(pool.mem.p0, 1) == fmt
      invariant forall j :: 0 <= j < k ==> PageWord(pool.mem.p0, j + 2) == args[j]
      invariant PageWord(pool.mem.p0, 0) == Owing(all, Rest(host, fmt, p), args[k..], host, pool.dir)
      decreases |f| + fmt - p
    {
      Advance(host, fmt, args, p, k, pool.dir);
      OwingEnds(all, Rest(host, fmt, p), args[k..], host, pool.dir);
      var c := host.flash[p];
      p := p + 1;
      if c == 0 {
        break;
      }
      if c == DOLLAR {
        var argval := args[k];
        OwingDirective(all, Rest(host, fmt, p - 1), args[k..], host, pool.dir);
        AddArg(pool, host, host.flash[p], k, argval);
        p := p + 1;
        k := k + 1;
        assert args[k - 1..][1..] == args[k..];
      }
    }
  }

  /** `length` after `prepare`. */
  method Length(pool: Pool, ghost len: Word, ghost fmt: Word, ghost args: seq<Word>) returns (n: Word)
    requires pool.Valid() && Prepared(Scratch(pool.mem), len, fmt, args)
    modifies pool, pool.ram, pool.bits, pool.buf0, pool.buf1
    ensures OnScratch(pool) && Scratch(pool.mem) == Scratch(old(pool.mem))
    ensures n == len
  {
    hide pool.Tied, M.Inv, Outside, Scratch, PageWord;
    LoadScratch(pool);
    n := ReadWord(pool, 0);
  }
}
