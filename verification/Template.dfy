/** Format templates: what prepare, length, extract and cleanup mean. */
module Template {
  import opened Bytes
  import opened CString
  import opened StashMemory
  import M = StashModel

  /** The memories a format argument can point into. */
  datatype Host = Host(flash: seq<Byte>, sram: seq<Byte>, eeprom: seq<Byte>)

  const DOLLAR: Byte := 0x24
  const AT: Byte := 0x40
  const D: Byte := 0x44
  const E: Byte := 0x45
  const F: Byte := 0x46
  const H: Byte := 0x48
  const S: Byte := 0x53

  /** The bytes of a stash that `get` hands out before it answers 0. */
  function UpToNul(s: seq<Byte>): (r: seq<Byte>)
    ensures NulFree(r) && r <= s
    ensures |r| == |s| <==> NulFree(s)
  {
    if s == [] || s[0] == 0 then [] else
      assert NulFree(s) <==> NulFree(s[1..]) by {
        assert forall k :: 0 <= k < |s| - 1 ==> s[k + 1] == s[1..][k];
      }
      assert s == [s[0]] + s[1..];
      [s[0]] + UpToNul(s[1..])
  }

  // ---------------------------------------------------------------- decimal numbers

  function Decimal(n: nat): (s: seq<Byte>)
    ensures |s| >= 1 && NulFree(s)
  {
    (if n > 9 then Decimal(n / 10) else []) + [0x30 + n % 10]
  }

  function ReadDecimal(s: seq<Byte>): int {
    if s == [] then 0 else
      var digit: int := s[|s| - 1];
      10 * ReadDecimal(s[..|s| - 1]) + (digit - 0x30)
  }

  /** The digits written for a word read back as that word, without a leading zero, in at most five. */
  lemma {:induction false} DecimalReads(n: nat)
    ensures ReadDecimal(Decimal(n)) == n
    ensures forall k :: 0 <= k < |Decimal(n)| ==> 0x30 <= Decimal(n)[k] <= 0x39
    ensures n > 0 ==> Decimal(n)[0] != 0x30
    ensures n < 10 ==> |Decimal(n)| == 1
    ensures n > 9 ==> |Decimal(n)| == |Decimal(n / 10)| + 1
  {
    if n > 9 {
      DecimalReads(n / 10);
      LastDigit(Decimal(n / 10), 0x30 + n % 10);
    } else {
      LastDigit([], 0x30 + n % 10);
    }
  }

  lemma LastDigit(front: seq<Byte>, d: Byte)
    ensures var digit: int := d; ReadDecimal(front + [d]) == 10 * ReadDecimal(front) + (digit - 0x30)
  {
    assert (front + [d])[..|front|] == front;
  }

  function Pow10(k: nat): nat {
    if k == 0 then 1 else 10 * Pow10(k - 1)
  }

  lemma {:induction false} DecimalWidth(n: nat, k: nat)
    requires k >= 1 && n < Pow10(k)
    ensures |Decimal(n)| <= k
  {
    if n > 9 {
      DecimalWidth(n / 10, k - 1);
    }
  }

  // ---------------------------------------------------------------- formats

  /** No format ends in the middle of a directive. */
  predicate WellFormed(f: seq<Byte>) {
    if f == [] then true
    else if f[0] == DOLLAR then |f| >= 2 && WellFormed(f[2..])
    else WellFormed(f[1..])
  }

  /** The directive letters, in order. */
  function Letters(f: seq<Byte>): seq<Byte>
    requires WellFormed(f)
  {
    if f == [] then []
    else if f[0] == DOLLAR then [f[1]] + Letters(f[2..])
    else Letters(f[1..])
  }

  /** What a directive is replaced by. */
  function Piece(letter: Byte, arg: Word, host: Host, dir: M.Dir): (s: seq<Byte>)
    ensures NulFree(s)
  {
    if letter == D then Decimal(arg)
    else if letter == S then CStr(host.sram, arg)
    else if letter == F then CStr(host.flash, arg)
    else if letter == E then CStr(host.eeprom, arg)
    else if letter == H && Lo(arg) in dir then UpToNul(dir[Lo(arg)].data)
    else []
  }

  /** What `prepare` adds to the length for a directive: all bytes of a stash, NUL or not. */
  function PieceLen(letter: Byte, arg: Word, host: Host, dir: M.Dir): nat {
    if letter == H && Lo(arg) in dir then |dir[Lo(arg)].data| else |Piece(letter, arg, host, dir)|
  }

  /** A directive's argument points at something of its kind. */
  predicate ArgOk(letter: Byte, arg: Word, host: Host, dir: M.Dir) {
    && (letter == S ==> Terminated(host.sram, arg))
    && (letter == F ==> Terminated(host.flash, arg))
    && (letter == E ==> Terminated(host.eeprom, arg))
    && (letter == H ==> Lo(arg) in dir && dir[Lo(arg)].saved)
  }

  predicate ArgsOk(letters: seq<Byte>, args: seq<Word>, host: Host, dir: M.Dir) {
    |letters| == |args| && forall k :: 0 <= k < |args| ==> ArgOk(letters[k], args[k], host, dir)
  }

  /** The whole expansion. */
  function Expand(f: seq<Byte>, args: seq<Word>, host: Host, dir: M.Dir): (s: seq<Byte>)
    requires WellFormed(f) && |Letters(f)| == |args|
    decreases |f|
  {
    if f == [] then []
    else if f[0] == DOLLAR then Piece(f[1], args[0], host, dir) + Expand(f[2..], args[1..], host, dir)
    else [f[0]] + Expand(f[1..], args, host, dir)
  }

  /** The length `prepare` computes, before it wraps to 16 bits. */
  function PreparedLen(f: seq<Byte>, args: seq<Word>, host: Host, dir: M.Dir): nat
    requires WellFormed(f) && |Letters(f)| == |args|
    decreases |f|
  {
    if f == [] then 0
    else if f[0] == DOLLAR then PieceLen(f[1], args[0], host, dir) + PreparedLen(f[2..], args[1..], host, dir)
    else 1 + PreparedLen(f[1..], args, host, dir)
  }

  /** Every stash named by a `$H` holds no NUL byte. */
  predicate NulFreeStashes(letters: seq<Byte>, args: seq<Word>, dir: M.Dir)
    requires |letters| == |args|
  {
    forall k :: 0 <= k < |args| && letters[k] == H && Lo(args[k]) in dir ==> NulFree(dir[Lo(args[k])].data)
  }

  /** The bytes of `$H` stashes that lie behind a first NUL, where `get` ends the piece. */
  function Unseen(letters: seq<Byte>, args: seq<Word>, dir: M.Dir): nat
    requires |letters| == |args|
  {
    if args == [] then 0 else Behind(letters[0], args[0], dir) + Unseen(letters[1..], args[1..], dir)
  }

  function Behind(letter: Byte, arg: Word, dir: M.Dir): (n: nat)
    ensures n == 0 <==> letter == H && Lo(arg) in dir ==> NulFree(dir[Lo(arg)].data)
  {
    if letter == H && Lo(arg) in dir then |dir[Lo(arg)].data| - |UpToNul(dir[Lo(arg)].data)| else 0
  }

  lemma {:induction false} AllSeen(letters: seq<Byte>, args: seq<Word>, dir: M.Dir)
    requires |letters| == |args|
    ensures Unseen(letters, args, dir) == 0 <==> NulFreeStashes(letters, args, dir)
  {
    if args != [] {
      AllSeen(letters[1..], args[1..], dir);
      FirstSeen(letters, args, dir);
    }
  }

  lemma FirstSeen(letters: seq<Byte>, args: seq<Word>, dir: M.Dir)
    requires |letters| == |args| && args != []
    ensures NulFreeStashes(letters, args, dir) <==>
            Behind(letters[0], args[0], dir) == 0 && NulFreeStashes(letters[1..], args[1..], dir)
  {
    if NulFreeStashes(letters, args, dir) {
      forall k | 0 <= k < |args| - 1 && letters[1..][k] == H && Lo(args[1..][k]) in dir
        ensures NulFree(dir[Lo(args[1..][k])].data) {
        assert letters[k + 1] == H;
      }
    }
    if Behind(letters[0], args[0], dir) == 0 && NulFreeStashes(letters[1..], args[1..], dir) {
      forall k | 0 <= k < |args| && letters[k] == H && Lo(args[k]) in dir ensures NulFree(dir[Lo(args[k])].data) {
        if k > 0 { assert letters[1..][k - 1] == H; }
      }
    }
  }

  lemma PieceSeen(letter: Byte, arg: Word, host: Host, dir: M.Dir)
    ensures PieceLen(letter, arg, host, dir) == |Piece(letter, arg, host, dir)| + Behind(letter, arg, dir)
  {
  }

  /** The length computed is that of the expansion and of what a first NUL hides in each `$H` stash. */
  lemma {:induction false} LengthIsExpansion(f: seq<Byte>, args: seq<Word>, host: Host, dir: M.Dir)
    requires WellFormed(f) && |Letters(f)| == |args|
    ensures PreparedLen(f, args, host, dir) == |Expand(f, args, host, dir)| + Unseen(Letters(f), args, dir)
    ensures PreparedLen(f, args, host, dir) == |Expand(f, args, host, dir)| <==> NulFreeStashes(Letters(f), args, dir)
    decreases |f|
  {
    hide Piece, PieceLen, Behind, NulFreeStashes;
    AllSeen(Letters(f), args, dir);
    if f == [] {
    } else if f[0] == DOLLAR {
      LengthIsExpansion(f[2..], args[1..], host, dir);
      PieceSeen(f[1], args[0], host, dir);
      assert Letters(f)[1..] == Letters(f[2..]);
    } else {
      LengthIsExpansion(f[1..], args, host, dir);
    }
  }

  /** The word that `prepare` stores is the length of the expansion exactly when the expansion fits 16
      bits and what NULs hide adds up to a multiple of 65536, as nothing does. So with NUL-free stashes
      it is right exactly for expansions under 65536 bytes, and as long as the count does not wrap
      exactly for NUL-free stashes. */
  lemma StoredLength(f: seq<Byte>, args: seq<Word>, host: Host, dir: M.Dir)
    requires WellFormed(f) && |Letters(f)| == |args|
    ensures var stored, size := PreparedLen(f, args, host, dir) % 0x1_0000, |Expand(f, args, host, dir)|;
            && (stored == size <==> size < 0x1_0000 && Unseen(Letters(f), args, dir) % 0x1_0000 == 0)
            && (NulFreeStashes(Letters(f), args, dir) ==> (stored == size <==> size < 0x1_0000))
            && (PreparedLen(f, args, host, dir) < 0x1_0000 ==>
                  (stored == size <==> NulFreeStashes(Letters(f), args, dir)))
  {
    hide *;
    LengthIsExpansion(f, args, host, dir);
    AllSeen(Letters(f), args, dir);
    WrapsRight(|Expand(f, args, host, dir)|, Unseen(Letters(f), args, dir));
  }

  lemma WrapsRight(size: nat, unseen: nat)
    ensures (size + unseen) % 0x1_0000 == size <==> size < 0x1_0000 && unseen % 0x1_0000 == 0
  {
  }

  lemma PlainFront(c: Byte, f: seq<Byte>, args: seq<Word>, host: Host, dir: M.Dir)
    requires c != DOLLAR
    ensures WellFormed([c] + f) <==> WellFormed(f)
    ensures WellFormed(f) ==> Letters([c] + f) == Letters(f)
    ensures WellFormed(f) && |Letters(f)| == |args| ==>
              && Expand([c] + f, args, host, dir) == [c] + Expand(f, args, host, dir)
              && PreparedLen([c] + f, args, host, dir) == 1 + PreparedLen(f, args, host, dir)
  {
    assert ([c] + f)[1..] == f;
  }

  lemma DirectiveFront(letter: Byte, f: seq<Byte>, arg: Word, args: seq<Word>, host: Host, dir: M.Dir)
    ensures WellFormed([DOLLAR, letter] + f) <==> WellFormed(f)
    ensures WellFormed(f) ==> Letters([DOLLAR, letter] + f) == [letter] + Letters(f)
    ensures WellFormed(f) && |Letters(f)| == |args| ==>
              && Expand([DOLLAR, letter] + f, [arg] + args, host, dir) ==
                 Piece(letter, arg, host, dir) + Expand(f, args, host, dir)
              && PreparedLen([DOLLAR, letter] + f, [arg] + args, host, dir) ==
                 PieceLen(letter, arg, host, dir) + PreparedLen(f, args, host, dir)
  {
    hide Piece, PieceLen;
    assert ([DOLLAR, letter] + f)[2..] == f && ([arg] + args)[1..] == args;
  }

  /** A format is empty, starts with a plain character, or with a directive. */
  lemma Starts(f: seq<Byte>, args: seq<Word>)
    requires WellFormed(f) && |Letters(f)| == |args|
    ensures f == [] ==> args == []
    ensures f != [] && f[0] != DOLLAR ==> f == [f[0]] + f[1..] && WellFormed(f[1..]) && |Letters(f[1..])| == |args|
    ensures f != [] && f[0] == DOLLAR ==>
              && |f| >= 2 && args != [] && f == [DOLLAR, f[1]] + f[2..] && args == [args[0]] + args[1..]
              && WellFormed(f[2..]) && |Letters(f[2..])| == |args[1..]|
  {
  }

  /** Formats one behind the other expand one behind the other, and their lengths add up. */
  lemma {:induction false} ExpandJoin(f: seq<Byte>, g: seq<Byte>, a: seq<Word>, b: seq<Word>, host: Host, dir: M.Dir)
    requires WellFormed(f) && |Letters(f)| == |a| && WellFormed(g) && |Letters(g)| == |b|
    ensures WellFormed(f + g) && Letters(f + g) == Letters(f) + Letters(g)
    ensures Expand(f + g, a + b, host, dir) == Expand(f, a, host, dir) + Expand(g, b, host, dir)
    ensures PreparedLen(f + g, a + b, host, dir) == PreparedLen(f, a, host, dir) + PreparedLen(g, b, host, dir)
    decreases |f|
  {
    hide Piece, PieceLen, WellFormed, Letters, Expand, PreparedLen;
    Starts(f, a);
    if f == [] {
      NoText(a, host, dir);
      NothingLong(a, host, dir);
      assert f + g == g && a + b == b;
    } else if f[0] == DOLLAR {
      ExpandJoin(f[2..], g, a[1..], b, host, dir);
      DirectiveFront(f[1], f[2..], a[0], a[1..], host, dir);
      DirectiveFront(f[1], f[2..] + g, a[0], a[1..] + b, host, dir);
      assert f + g == [DOLLAR, f[1]] + (f[2..] + g) && a + b == [a[0]] + (a[1..] + b);
      Regroup([f[1]], Letters(f[2..]), Letters(g));
      Regroup(Piece(f[1], a[0], host, dir), Expand(f[2..], a[1..], host, dir), Expand(g, b, host, dir));
    } else {
      ExpandJoin(f[1..], g, a, b, host, dir);
      PlainFront(f[0], f[1..], a, host, dir);
      PlainFront(f[0], f[1..] + g, a + b, host, dir);
      assert f + g == [f[0]] + (f[1..] + g);
      Regroup([f[0]], Expand(f[1..], a, host, dir), Expand(g, b, host, dir));
    }
  }

  lemma NothingLong(args: seq<Word>, host: Host, dir: M.Dir)
    requires args == []
    ensures WellFormed([]) && Letters([]) == [] && PreparedLen([], args, host, dir) == 0
  {
  }

  lemma Regroup(a: seq<Byte>, b: seq<Byte>, c: seq<Byte>)
    ensures a + (b + c) == (a + b) + c
  {
  }

  /** A character other than `$` stands for itself. */
  lemma PlainExpands(c: Byte, host: Host, dir: M.Dir)
    requires c != 0x24
    ensures WellFormed([c]) && Letters([c]) == []
    ensures Expand([c], [], host, dir) == [c] && PreparedLen([c], [], host, dir) == 1
  {
    assert [c][1..] == [] && Expand([], [], host, dir) == [];
  }

  /** A directive alone. */
  lemma DirectiveExpands(letter: Byte, arg: Word, host: Host, dir: M.Dir)
    ensures WellFormed([0x24, letter]) && Letters([0x24, letter]) == [letter]
    ensures Expand([0x24, letter], [arg], host, dir) == Piece(letter, arg, host, dir)
    ensures PreparedLen([0x24, letter], [arg], host, dir) == PieceLen(letter, arg, host, dir)
  {
    hide Piece, PieceLen;
    assert [0x24, letter][2..] == [] && [arg][1..] == [];
    assert Expand([], [], host, dir) == [] && PreparedLen([], [], host, dir) == 0;
  }

  /** `$D` is the argument in decimal, without a leading zero. */
  lemma NumberExpands(arg: Word, host: Host, dir: M.Dir)
    ensures WellFormed([0x24, 0x44]) && |Letters([0x24, 0x44])| == 1
    ensures var e := Expand([0x24, 0x44], [arg], host, dir);
            && ReadDecimal(e) == arg && (forall k :: 0 <= k < |e| ==> 0x30 <= e[k] <= 0x39)
            && 1 <= |e| <= 5 && (|e| > 1 ==> e[0] != 0x30)
  {
    hide Decimal, ReadDecimal, Expand, Letters, WellFormed;
    DirectiveExpands(0x44, arg, host, dir);
    DecimalReads(arg);
    DecimalWidth(arg, 5);
  }

  /** `$S`, `$F` and `$E` are the bytes at the argument, in SRAM, flash and EEPROM, up to the first NUL. */
  lemma TextExpands(letter: Byte, mem: seq<Byte>, arg: Word, host: Host, dir: M.Dir)
    requires || (letter == 0x53 && mem == host.sram) || (letter == 0x46 && mem == host.flash)
             || (letter == 0x45 && mem == host.eeprom)
    requires exists k: nat :: arg <= k < |mem| && mem[k] == 0
    ensures WellFormed([0x24, letter]) && |Letters([0x24, letter])| == 1
    ensures var e := Expand([0x24, letter], [arg], host, dir);
            && arg + |e| < |mem| && mem[arg + |e|] == 0
            && forall k :: 0 <= k < |e| ==> e[k] == mem[arg + k] && e[k] != 0
  {
    hide CStr, Terminated, Expand, Letters, WellFormed;
    var k: nat :| arg <= k < |mem| && mem[k] == 0;
    DirectiveExpands(letter, arg, host, dir);
    NulEnds(mem, arg, k);
    StringAt(mem, arg, CStr(mem, arg));
  }

  lemma StringAt(mem: seq<Byte>, a: nat, e: seq<Byte>)
    requires Terminated(mem, a) && e == CStr(mem, a)
    ensures a + |e| < |mem| && mem[a + |e|] == 0
    ensures forall k :: 0 <= k < |e| ==> e[k] == mem[a + k] && e[k] != 0
  {
    hide CStr, Terminated;
    CStrLies(mem, a);
    forall k | 0 <= k < |e| ensures e[k] == mem[a + k] && e[k] != 0 {
      assert mem[a + k] == e[k] && e[k] != 0;
    }
  }

  lemma {:induction false} NulEnds(mem: seq<Byte>, a: nat, k: nat)
    requires a <= k < |mem| && mem[k] == 0
    ensures Terminated(mem, a)
    decreases k - a
  {
    if a < k {
      NulEnds(mem, a + 1, k);
    }
  }

  /** `$H` is the bytes of the stash the argument names, in its low byte, up to the first NUL; `prepare` counts
      them all. */
  lemma StashExpands(arg: Word, host: Host, dir: M.Dir)
    requires arg % 0x100 in dir
    ensures WellFormed([0x24, 0x48]) && |Letters([0x24, 0x48])| == 1
    ensures var e, data := Expand([0x24, 0x48], [arg], host, dir), dir[arg % 0x100].data;
            && |e| <= |data| && (|e| < |data| ==> data[|e|] == 0)
            && forall k :: 0 <= k < |e| ==> e[k] == data[k] && e[k] != 0
    ensures PreparedLen([0x24, 0x48], [arg], host, dir) == |dir[arg % 0x100].data|
  {
    hide Expand, Letters, WellFormed;
    DirectiveExpands(0x48, arg, host, dir);
    UpToNulEnds(dir[arg % 0x100].data);
  }

  lemma {:induction false} UpToNulEnds(s: seq<Byte>)
    ensures var r := UpToNul(s); |r| < |s| ==> s[|r|] == 0
  {
    if s != [] && s[0] != 0 {
      UpToNulEnds(s[1..]);
    }
  }

  /** Any other letter takes its argument and stands for nothing. */
  lemma OtherExpands(letter: Byte, arg: Word, host: Host, dir: M.Dir)
    requires letter !in {0x44, 0x53, 0x46, 0x45, 0x48}
    ensures WellFormed([0x24, letter]) && |Letters([0x24, letter])| == 1
    ensures Expand([0x24, letter], [arg], host, dir) == [] && PreparedLen([0x24, letter], [arg], host, dir) == 0
  {
    hide Expand, Letters, WellFormed, PreparedLen;
    DirectiveExpands(letter, arg, host, dir);
  }

  /** `n` directives `$F`. */
  function Texts(n: nat): (f: seq<Byte>)
    ensures |f| == 2 * n && NulFree(f)
  {
    if n == 0 then [] else [DOLLAR, F] + Texts(n - 1)
  }

  lemma {:induction false} TextsExpand(n: nat, args: seq<Word>, host: Host, dir: M.Dir, text: Word)
    requires |args| == n && (forall k :: 0 <= k < n ==> args[k] == text)
    ensures WellFormed(Texts(n)) && |Letters(Texts(n))| == n && (forall l :: l in Letters(Texts(n)) ==> l == F)
    ensures |Expand(Texts(n), args, host, dir)| == n * |CStr(host.flash, text)|
  {
    hide CStr, Expand, Letters, WellFormed, Piece;
    if n == 0 {
      NoText(args, host, dir);
    } else {
      TextsExpand(n - 1, args[1..], host, dir, text);
      DirectiveFront(F, Texts(n - 1), args[0], args[1..], host, dir);
      assert args == [args[0]] + args[1..];
      TextPiece(args[0], host, dir);
    }
  }

  lemma TextPiece(arg: Word, host: Host, dir: M.Dir)
    ensures Piece(F, arg, host, dir) == CStr(host.flash, arg)
  {
  }

  lemma NoText(args: seq<Word>, host: Host, dir: M.Dir)
    requires args == []
    ensures WellFormed([]) && Letters([]) == [] && Expand([], args, host, dir) == []
  {
  }

  lemma TwoStrings(mem: seq<Byte>, s: seq<Byte>, t: seq<Byte>)
    requires mem == s + [0] + t + [0] && NulFree(s) && NulFree(t)
    ensures Terminated(mem, 0) && CStr(mem, 0) == s
    ensures Terminated(mem, |s| + 1) && CStr(mem, |s| + 1) == t
  {
    assert mem[0..0 + |s|] == s;
    StringLies(mem, 0, s);
    assert mem[|s| + 1..|s| + 1 + |t|] == t;
    StringLies(mem, |s| + 1, t);
  }

  /** Thirty times a text of 2200 bytes: the expansion has 66000 bytes, and the word stored is 464. */
  lemma LengthWraps(host: Host, args: seq<Word>, dir: M.Dir)
    requires host.flash == seq(2200, _ => 0x61) + [0] + Texts(30) + [0] && args == seq(30, _ => 0)
    ensures var f := CStr(host.flash, 2201);
            && Terminated(host.flash, 2201) && WellFormed(f) && ArgsOk(Letters(f), args, host, dir)
            && |Expand(f, args, host, dir)| == 66000
            && PreparedLen(f, args, host, dir) % 0x1_0000 == 464
  {
    hide CStr, Terminated, Expand, Letters, WellFormed, PreparedLen, Texts, Unseen;
    TwoStrings(host.flash, seq(2200, _ => 0x61), Texts(30));
    TextsExpand(30, args, host, dir, 0);
    forall k | 0 <= k < |args| ensures Letters(Texts(30))[k] == F {
      assert Letters(Texts(30))[k] in Letters(Texts(30));
    }
    LengthIsExpansion(Texts(30), args, host, dir);
  }

  /** A stash that holds a NUL: its template is prepared with length 1 and expands to nothing. */
  lemma LengthTooLong(host: Host)
    ensures var f, args := [DOLLAR, H], [1];
            var dir := map[1 := M.Entry([1], [0], true)];
            && WellFormed(f) && |Letters(f)| == |args|
            && PreparedLen(f, args, host, dir) == 1 && Expand(f, args, host, dir) == []
  {
    var f: seq<Byte> := [DOLLAR, H];
    assert f[2..] == [];
  }
}
