/** Machine widths of the AVR target and the few byte-string notions every component shares. */
module Bytes {
  type Byte = x: int | 0 <= x < 0x100
  type Word = x: int | 0 <= x < 0x1_0000

  datatype Option<+T> = None | Some(value: T)

  /** The 16-bit value of two bytes in network order. */
  function Be16(hi: Byte, lo: Byte): Word {
    hi * 0x100 + lo
  }

  function Hi(w: Word): Byte {
    w / 0x100
  }

  function Lo(w: Word): Byte {
    w % 0x100
  }

  /** No NUL byte occurs in `s`: what a C string can hold. */
  predicate NulFree(s: seq<Byte>) {
    forall k :: 0 <= k < |s| ==> s[k] != 0
  }

  /** What lies at `j` is `front`, and behind it `rest`. */
  lemma DropFront(e: seq<Byte>, j: nat, front: seq<Byte>, rest: seq<Byte>)
    requires j <= |e| && e[j..] == front + rest
    ensures j + |front| <= |e| && e[j + |front|..] == rest
    ensures forall k :: j <= k < j + |front| ==> e[k] == front[k - j]
  {
    assert e[j + |front|..] == (front + rest)[|front|..];
    forall k | j <= k < j + |front| ensures e[k] == front[k - j] {
      assert e[k] == (front + rest)[k - j];
    }
  }
}
