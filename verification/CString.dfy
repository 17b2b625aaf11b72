/** C strings: bytes up to a NUL. */
module CString {
  import opened Bytes

  /** A NUL is found from `a` on. */
  predicate Terminated(mem: seq<Byte>, a: nat)
    decreases |mem| - a
  {
    a < |mem| && (mem[a] == 0 || Terminated(mem, a + 1))
  }

  /** The bytes from `a` up to the first NUL. */
  function CStr(mem: seq<Byte>, a: nat): (s: seq<Byte>)
    ensures NulFree(s)
    decreases |mem| - a
  {
    if a >= |mem| || mem[a] == 0 then [] else [mem[a]] + CStr(mem, a + 1)
  }

  /** How a terminated string lies in memory: its bytes, then the NUL. */
  lemma {:induction false} CStrLies(mem: seq<Byte>, a: nat)
    requires Terminated(mem, a)
    ensures var s := CStr(mem, a);
            && a + |s| < |mem| && mem[a + |s|] == 0
            && (forall k :: 0 <= k < |s| ==> mem[a + k] == s[k])
    decreases |mem| - a
  {
    if mem[a] != 0 {
      CStrLies(mem, a + 1);
      var s, t := CStr(mem, a), CStr(mem, a + 1);
      forall k | 0 <= k < |s| ensures mem[a + k] == s[k] {
        if k > 0 { assert mem[a + 1 + (k - 1)] == t[k - 1]; }
      }
    }
  }

  /** Bytes followed by a NUL are the C string there. */
  lemma {:induction false} StringLies(mem: seq<Byte>, a: nat, s: seq<Byte>)
    requires NulFree(s) && a + |s| < |mem| && mem[a..a + |s|] == s && mem[a + |s|] == 0
    ensures Terminated(mem, a) && CStr(mem, a) == s
    decreases |s|
  {
    if s != [] {
      assert mem[a] == s[0];
      assert mem[a + 1..a + 1 + |s[1..]|] == s[1..];
      assert NulFree(s[1..]) by {
        assert forall k :: 0 <= k < |s| - 1 ==> s[1..][k] == s[k + 1];
      }
      StringLies(mem, a + 1, s[1..]);
      assert s == [s[0]] + s[1..];
    }
  }
}
