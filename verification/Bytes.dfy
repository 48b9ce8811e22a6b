/** Bytes, and 16-bit fields in the little-endian order of the wire. */
module Bytes {
  type byte = b: int | 0 <= b < 0x100
  type uint16 = w: int | 0 <= w < 0x1_0000

  function Lo(w: uint16): byte { w % 0x100 }

  function Hi(w: uint16): byte { w / 0x100 }

  function Word(lo: byte, hi: byte): uint16 { lo + 0x100 * hi }

  lemma {:induction false} WordOfParts(w: uint16)
    ensures Word(Lo(w), Hi(w)) == w
  {
  }

  lemma {:induction false} LowHalf(x: nat)
    ensures x % 0x1_0000 % 0x100 == x % 0x100 && x % 0x1_0000 / 0x100 == x / 0x100 % 0x100
  {
    var q := x / 0x1_0000;
    assert x == 0x1_0000 * q + x % 0x1_0000;
    assert x / 0x100 == 0x100 * q + x % 0x1_0000 / 0x100;
  }

  lemma {:induction false} HighHalf(x: nat)
    ensures x / 0x1_0000 / 0x100 == x / 0x100_0000
  {
  }

  function Zeros(n: nat): (s: seq<byte>)
    ensures |s| == n && forall i :: 0 <= i < n ==> s[i] == 0
  {
    seq(n, _ => 0)
  }

  /** memcpy into a sequence of bytes. */
  function Put(s: seq<byte>, at: nat, data: seq<byte>): (r: seq<byte>)
    requires at + |data| <= |s|
    ensures |r| == |s|
  {
    s[..at] + data + s[at + |data|..]
  }

  lemma {:induction false} PutParts(s: seq<byte>, at: nat, data: seq<byte>)
    requires at + |data| <= |s|
    ensures var r := Put(s, at, data);
            r[..at] == s[..at] && r[at..at + |data|] == data && r[at + |data|..] == s[at + |data|..]
  {
  }

  /** memcpy into an array. */
  method Copy(dst: array<byte>, at: nat, src: seq<byte>)
    requires at + |src| <= dst.Length
    modifies dst
    ensures dst[at..at + |src|] == src
    ensures dst[..at] == old(dst[..at]) && dst[at + |src|..] == old(dst[at + |src|..])
  {
    var i := 0;
    while i < |src|
      invariant 0 <= i <= |src|
      invariant dst[at..at + i] == src[..i]
      invariant dst[..at] == old(dst[..at]) && dst[at + i..] == old(dst[at + i..])
    {
      dst[at + i] := src[i];
      i := i + 1;
    }
  }
}
