/** Bytes, and words in the little-endian order of the supported machines. */
module Bytes {

  type byte = x: int | 0 <= x < 256

  function FromLe(s: seq<byte>): nat {
    if s == [] then 0 else s[0] + 256 * FromLe(s[1..])
  }

  function ToLe(x: nat, n: nat): (s: seq<byte>)
    ensures |s| == n
  {
    if n == 0 then [] else [x % 256] + ToLe(x / 256, n - 1)
  }

  function Pow256(n: nat): (r: nat)
    ensures r > 0
  {
    if n == 0 then 1 else 256 * Pow256(n - 1)
  }

  lemma {:induction false} FromTo(x: nat, n: nat)
    requires x < Pow256(n)
    ensures FromLe(ToLe(x, n)) == x
  {
    if n > 0 {
      FromTo(x / 256, n - 1);
      assert ToLe(x, n)[1..] == ToLe(x / 256, n - 1);
    }
  }

  /** The last byte holds the highest bits. */
  lemma {:induction false} TopByte(s: seq<byte>)
    requires |s| > 0
    ensures var p := Pow256(|s| - 1); s[|s| - 1] * p <= FromLe(s) < s[|s| - 1] * p + p
  {
    if |s| > 1 {
      TopByte(s[1..]);
      Scale(s[|s| - 1], Pow256(|s| - 2));
    }
  }

  lemma Scale(b: nat, p: nat)
    ensures 256 * (b * p) == b * (256 * p)
  {
  }

  lemma Pow256Of8()
    ensures Pow256(7) == 0x100_0000_0000_0000 && Pow256(8) == 0x1_0000_0000_0000_0000
  {
  }
}
