/**
 * ctiseq from utils.c: a comparison of two byte strings whose running time
 * does not depend on where they differ. Every pair of bytes is visited and
 * the XORs are ORed into a mask; the verdict is computed from the mask
 * without a branch.
 */
module CtIsEq {
  import opened Bytes

  /** The OR of the XORs of the first n byte pairs. */
  function Mask(a: seq<byte>, b: seq<byte>, n: nat): byte
    requires n <= |a| && n <= |b|
  {
    if n == 0 then 0 else Mask(a, b, n - 1) | (a[n - 1] ^ b[n - 1])
  }

  /** The mask is zero exactly when the first n bytes agree. */
  lemma {:induction false} MaskZero(a: seq<byte>, b: seq<byte>, n: nat)
    requires n <= |a| && n <= |b|
    ensures Mask(a, b, n) == 0 <==> a[..n] == b[..n]
  {
    if n > 0 {
      MaskZero(a, b, n - 1);
      assert a[..n] == a[..n - 1] + [a[n - 1]] && b[..n] == b[..n - 1] + [b[n - 1]];
      if a[..n] == b[..n] {
        assert a[..n - 1] == a[..n][..n - 1];
        assert b[..n - 1] == b[..n][..n - 1];
      }
    }
  }

  /**
   * ((mask - 1) >> 8) & 1 on a C int: the right shift of a negative int is
   * arithmetic, that is floor division by 256, and & 1 of a two's
   * complement value is its remainder modulo 2.
   */
  function Verdict(mask: byte): (r: int)
    ensures r == (if mask == 0 then 1 else 0)
  {
    ((mask as int - 1) / 256) % 2
  }

  /** ctiseq: 1 when the first n bytes of a and b are equal, 0 otherwise; n = 0 gives 1. */
  function Eq(a: seq<byte>, b: seq<byte>, n: nat): (r: int)
    requires n <= |a| && n <= |b|
    ensures r == (if a[..n] == b[..n] then 1 else 0)
  {
    MaskZero(a, b, n);
    Verdict(Mask(a, b, n))
  }

  /** The loop of ctiseq, which visits every pair whatever the data. */
  method Ctiseq(a: seq<byte>, b: seq<byte>, n: nat) returns (r: int)
    requires n <= |a| && n <= |b|
    ensures r == 1 <==> a[..n] == b[..n]
    ensures r == 0 <==> a[..n] != b[..n]
  {
    var mask: byte := 0;
    var i := 0;
    while i < n
      invariant i <= n
      invariant mask == Mask(a, b, i)
    {
      mask := mask | (a[i] ^ b[i]);
      i := i + 1;
    }
    MaskZero(a, b, n);
    r := Verdict(mask);
  }
}
