/**
 * PBKDF2 (section 5.2 of RFC 8018) over a pseudorandom function with a
 * fixed output length, and the output loop that pbkdf2-omac-serpent.c and
 * pbkdf2-hmac-sha256.c share: block i is U_1 ^ ... ^ U_c with
 * U_1 = PRF(salt || INT(i)) and U_j = PRF(U_(j-1)), and the blocks are
 * written out until the requested length is reached, the last one cut.
 *
 * INT(i) is the four-byte big-endian block index; the source keeps it in a
 * uint32_t, so it wraps modulo 2^32, which BeBytes reproduces. An
 * iteration count of 0 or 1 yields U_1 alone.
 */
module Pbkdf2 {
  import opened Arith
  import opened Bytes

  /** A keyed pseudorandom function together with its output length. */
  datatype Prf = Prf(f: seq<byte> -> seq<byte>, len: nat)

  /** The PRF's outputs all have the stated nonzero length. */
  ghost predicate Fixed(p: Prf)
  {
    p.len > 0 && forall x :: |p.f(x)| == p.len
  }

  /** INT(i): the block index as four big-endian bytes, modulo 2^32. */
  function Int(i: nat): (s: seq<byte>)
    ensures |s| == 4 && BeValue(s) == i % 0x1_0000_0000
  {
    BeBytesValue(i, 4);
    Pow256Values();
    BeBytes(i, 4)
  }

  /** U_j of block i. */
  function U(p: Prf, salt: seq<byte>, i: nat, j: nat): (u: seq<byte>)
    requires Fixed(p)
    requires j >= 1
    ensures |u| == p.len
  {
    if j == 1 then p.f(salt + Int(i)) else p.f(U(p, salt, i, j - 1))
  }

  /** F(P, S, c, i) = U_1 ^ ... ^ U_c; counts below 1 act as 1. */
  function F(p: Prf, salt: seq<byte>, c: nat, i: nat): (t: seq<byte>)
    requires Fixed(p)
    ensures |t| == p.len
  {
    if c <= 1 then U(p, salt, i, 1) else Xor(F(p, salt, c - 1, i), U(p, salt, i, c))
  }

  /** T_i || T_(i+1) || ... cut to n bytes. */
  function Blocks(p: Prf, salt: seq<byte>, c: nat, i: nat, n: nat): (dk: seq<byte>)
    requires Fixed(p)
    ensures |dk| == n
    decreases n
  {
    if n == 0 then []
    else if n <= p.len then F(p, salt, c, i)[..n]
    else F(p, salt, c, i) + Blocks(p, salt, c, i + 1, n - p.len)
  }

  /** The derived key DK of dkLen bytes: T_1 || T_2 || ... cut to dkLen. */
  function Derive(p: Prf, salt: seq<byte>, c: nat, dkLen: nat): (dk: seq<byte>)
    requires Fixed(p)
    ensures |dk| == dkLen
  {
    Blocks(p, salt, c, 1, dkLen)
  }

  /** The inner loop: the running XOR of U_1 .. U_c. */
  method Block(p: Prf, salt: seq<byte>, c: nat, i: nat) returns (u: seq<byte>)
    requires Fixed(p)
    ensures u == F(p, salt, c, i)
  {
    var t := p.f(salt + Int(i));
    u := t;
    var j := 2;
    while j <= c
      invariant 2 <= j <= (if c >= 2 then c + 1 else 2)
      invariant t == U(p, salt, i, j - 1)
      invariant u == F(p, salt, j - 1, i)
    {
      t := p.f(t);
      u := Xor(u, t);
      j := j + 1;
    }
    if c < 2 {
      assert F(p, salt, c, i) == U(p, salt, i, 1) == F(p, salt, 1, i);
    }
  }

  /** The outer loop: whole blocks while more than a block is needed, then the cut last one. */
  method Run(p: Prf, salt: seq<byte>, c: nat, outlen: nat) returns (out: seq<byte>)
    requires Fixed(p)
    ensures out == Derive(p, salt, c, outlen)
  {
    hide F, U;
    out := [];
    var left: nat := outlen;
    var i := 1;
    while left > 0
      invariant out + Blocks(p, salt, c, i, left) == Derive(p, salt, c, outlen)
      decreases left
    {
      var u := Block(p, salt, c, i);
      var need := if p.len < left then p.len else left;
      BlocksStep(p, salt, c, i, left);
      out := out + u[..need];
      left := left - need;
      i := i + 1;
    }
  }

  /** The first block of the rest, cut to what is still needed, followed by the blocks after it. */
  lemma {:induction false} BlocksStep(p: Prf, salt: seq<byte>, c: nat, i: nat, n: nat)
    requires Fixed(p)
    requires n > 0
    ensures var need := if p.len < n then p.len else n;
      Blocks(p, salt, c, i, n) == F(p, salt, c, i)[..need] + Blocks(p, salt, c, i + 1, n - need)
  {
    hide F, U;
    var t := F(p, salt, c, i);
    if n <= p.len {
      assert Blocks(p, salt, c, i + 1, 0) == [];
    } else {
      assert t[..p.len] == t;
    }
  }

  /** Exactly dkLen bytes come out, and a shorter request is a prefix of a longer one. */
  lemma {:induction false} DerivePrefix(p: Prf, salt: seq<byte>, c: nat, m: nat, n: nat)
    requires Fixed(p)
    requires m <= n
    ensures Derive(p, salt, c, m) == Derive(p, salt, c, n)[..m]
  {
    BlocksPrefix(p, salt, c, 1, m, n);
  }

  lemma {:induction false} BlocksPrefix(p: Prf, salt: seq<byte>, c: nat, i: nat, m: nat, n: nat)
    requires Fixed(p)
    requires m <= n
    ensures Blocks(p, salt, c, i, m) == Blocks(p, salt, c, i, n)[..m]
    decreases n
  {
    hide F, U;
    var t := F(p, salt, c, i);
    if m == 0 {
    } else if m <= p.len {
      if n > p.len {
        assert (t + Blocks(p, salt, c, i + 1, n - p.len))[..m] == t[..m];
      }
    } else {
      BlocksPrefix(p, salt, c, i + 1, m - p.len, n - p.len);
      var r := Blocks(p, salt, c, i + 1, n - p.len);
      assert (t + r)[..m] == t + r[..m - p.len];
    }
  }

  /** Block i of the output is T_i, whole, when the output reaches past it. */
  lemma {:induction false} DeriveBlock(p: Prf, salt: seq<byte>, c: nat, k: nat, n: nat)
    requires Fixed(p)
    requires (k + 1) * p.len <= n
    ensures Derive(p, salt, c, n)[k * p.len..(k + 1) * p.len] == F(p, salt, c, k + 1)
  {
    BlocksAt(p, salt, c, 1, k, n);
  }

  lemma {:induction false} BlocksAt(p: Prf, salt: seq<byte>, c: nat, i: nat, k: nat, n: nat)
    requires Fixed(p)
    requires (k + 1) * p.len <= n
    ensures Blocks(p, salt, c, i, n)[k * p.len..(k + 1) * p.len] == F(p, salt, c, i + k)
    decreases k
  {
    hide F, U, Blocks;
    MulDistrib(p.len, k, 1);
    BlocksAtOffset(p, salt, c, i, k, k * p.len, n);
  }

  lemma {:induction false} BlocksAtOffset(p: Prf, salt: seq<byte>, c: nat, i: nat, k: nat, o: nat, n: nat)
    requires Fixed(p)
    requires o == k * p.len && o + p.len <= n
    ensures Blocks(p, salt, c, i, n)[o..o + p.len] == F(p, salt, c, i + k)
    decreases k
  {
    hide F, U, Blocks;
    var h := p.len;
    var t := F(p, salt, c, i);
    BlocksStep(p, salt, c, i, n);
    if k == 0 {
      assert t[..h] == t;
      assert Blocks(p, salt, c, i, n)[o..o + h] == t[..h];
    } else {
      assert o - h == (k - 1) * h by {
        MulDistrib(h, k - 1, 1);
      }
      var r := Blocks(p, salt, c, i + 1, n - h);
      assert t[..h] == t;
      BlocksAtOffset(p, salt, c, i + 1, k - 1, o - h, n - h);
      assert (t + r)[o..o + h] == r[o - h..o - h + h];
    }
  }
}
