/**
 * pbkdf2_hmac_sha256: PBKDF2 whose pseudorandom function is HMAC-SHA256
 * (RFC 2104) keyed by a 32-byte key made from the password.
 *
 * SHA-256 itself is not part of this model: it is the parameter H, any
 * function with 32-byte results, and a SHA-256 context is the byte string
 * fed to it so far.
 *
 * The password becomes the key as follows: longer than 32 bytes, it is
 * replaced by its hash; otherwise it is padded with zeros to 32 bytes. The
 * 64-byte HMAC key block is this key followed by 32 zeros. RFC 2104 hashes
 * a key only when it is longer than the 64-byte block, so for passwords of
 * 33 to 64 bytes the PRF is HMAC keyed by H(password) rather than by the
 * password (KeyIsRfc2104).
 */
module Pbkdf2Hmac {
  import opened Bytes
  import Pbkdf2

  /** A hash function with 32-byte digests, standing for SHA-256. */
  type Hash = h: seq<byte> -> seq<byte> | forall x :: |h(x)| == 32 witness x => Zeros(32)

  const Ipad: byte := 0x36
  const Opad: byte := 0x5c

  /** n copies of the byte b. */
  function Fill(n: nat, b: byte): (s: seq<byte>)
    ensures |s| == n && forall i | 0 <= i < n :: s[i] == b
  {
    seq(n, _ => b)
  }

  /** The 32-byte HMAC key made from the password. */
  function PasswordKey(H: Hash, passwd: seq<byte>): (key: seq<byte>)
    ensures |key| == 32
  {
    if |passwd| > 32 then H(passwd) else passwd + Zeros(32 - |passwd|)
  }

  /** A 64-byte pad block: each key byte XOR pad, then 32 copies of pad. */
  function PadBlock(key: seq<byte>, pad: byte): (b: seq<byte>)
    requires |key| == 32
    ensures |b| == 64 && b == Xor(key + Zeros(32), Fill(64, pad))
  {
    var b := seq(64, i requires 0 <= i < 64 => if i < 32 then key[i] ^ pad else pad);
    var x := Xor(key + Zeros(32), Fill(64, pad));
    assert forall i | 0 <= i < 32 :: b[i] == x[i];
    assert forall i | 32 <= i < 64 :: b[i] == x[i] by {
      forall i | 32 <= i < 64 ensures b[i] == x[i] {
        assert x[i] == 0 ^ pad;
      }
    }
    b
  }

  /** hmac_sha256_init: a hash context that has absorbed the inner pad block. */
  function HmacInit(key: seq<byte>): (ctx: seq<byte>)
    requires |key| == 32
    ensures |ctx| == 64
  {
    PadBlock(key, Ipad)
  }

  /** hmac_sha256_done: the hash of the outer pad block followed by the inner hash. */
  function HmacDone(H: Hash, ctx: seq<byte>, key: seq<byte>): (tag: seq<byte>)
    requires |key| == 32
    ensures |tag| == 32
  {
    H(PadBlock(key, Opad) + H(ctx))
  }

  /** HMAC of m under a 32-byte key, as the two routines compute it. */
  function Hmac(H: Hash, key: seq<byte>, m: seq<byte>): (tag: seq<byte>)
    requires |key| == 32
    ensures |tag| == 32
  {
    HmacDone(H, HmacInit(key) + m, key)
  }

  /** RFC 2104 with a 64-byte block: K0 is the key hashed if longer than the block, then zero-padded. */
  function Rfc2104(H: Hash, k: seq<byte>, m: seq<byte>): (tag: seq<byte>)
    ensures |tag| == 32
  {
    var k0 := if |k| > 64 then H(k) + Zeros(32) else k + Zeros(64 - |k|);
    H(Xor(k0, Fill(64, Opad)) + H(Xor(k0, Fill(64, Ipad)) + m))
  }

  /** The source's HMAC is RFC 2104 HMAC keyed by the password, or by its hash when longer than 32 bytes. */
  lemma {:induction false} KeyIsRfc2104(H: Hash, passwd: seq<byte>, m: seq<byte>)
    ensures Hmac(H, PasswordKey(H, passwd), m) == Rfc2104(H, if |passwd| > 32 then H(passwd) else passwd, m)
  {
    hide PasswordKey, Xor, Fill, Zeros;
    KeyBlock(H, passwd);
  }

  /** The key block the source builds is RFC 2104's K0 for the key it stands for. */
  lemma {:induction false} KeyBlock(H: Hash, passwd: seq<byte>)
    ensures var k := if |passwd| > 32 then H(passwd) else passwd;
      PasswordKey(H, passwd) + Zeros(32) == k + Zeros(64 - |k|)
  {
    var k := if |passwd| > 32 then H(passwd) else passwd;
    var a := PasswordKey(H, passwd) + Zeros(32);
    var b := k + Zeros(64 - |k|);
    assert forall i | 0 <= i < 64 :: a[i] == b[i];
  }

  /** So for passwords of at most 32 or more than 64 bytes it is exactly RFC 2104 HMAC keyed by the password. */
  lemma {:induction false} ShortOrLongIsRfc2104(H: Hash, passwd: seq<byte>, m: seq<byte>)
    requires |passwd| <= 32 || |passwd| > 64
    ensures Hmac(H, PasswordKey(H, passwd), m) == Rfc2104(H, passwd, m)
  {
    hide Hmac, PasswordKey;
    KeyIsRfc2104(H, passwd, m);
    if |passwd| > 64 {
      assert Rfc2104(H, H(passwd), m) == Rfc2104(H, passwd, m);
    }
  }

  /** The pseudorandom function: HMAC under the password key. */
  function Prf(H: Hash, passwd: seq<byte>): (p: Pbkdf2.Prf)
    ensures Pbkdf2.Fixed(p) && p.len == 32
    ensures forall x :: p.f(x) == Hmac(H, PasswordKey(H, passwd), x)
  {
    Pbkdf2.Prf(x => Hmac(H, PasswordKey(H, passwd), x), 32)
  }

  /** pbkdf2_hmac_sha256: outlen bytes of PBKDF2 output; there is no failure case. */
  function Derive(H: Hash, passwd: seq<byte>, salt: seq<byte>, iter: nat, outlen: nat): (dk: seq<byte>)
    ensures |dk| == outlen
  {
    Pbkdf2.Derive(Prf(H, passwd), salt, iter, outlen)
  }

  /** The context after the salt, which every block starts from. */
  function Template(key: seq<byte>, salt: seq<byte>): (ctx: seq<byte>)
    requires |key| == 32
    ensures |ctx| == 64 + |salt| && ctx[..64] == HmacInit(key) && ctx[64..] == salt
  {
    HmacInit(key) + salt
  }

  /** Finishing a copy of the template with INT(i) gives U_1 = PRF(salt || INT(i)). */
  lemma {:induction false} TemplateTag(H: Hash, passwd: seq<byte>, salt: seq<byte>, i: nat)
    ensures HmacDone(H, Template(PasswordKey(H, passwd), salt) + Pbkdf2.Int(i), PasswordKey(H, passwd))
         == Prf(H, passwd).f(salt + Pbkdf2.Int(i))
  {
    hide HmacDone, PasswordKey, Pbkdf2.Int, HmacInit;
    var key := PasswordKey(H, passwd);
    assert HmacInit(key) + salt + Pbkdf2.Int(i) == HmacInit(key) + (salt + Pbkdf2.Int(i));
  }

  /** Block k of the output is T_(k+1) = U_1 ^ ... ^ U_iter of the HMAC PRF. */
  lemma {:induction false} OutputBlock(H: Hash, passwd: seq<byte>, salt: seq<byte>, iter: nat, outlen: nat, k: nat)
    requires (k + 1) * 32 <= outlen
    ensures Derive(H, passwd, salt, iter, outlen)[k * 32..(k + 1) * 32] == Pbkdf2.F(Prf(H, passwd), salt, iter, k + 1)
  {
    hide Pbkdf2.Derive, Pbkdf2.F, Prf;
    Pbkdf2.DeriveBlock(Prf(H, passwd), salt, iter, k, outlen);
  }
}
