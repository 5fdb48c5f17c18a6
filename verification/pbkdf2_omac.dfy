/**
 * pbkdf2_omac_serpent: PBKDF2 whose pseudorandom function is the OMAC-Serpent
 * tag under tweak 0, keyed by the password itself. The password is a C
 * string, so the key is the bytes before its first NUL; more than 32 of
 * them is refused, as serpent_setkey refuses any key longer than 32 bytes.
 *
 * The source computes the OMAC state after the salt once, copies it for
 * every block and only feeds INT(i) to the copy; TemplateTag shows that
 * this is the tag of salt || INT(i).
 */
module Pbkdf2Omac {
  import opened Bytes
  import Serpent
  import Omac
  import Pbkdf2

  /** The bytes strlen counts: those before the first NUL, or all of s. */
  function CString(s: seq<byte>): (c: seq<byte>)
    ensures c <= s && 0 !in c
    ensures |c| < |s| ==> s[|c|] == 0
  {
    if |s| == 0 || s[0] == 0 then [] else [s[0]] + CString(s[1..])
  }

  /** The OMAC key of a Serpent key schedule. */
  function OmacKey(ks: Serpent.RoundKeys): (k: Omac.Key)
    ensures k.E == Serpent.Cipher(ks)
  {
    Omac.SetKey(Serpent.Cipher(ks))
  }

  /** The pseudorandom function: the 16-byte OMAC tag with tweak 0. */
  function Prf(ks: Serpent.RoundKeys): (p: Pbkdf2.Prf)
    ensures Pbkdf2.Fixed(p) && p.len == 16
    ensures forall x :: p.f(x) == Omac.Tag(OmacKey(ks), 0, x)
  {
    Pbkdf2.Prf(x => Omac.Tag(OmacKey(ks), 0, x), 16)
  }

  /** pbkdf2_omac_serpent: refused for a password longer than 32 bytes, else the PBKDF2 output. */
  function Derive(passwd: seq<byte>, salt: seq<byte>, iter: nat, outlen: nat): (r: Serpent.Result<seq<byte>>)
    ensures r.Failure? <==> |CString(passwd)| > Serpent.MaxKeySize
    ensures r.Success? ==> |r.value| == outlen
  {
    match Serpent.SetKey(CString(passwd))
    case Failure => Serpent.Failure
    case Success(ks) => Serpent.Success(Pbkdf2.Derive(Prf(ks), salt, iter, outlen))
  }

  /** The OMAC state after the salt, which every block starts from. */
  function Template(key: Omac.Key, salt: seq<byte>): (c: Omac.Ctx)
    ensures Omac.Valid(c)
  {
    Omac.Update(key, Omac.Init(0), salt)
  }

  /** Finishing a copy of the template with INT(i) gives U_1 = PRF(salt || INT(i)). */
  lemma {:induction false} TemplateTag(ks: Serpent.RoundKeys, salt: seq<byte>, i: nat)
    ensures Omac.Finalize(OmacKey(ks), Omac.Update(OmacKey(ks), Template(OmacKey(ks), salt), Pbkdf2.Int(i)))
         == Prf(ks).f(salt + Pbkdf2.Int(i))
  {
    var E := Serpent.Cipher(ks);
    hide Omac.Update, Omac.Finalize, Omac.StateOf, Omac.Init, Pbkdf2.Int, Serpent.Encrypt, Serpent.Cipher;
    Omac.InitState(E, 0);
    Omac.UpdateSplit(E, Omac.Tweak(0), salt, Pbkdf2.Int(i));
  }

  /** Each U_j for j >= 2 is a fresh tag of the previous 16-byte U. */
  lemma {:induction false} IterTag(ks: Serpent.RoundKeys, salt: seq<byte>, i: nat, j: nat)
    requires j >= 2
    ensures Pbkdf2.U(Prf(ks), salt, i, j)
         == Omac.Finalize(OmacKey(ks), Omac.Update(OmacKey(ks), Omac.Init(0), Pbkdf2.U(Prf(ks), salt, i, j - 1)))
  {
    hide Omac.Update, Omac.Finalize, Omac.Init, Pbkdf2.Int, Serpent.Encrypt, Serpent.Cipher;
  }

  /** The PRF is CMAC (NIST SP 800-38B) of the tweak block followed by the input. */
  lemma {:induction false} PrfIsCmac(ks: Serpent.RoundKeys, x: seq<byte>)
    ensures Prf(ks).f(x) == Omac.Cmac(Serpent.Cipher(ks), Omac.Tweak(0) + x)
  {
    hide Omac.Tag, Omac.Cmac, Serpent.Encrypt, Serpent.Cipher;
    Omac.TagIsCmac(Serpent.Cipher(ks), 0, x);
  }

  /** Block k of a successful derivation is T_(k+1) = U_1 ^ ... ^ U_iter of the OMAC PRF. */
  lemma {:induction false} OutputBlock(passwd: seq<byte>, salt: seq<byte>, iter: nat, outlen: nat, ks: Serpent.RoundKeys, k: nat)
    requires Serpent.SetKey(CString(passwd)) == Serpent.Success(ks)
    requires (k + 1) * 16 <= outlen
    ensures Derive(passwd, salt, iter, outlen).Success?
    ensures Derive(passwd, salt, iter, outlen).value[k * 16..(k + 1) * 16] == Pbkdf2.F(Prf(ks), salt, iter, k + 1)
  {
    hide Pbkdf2.Derive, Pbkdf2.F, Prf, Serpent.SetKey;
    Pbkdf2.DeriveBlock(Prf(ks), salt, iter, k, outlen);
  }
}
