/**
 * poly1305-serpent: the per-message Poly1305 key derived from a 32-byte
 * key kr and a 16-byte nonce. The first half of kr is a Serpent key under
 * which the nonce is encrypted to give the pad s; the second half is the
 * multiplier r. The tag of a message is then the RFC 8439 tag under (r, s).
 *
 * The header declares a three-argument poly1305_init that keeps the pad in
 * the context, while poly1305.c takes it at poly1305_mac instead; the
 * Authenticator below is the first form and is shown equal to the second.
 */
module Poly1305Serpent {
  import opened Bytes
  import Serpent
  import Poly1305

  /** The expanded Serpent key of kr[0..16]; a 16-byte key is never rejected. */
  function SerpentKey(kr: seq<byte>): (ks: Serpent.RoundKeys)
    requires |kr| == 32
    ensures Serpent.ScheduleOf(kr[..16], ks)
  {
    var r := Serpent.SetKey(kr[..16]);
    assert r.Success?;
    r.value
  }

  /** The multiplier half of the key, kr[16..32]. */
  function Multiplier(kr: seq<byte>): (r: Block)
    requires |kr| == 32
    ensures r == kr[16..]
  {
    kr[16..32]
  }

  /** The pad: the nonce encrypted under the Serpent key kr[0..16]. */
  function PadOf(kr: seq<byte>, nonce: Block): (s: Block)
    requires |kr| == 32
    ensures s == Serpent.SpecEncrypt(SerpentKey(kr), nonce)
  {
    Serpent.EncryptMatchesSpec(SerpentKey(kr), nonce);
    Serpent.Encrypt(SerpentKey(kr), nonce)
  }

  /** A Poly1305 context together with the pad it adds at the end. */
  datatype Authenticator = Authenticator(poly: Poly1305.Ctx, secret: Block)

  predicate Valid(a: Authenticator)
  {
    Poly1305.Valid(a.poly)
  }

  /** The three-argument poly1305_init of the header: multiplier r, pad s kept for the end. */
  function Setup(r: Block, s: Block): (a: Authenticator)
    ensures Valid(a) && a.poly.buffer == [] && Poly1305.Value(a.poly.state) == 0
    ensures Poly1305.Value(a.poly.key.r) == LeValue(Poly1305.Clamp(r)) && a.secret == s
  {
    Authenticator(Poly1305.Init(r), s)
  }

  /** poly1305_serpent_init: r is kr[16..32], the pad is Serpent(kr[0..16], nonce). */
  function Init(kr: seq<byte>, nonce: Block): (a: Authenticator)
    requires |kr| == 32
    ensures a == Setup(Multiplier(kr), Serpent.SpecEncrypt(SerpentKey(kr), nonce))
  {
    Setup(Multiplier(kr), PadOf(kr, nonce))
  }

  function Update(a: Authenticator, data: seq<byte>): (a': Authenticator)
    requires Valid(a)
    ensures Valid(a') && a'.secret == a.secret && a'.poly.key == a.poly.key
  {
    a.(poly := Poly1305.Update(a.poly, data))
  }

  /** The tag: poly1305_mac with the stored pad. */
  function Final(a: Authenticator): Block
    requires Valid(a)
  {
    Poly1305.Mac(a.poly, a.secret)
  }

  /** With the pad kept in the context, the tag of m is the RFC 8439 tag under (r, s). */
  lemma {:induction false} SetupTag(r: Block, s: Block, m: seq<byte>)
    ensures Final(Update(Setup(r, s), m)) == Poly1305.Tag(m, r, s)
  {
    hide Poly1305.Mac, Poly1305.Update, Poly1305.Init, Poly1305.Tag;
    Poly1305.OneShot(r, s, m);
  }

  /** The tag of m under poly1305_serpent_init(kr, nonce): r = kr[16..32], s = Serpent(kr[0..16], nonce). */
  lemma {:induction false} AuthenticatorTag(kr: seq<byte>, nonce: Block, m: seq<byte>)
    requires |kr| == 32
    ensures Final(Update(Init(kr, nonce), m))
         == Poly1305.Tag(m, Multiplier(kr), Serpent.SpecEncrypt(SerpentKey(kr), nonce))
  {
    hide Poly1305.Mac, Poly1305.Update, Poly1305.Init, Poly1305.Tag, Final, Update, SerpentKey, Serpent.SpecEncrypt, Serpent.SetKey;
    SetupTag(Multiplier(kr), Serpent.SpecEncrypt(SerpentKey(kr), nonce), m);
  }
}
