/**
 * The EAX mode of Bellare, Rogaway and Wagner over a 16-byte block cipher
 * E, as eax-serpent.c runs it incrementally: N = OMAC^0(nonce) is the
 * initial counter, the header feeds OMAC^1, the ciphertext feeds OMAC^2,
 * and the tag is N ^ H ^ C.
 *
 * Its counter mode differs from the one of ctr-serpent.c: the next counter
 * is encrypted as soon as a block is used up, so the state after p bytes is
 * the counter N + p / 16, its encryption, and p mod 16 used bytes.
 */
module Eax {
  import opened Bytes
  import Serpent
  import Ctr
  import Omac

  // ---------------------------------------------------------------------
  // serpent_ctr

  /** The counter state after p keystream bytes from the initial counter c0. */
  function CtrAt(E: BlockCipher, c0: Block, p: nat): (s: Ctr.State)
    ensures Ctr.Valid(s)
  {
    var c := CounterAt(c0, p / 16);
    Ctr.State(c, E(c), p % 16)
  }

  /** The main loop and the tail of serpent_ctr from a fresh encrypted counter. */
  function Stream(E: BlockCipher, ctr: Block, enc: Block, rest: seq<byte>): (r: Ctr.Output)
    ensures Ctr.Valid(r.state) && |r.data| == |rest|
    decreases |rest|
  {
    if |rest| >= 16 then
      var next := Increment(ctr);
      var r := Stream(E, next, E(next), rest[16..]);
      Ctr.Output(r.state, Xor(rest[..16], enc) + r.data)
    else
      Ctr.Output(Ctr.State(ctr, enc, |rest|), Xor(rest, enc[..|rest|]))
  }

  /** serpent_ctr: the carried-over bytes first; once they run out the counter moves on at once. */
  function SerpentCtr(E: BlockCipher, s: Ctr.State, src: seq<byte>): (r: Ctr.Output)
    requires Ctr.Valid(s)
    ensures Ctr.Valid(r.state) && |r.data| == |src|
  {
    if s.used > 0 then
      if s.used + |src| < 16 then
        Ctr.Output(s.(used := s.used + |src|), Xor(src, s.ctrenc[s.used..s.used + |src|]))
      else
        var k := 16 - s.used;
        var next := Increment(s.ctr);
        var r := Stream(E, next, E(next), src[k..]);
        Ctr.Output(r.state, Xor(src[..k], s.ctrenc[s.used..]) + r.data)
    else
      Stream(E, s.ctr, s.ctrenc, src)
  }

  /** One whole block of Stream. */
  lemma {:induction false} StreamBlock(E: BlockCipher, ctr: Block, enc: Block, rest: seq<byte>)
    requires |rest| >= 16
    ensures Stream(E, ctr, enc, rest)
         == Ctr.Output(Stream(E, Increment(ctr), E(Increment(ctr)), rest[16..]).state,
                       Xor(rest[..16], enc) + Stream(E, Increment(ctr), E(Increment(ctr)), rest[16..]).data)
  {
    hide Increment, Xor;
  }

  lemma {:induction false} StreamTail(E: BlockCipher, ctr: Block, enc: Block, rest: seq<byte>)
    requires |rest| < 16
    ensures Stream(E, ctr, enc, rest) == Ctr.Output(Ctr.State(ctr, enc, |rest|), Xor(rest, enc[..|rest|]))
  {
    hide Increment, Xor;
  }

  /** The output of a whole block followed by the rest, given the rest's output. */
  lemma {:induction false} StreamBlockMatches(E: BlockCipher, c0: Block, j: nat, rest: seq<byte>)
    requires |rest| >= 16
    requires Stream(E, CounterAt(c0, j + 1), E(CounterAt(c0, j + 1)), rest[16..]).data
          == Xor(rest[16..], Ctr.Keystream(E, c0, 16 * j + 16, |rest| - 16))
    ensures Stream(E, CounterAt(c0, j), E(CounterAt(c0, j)), rest).data
         == Xor(rest, Ctr.Keystream(E, c0, 16 * j, |rest|))
  {
    hide Increment, Ctr.Keystream, Ctr.KeyByte, Xor, Stream;
    var ctr := CounterAt(c0, j);
    var k2 := Ctr.Keystream(E, c0, 16 * j + 16, |rest| - 16);
    assert Increment(ctr) == CounterAt(c0, j + 1);
    StreamBlock(E, ctr, E(ctr), rest);
    Ctr.KeystreamSplit(E, c0, 16 * j, 16, |rest| - 16);
    Ctr.KeystreamBlock(E, c0, j);
    XorAppend(rest[..16], rest[16..], E(ctr), k2);
    assert rest[..16] + rest[16..] == rest;
  }

  /** From the start of block j, Stream XORs with the keystream and ends in the state of its end position. */
  lemma {:induction false} StreamMatches(E: BlockCipher, c0: Block, j: nat, rest: seq<byte>)
    ensures Stream(E, CounterAt(c0, j), E(CounterAt(c0, j)), rest).data
         == Xor(rest, Ctr.Keystream(E, c0, 16 * j, |rest|))
    ensures Stream(E, CounterAt(c0, j), E(CounterAt(c0, j)), rest).state == CtrAt(E, c0, 16 * j + |rest|)
    decreases |rest|
  {
    hide Increment, Ctr.Keystream, Ctr.KeyByte, Xor, Stream, CtrAt;
    var ctr := CounterAt(c0, j);
    var n := |rest|;
    if n >= 16 {
      assert Increment(ctr) == CounterAt(c0, j + 1);
      StreamBlock(E, ctr, E(ctr), rest);
      StreamMatches(E, c0, j + 1, rest[16..]);
      assert 16 * (j + 1) == 16 * j + 16;
      StreamBlockMatches(E, c0, j, rest);
      assert 16 * (j + 1) + (n - 16) == 16 * j + n;
    } else {
      StreamTail(E, ctr, E(ctr), rest);
      Ctr.KeystreamInBlock(E, c0, j, 0, n);
      assert 16 * j + 0 == 16 * j;
      Ctr.BlockOffset(j, n);
      CtrAtOffset(E, c0, j, n);
    }
  }

  lemma {:induction false} CtrAtOffset(E: BlockCipher, c0: Block, j: nat, a: nat)
    requires a < 16
    ensures CtrAt(E, c0, 16 * j + a) == Ctr.State(CounterAt(c0, j), E(CounterAt(c0, j)), a)
  {
    Ctr.BlockOffset(j, a);
  }

  lemma {:induction false} SerpentCtrWithin(E: BlockCipher, c0: Block, p: nat, src: seq<byte>)
    requires 0 < p % 16 && p % 16 + |src| < 16
    ensures SerpentCtr(E, CtrAt(E, c0, p), src)
         == Ctr.Output(CtrAt(E, c0, p + |src|), Xor(src, Ctr.Keystream(E, c0, p, |src|)))
  {
    hide Increment, Ctr.Keystream, Ctr.KeyByte, Xor, Stream;
    var j := p / 16;
    var a := p % 16;
    var n := |src|;
    assert p == 16 * j + a;
    CtrAtOffset(E, c0, j, a);
    CtrAtOffset(E, c0, j, a + n);
    assert p + n == 16 * j + (a + n);
    Ctr.KeystreamInBlock(E, c0, j, a, n);
  }

  lemma {:induction false} SerpentCtrAcrossStep(E: BlockCipher, s: Ctr.State, src: seq<byte>)
    requires Ctr.Valid(s) && 0 < s.used && s.used + |src| >= 16
    ensures SerpentCtr(E, s, src)
         == Ctr.Output(Stream(E, Increment(s.ctr), E(Increment(s.ctr)), src[16 - s.used..]).state,
                       Xor(src[..16 - s.used], s.ctrenc[s.used..])
                       + Stream(E, Increment(s.ctr), E(Increment(s.ctr)), src[16 - s.used..]).data)
  {
    hide Stream, Xor, Increment;
  }

  lemma {:induction false} SerpentCtrAcross(E: BlockCipher, c0: Block, p: nat, src: seq<byte>)
    requires 0 < p % 16 && p % 16 + |src| >= 16
    ensures SerpentCtr(E, CtrAt(E, c0, p), src)
         == Ctr.Output(CtrAt(E, c0, p + |src|), Xor(src, Ctr.Keystream(E, c0, p, |src|)))
  {
    hide Increment, Ctr.Keystream, Ctr.KeyByte, Xor, Stream, SerpentCtr, CtrAt;
    var j := p / 16;
    var a := p % 16;
    var n := |src|;
    var k := 16 - a;
    assert p == 16 * j + a;
    CtrAtOffset(E, c0, j, a);
    var s := CtrAt(E, c0, p);
    SerpentCtrAcrossStep(E, s, src);
    assert Increment(s.ctr) == CounterAt(c0, j + 1);
    Ctr.KeystreamInBlock(E, c0, j, a, k);
    assert s.ctrenc[s.used..] == s.ctrenc[a..a + k];
    StreamMatches(E, c0, j + 1, src[k..]);
    assert 16 * (j + 1) == p + k;
    Ctr.KeystreamSplit(E, c0, p, k, n - k);
    assert src == src[..k] + src[k..];
    XorAppend(src[..k], src[k..], Ctr.Keystream(E, c0, p, k), Ctr.Keystream(E, c0, p + k, n - k));
    assert 16 * (j + 1) + (n - k) == p + n;
  }

  /** serpent_ctr XORs with the keystream at the running offset and leaves the state of the new offset. */
  lemma {:induction false} SerpentCtrMatches(E: BlockCipher, c0: Block, p: nat, src: seq<byte>)
    ensures SerpentCtr(E, CtrAt(E, c0, p), src)
         == Ctr.Output(CtrAt(E, c0, p + |src|), Xor(src, Ctr.Keystream(E, c0, p, |src|)))
  {
    hide Increment, Ctr.Keystream, Ctr.KeyByte, Xor, Stream, SerpentCtr;
    var a := p % 16;
    if a == 0 {
      var j := p / 16;
      assert p == 16 * j;
      CtrAtOffset(E, c0, j, 0);
      assert p + 0 == p;
      StreamIsCtr(E, c0, j, src);
      StreamMatches(E, c0, j, src);
    } else if a + |src| < 16 {
      SerpentCtrWithin(E, c0, p, src);
    } else {
      SerpentCtrAcross(E, c0, p, src);
    }
  }

  lemma {:induction false} StreamIsCtr(E: BlockCipher, c0: Block, j: nat, src: seq<byte>)
    ensures SerpentCtr(E, Ctr.State(CounterAt(c0, j), E(CounterAt(c0, j)), 0), src)
         == Stream(E, CounterAt(c0, j), E(CounterAt(c0, j)), src)
  {
    hide Stream;
  }

  // ---------------------------------------------------------------------
  // The EAX context

  /** eax_serpent_t: OMAC key (with the cipher), counter state, N and the two running OMACs. */
  datatype Ctx = Ctx(key: Omac.Key, ctr: Ctr.State, n: Block, h: Omac.Ctx, c: Omac.Ctx)

  predicate Valid(x: Ctx)
  {
    Ctr.Valid(x.ctr) && Omac.Valid(x.h) && Omac.Valid(x.c)
  }

  /** The result of encrypting or decrypting: the new context and the output bytes. */
  datatype Step = Step(ctx: Ctx, data: seq<byte>)

  /** eax_serpent_init: expand the key, then derive the OMAC subkeys; fails exactly when setkey fails. */
  function Init(key: seq<byte>): (r: Serpent.Result<Omac.Key>)
    ensures r.Failure? <==> |key| > Serpent.MaxKeySize
    ensures r.Success? ==> (Serpent.SetKey(key).Success?
                            && r.value == Omac.SetKey(Serpent.Cipher(Serpent.SetKey(key).value)))
  {
    match Serpent.SetKey(key)
    case Failure => Serpent.Failure
    case Success(ks) => Serpent.Success(Omac.SetKey(Serpent.Cipher(ks)))
  }

  /** eax_serpent_nonce: N = OMAC^0(nonce) starts the counter; OMAC^1 and OMAC^2 start afresh. */
  function Nonce(key: Omac.Key, nonce: seq<byte>): (x: Ctx)
    ensures Valid(x)
  {
    var n := Omac.Tag(key, 0, nonce);
    Ctx(key, Ctr.State(n, key.E(n), 0), n, Omac.Init(1), Omac.Init(2))
  }

  /** eax_serpent_header */
  function Header(x: Ctx, header: seq<byte>): (x': Ctx)
    requires Valid(x)
    ensures Valid(x')
  {
    x.(h := Omac.Update(x.key, x.h, header))
  }

  /** eax_serpent_encrypt: counter mode, then the ciphertext into OMAC^2. */
  function Encrypt(x: Ctx, pt: seq<byte>): (r: Step)
    requires Valid(x)
    ensures Valid(r.ctx) && |r.data| == |pt|
  {
    var o := SerpentCtr(x.key.E, x.ctr, pt);
    Step(x.(ctr := o.state, c := Omac.Update(x.key, x.c, o.data)), o.data)
  }

  /** eax_serpent_decrypt: the ciphertext into OMAC^2, then counter mode. */
  function Decrypt(x: Ctx, ct: seq<byte>): (r: Step)
    requires Valid(x)
    ensures Valid(r.ctx) && |r.data| == |ct|
  {
    var c := Omac.Update(x.key, x.c, ct);
    var o := SerpentCtr(x.key.E, x.ctr, ct);
    Step(x.(ctr := o.state, c := c), o.data)
  }

  /** eax_serpent_tag: N ^ H ^ C. */
  function Tag(x: Ctx): Block
    requires Valid(x)
  {
    Xor(Xor(x.n, Omac.Finalize(x.key, x.h)), Omac.Finalize(x.key, x.c))
  }

  // ---------------------------------------------------------------------
  // The reference: EAX as defined by Bellare, Rogaway and Wagner

  /** OMAC^t of a message: the CMAC of the tweak block followed by the message. */
  function OmacT(E: BlockCipher, t: byte, m: seq<byte>): Block
  {
    Omac.Cmac(E, Omac.Tweak(t) + m)
  }

  /** The ciphertext of m under nonce: m XOR the keystream from N. */
  function CipherText(E: BlockCipher, nonce: seq<byte>, m: seq<byte>): (c: seq<byte>)
    ensures |c| == |m|
  {
    Xor(m, Ctr.Keystream(E, OmacT(E, 0, nonce), 0, |m|))
  }

  /** The tag over nonce, header and ciphertext. */
  function TagOf(E: BlockCipher, nonce: seq<byte>, header: seq<byte>, ct: seq<byte>): Block
  {
    Xor(Xor(OmacT(E, 0, nonce), OmacT(E, 1, header)), OmacT(E, 2, ct))
  }

  /**
   * The context after the nonce, header bytes hdr and ciphertext bytes ct,
   * in any interleaving of calls.
   */
  function After(E: BlockCipher, nonce: seq<byte>, hdr: seq<byte>, ct: seq<byte>): (x: Ctx)
    ensures Valid(x)
  {
    var n := OmacT(E, 0, nonce);
    Ctx(Omac.SetKey(E), CtrAt(E, n, |ct|), n,
        Omac.StateOf(E, Omac.Tweak(1) + hdr), Omac.StateOf(E, Omac.Tweak(2) + ct))
  }

  lemma {:induction false} NonceState(E: BlockCipher, nonce: seq<byte>)
    ensures Nonce(Omac.SetKey(E), nonce) == After(E, nonce, [], [])
  {
    hide Omac.StateOf, Omac.Tag, Omac.Cmac, Omac.Init, Omac.SetKey;
    Omac.TagIsCmac(E, 0, nonce);
    Omac.InitState(E, 1);
    Omac.InitState(E, 2);
    assert Omac.Tweak(1) + [] == Omac.Tweak(1);
    assert Omac.Tweak(2) + [] == Omac.Tweak(2);
    ModSmallZero();
  }

  lemma {:induction false} ModSmallZero()
    ensures 0 / 16 == 0 && 0 % 16 == 0
  {}

  lemma {:induction false} HeaderState(E: BlockCipher, nonce: seq<byte>, hdr: seq<byte>, ct: seq<byte>, d: seq<byte>)
    ensures Header(After(E, nonce, hdr, ct), d) == After(E, nonce, hdr + d, ct)
  {
    hide Omac.StateOf, Omac.Update, Omac.Cmac, Omac.SetKey, CtrAt;
    Omac.UpdateState(E, Omac.Tweak(1) + hdr, d);
    assert Omac.Tweak(1) + hdr + d == Omac.Tweak(1) + (hdr + d);
  }

  /** eax_serpent_encrypt continues the keystream and the OMAC^2 of the ciphertext. */
  lemma {:induction false} EncryptState(E: BlockCipher, nonce: seq<byte>, hdr: seq<byte>, ct: seq<byte>, pt: seq<byte>)
    ensures Encrypt(After(E, nonce, hdr, ct), pt)
         == var c := Xor(pt, Ctr.Keystream(E, OmacT(E, 0, nonce), |ct|, |pt|));
            Step(After(E, nonce, hdr, ct + c), c)
  {
    hide Omac.StateOf, Omac.Update, Omac.Cmac, Omac.SetKey, CtrAt, SerpentCtr, Xor, Ctr.Keystream, OmacT;
    var n := OmacT(E, 0, nonce);
    var c := Xor(pt, Ctr.Keystream(E, n, |ct|, |pt|));
    SerpentCtrMatches(E, n, |ct|, pt);
    Omac.UpdateState(E, Omac.Tweak(2) + ct, c);
    assert Omac.Tweak(2) + ct + c == Omac.Tweak(2) + (ct + c);
  }

  /** eax_serpent_decrypt authenticates the ciphertext and XORs it with the same keystream. */
  lemma {:induction false} DecryptState(E: BlockCipher, nonce: seq<byte>, hdr: seq<byte>, ct: seq<byte>, c: seq<byte>)
    ensures Decrypt(After(E, nonce, hdr, ct), c)
         == Step(After(E, nonce, hdr, ct + c), Xor(c, Ctr.Keystream(E, OmacT(E, 0, nonce), |ct|, |c|)))
  {
    hide Omac.StateOf, Omac.Update, Omac.Cmac, Omac.SetKey, CtrAt, SerpentCtr, Xor, Ctr.Keystream, OmacT;
    var n := OmacT(E, 0, nonce);
    SerpentCtrMatches(E, n, |ct|, c);
    Omac.UpdateState(E, Omac.Tweak(2) + ct, c);
    assert Omac.Tweak(2) + ct + c == Omac.Tweak(2) + (ct + c);
  }

  lemma {:induction false} TagState(E: BlockCipher, nonce: seq<byte>, hdr: seq<byte>, ct: seq<byte>)
    ensures Tag(After(E, nonce, hdr, ct)) == TagOf(E, nonce, hdr, ct)
  {
    hide Omac.StateOf, Omac.Finalize, Omac.Cmac, Omac.SetKey, CtrAt, Xor;
    Omac.FinalizeState(E, Omac.Tweak(1) + hdr);
    Omac.FinalizeState(E, Omac.Tweak(2) + ct);
  }

  /** Nonce, header and one encryption call give the ciphertext and tag of EAX. */
  lemma {:induction false} EncryptIsEax(E: BlockCipher, nonce: seq<byte>, hdr: seq<byte>, pt: seq<byte>)
    ensures Encrypt(Header(Nonce(Omac.SetKey(E), nonce), hdr), pt).data == CipherText(E, nonce, pt)
    ensures Tag(Encrypt(Header(Nonce(Omac.SetKey(E), nonce), hdr), pt).ctx)
         == TagOf(E, nonce, hdr, CipherText(E, nonce, pt))
  {
    hide Encrypt, Header, Nonce, After, Tag, TagOf, Xor, Ctr.Keystream, OmacT, Omac.SetKey;
    NonceState(E, nonce);
    HeaderState(E, nonce, [], [], hdr);
    assert [] + hdr == hdr;
    EncryptState(E, nonce, hdr, [], pt);
    var c := CipherText(E, nonce, pt);
    assert [] + c == c;
    TagState(E, nonce, hdr, c);
  }

  /** Decrypting the ciphertext restores the plaintext and computes the same tag. */
  lemma {:induction false} DecryptInverts(E: BlockCipher, nonce: seq<byte>, hdr: seq<byte>, pt: seq<byte>)
    ensures var x := Header(Nonce(Omac.SetKey(E), nonce), hdr);
            var e := Encrypt(x, pt);
            var d := Decrypt(x, e.data);
            d.data == pt && Tag(d.ctx) == Tag(e.ctx)
  {
    hide Encrypt, Decrypt, Header, Nonce, After, Tag, Xor, Ctr.Keystream, OmacT, Omac.SetKey;
    NonceState(E, nonce);
    HeaderState(E, nonce, [], [], hdr);
    assert [] + hdr == hdr;
    EncryptState(E, nonce, hdr, [], pt);
    var n := OmacT(E, 0, nonce);
    var k := Ctr.Keystream(E, n, 0, |pt|);
    var c := Xor(pt, k);
    DecryptState(E, nonce, hdr, [], c);
    XorTwice(pt, k);
  }

  /** Splitting the plaintext over two encryption calls changes neither ciphertext nor tag. */
  lemma {:induction false} EncryptSplit(E: BlockCipher, nonce: seq<byte>, hdr: seq<byte>, ct: seq<byte>, a: seq<byte>, b: seq<byte>)
    ensures var x := After(E, nonce, hdr, ct);
            var e1 := Encrypt(x, a);
            var e2 := Encrypt(e1.ctx, b);
            var e := Encrypt(x, a + b);
            e1.data + e2.data == e.data && e2.ctx == e.ctx
  {
    hide Encrypt, After, Xor, Ctr.Keystream, OmacT;
    var n := OmacT(E, 0, nonce);
    var ka := Ctr.Keystream(E, n, |ct|, |a|);
    var kb := Ctr.Keystream(E, n, |ct| + |a|, |b|);
    var ca := Xor(a, ka);
    var cb := Xor(b, kb);
    EncryptState(E, nonce, hdr, ct, a);
    EncryptState(E, nonce, hdr, ct + ca, b);
    EncryptState(E, nonce, hdr, ct, a + b);
    Ctr.KeystreamSplit(E, n, |ct|, |a|, |b|);
    XorAppend(a, b, ka, kb);
    assert ct + ca + cb == ct + (ca + cb);
  }
}
