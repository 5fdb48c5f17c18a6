/**
 * The chunked file format shared by sfet.c (version 8) and venom.c
 * (version 7). After the header comes its MAC, then the input in chunks of
 * chunklen bytes, each encrypted and followed by its 16-byte MAC; the first
 * chunk shorter than chunklen, possibly empty, ends the file.
 *
 * A 64-byte key is derived from the password, the nonce and the iteration
 * count; its first half keys Serpent in CTR mode, one keystream running
 * over all chunks, and its second half keys the MAC. The header MAC uses
 * the nonce n0 of the header, chunk k (from 0) the nonce n0 + k + 1, the
 * nonce being advanced as a 128-bit big-endian counter.
 *
 * The key derivation (pbkdf2_hmac_sha512) and the MAC routine
 * (poly1305_serpent_authdata) are not part of this model; they are the
 * parameters of a Suite.
 */
module Chunked {
  import opened Bytes
  import Serpent
  import Ctr
  import CtIsEq
  import opened FileHeader
  import Arith
  import opened Wrappers

  /** The 64-byte key that the key derivation writes. */
  type Key64 = s: seq<byte> | |s| == 64 witness seq(64, _ => 0)

  /** Key derivation from (password, nonce, iterations), and the MAC of data under a key and a nonce. */
  datatype Suite = Suite(kdf: (seq<byte>, Block, nat) -> Key64, mac: (seq<byte>, seq<byte>, Block) -> Block)

  /** What one file's key gives: the CTR block cipher and the MAC key. */
  datatype Keys = Keys(E: BlockCipher, auth: seq<byte>)

  /** ctr_serpent_init with key[0..32], poly1305_serpent_setkey with key[32..64]. */
  function KeysOf(key: Key64): (k: Keys)
    ensures k.auth == key[32..]
  {
    Keys(Serpent.Cipher(Ctr.Init(key[..32])), key[32..])
  }

  /** The CTR cipher of a file key is Serpent under the schedule of the key's first half. */
  lemma {:induction false} KeysOfCipher(key: Key64)
    ensures exists ks :: Serpent.ScheduleOf(key[..32], ks) && forall b :: KeysOf(key).E(b) == Serpent.SpecEncrypt(ks, b)
  {
    var ks := Ctr.Init(key[..32]);
    Serpent.CipherIsSpec(ks);
    assert forall b :: KeysOf(key).E(b) == Serpent.SpecEncrypt(ks, b);
  }

  /** ctr_serpent_nonce: the counter starts from the nonce; the encrypted-counter bytes are not used at offset 0. */
  function Start(nonce: Block): (s: Ctr.State)
    ensures Ctr.Valid(s)
  {
    Ctr.Nonce(Ctr.State(nonce, nonce, 0), nonce)
  }

  /**
   * The encryption loop from some chunk on: read up to chunklen bytes,
   * encrypt them, MAC the ciphertext under the current nonce, advance the
   * nonce; go on while the chunk was full.
   */
  function Seal(mac: (seq<byte>, seq<byte>, Block) -> Block, k: Keys, s: Ctr.State, nonce: Block, p: seq<byte>, L: nat): (c: seq<byte>)
    requires Ctr.Valid(s) && L > 0
    decreases |p|
  {
    var n := if |p| < L then |p| else L;
    var o := Ctr.Crypt(k.E, s, p[..n]);
    var t := mac(k.auth, o.data, nonce);
    o.data + t + (if n == L then Seal(mac, k, o.state, Increment(nonce), p[n..], L) else [])
  }

  /** encrypt: the header, its MAC under n0, then the chunks from nonce n0 + 1 on. */
  function Encrypt(f: Format, suite: Suite, passwd: seq<byte>, nonce: Block, iter: nat, L: nat, p: seq<byte>): (c: seq<byte>)
    requires ValidFormat(f) && 0 < L < U64 && iter < U64
  {
    var hdr := Encode(f, Header(iter, nonce, L));
    var k := KeysOf(suite.kdf(passwd, nonce, iter));
    hdr + suite.mac(k.auth, hdr, nonce) + Seal(suite.mac, k, Start(nonce), Increment(nonce), p, L)
  }

  /** Why decryption stops. */
  datatype Error =
    | HeaderTooShort   // fewer bytes than a header
    | BadHeader(why: Refusal)
    | HeaderMacMissing // fewer than 16 bytes after the header
    | HeaderMacWrong   // corrupt header or wrong password
    | Incomplete       // a chunk read returned fewer than 16 bytes
    | ChunkMacWrong    // the file was modified

  /** The plaintext written before decryption stopped, and the error it stopped on, if any. */
  datatype Outcome = Outcome(out: seq<byte>, err: Option<Error>)

  /**
   * The decryption loop from some chunk on. Each read asks for
   * chunklen + 16 bytes, a sum the source computes in uint64_t; fewer than
   * 16 is an error; the last 16 bytes read are the MAC, compared with ctiseq
   * before the chunk is decrypted and written; a chunk shorter than
   * chunklen ends the loop.
   */
  function Open(mac: (seq<byte>, seq<byte>, Block) -> Block, k: Keys, s: Ctr.State, nonce: Block, f: seq<byte>, L: nat): (r: Outcome)
    requires Ctr.Valid(s)
    decreases |f|
  {
    var want := (L + 16) % U64;
    var n := if |f| < want then |f| else want;
    if n < 16 then Outcome([], Some(Incomplete))
    else
      var d := n - 16;
      if CtIsEq.Eq(f[d..n], mac(k.auth, f[..d], nonce), 16) == 0 then Outcome([], Some(ChunkMacWrong))
      else
        var o := Ctr.Crypt(k.E, s, f[..d]);
        if d == L then
          var r := Open(mac, k, o.state, Increment(nonce), f[n..], L);
          Outcome(o.data + r.out, r.err)
        else
          Outcome(o.data, None)
  }

  /** decrypt: read and check the header, check its MAC, then the chunks. */
  function Decrypt(f: Format, suite: Suite, passwd: seq<byte>, file: seq<byte>): (r: Outcome)
  {
    var hl := Size(f);
    if |file| < hl then Outcome([], Some(HeaderTooShort))
    else match Decode(f, file[..hl])
      case Refused(why) => Outcome([], Some(BadHeader(why)))
      case Decoded(h) =>
        var k := KeysOf(suite.kdf(passwd, h.nonce, h.iter));
        if |file| < hl + 16 then Outcome([], Some(HeaderMacMissing))
        else if CtIsEq.Eq(file[hl..hl + 16], suite.mac(k.auth, file[..hl], h.nonce), 16) == 0 then
          Outcome([], Some(HeaderMacWrong))
        else
          Open(suite.mac, k, Start(h.nonce), Increment(h.nonce), file[hl + 16..], h.chunklen)
  }

  /** A full chunk: it is encrypted and MACed, and the loop goes on with the rest. */
  lemma {:induction false} SealFull(mac: (seq<byte>, seq<byte>, Block) -> Block, k: Keys, s: Ctr.State, nonce: Block, p: seq<byte>, L: nat)
    requires Ctr.Valid(s) && 0 < L <= |p|
    ensures var o := Ctr.Crypt(k.E, s, p[..L]);
      Seal(mac, k, s, nonce, p, L) == o.data + mac(k.auth, o.data, nonce) + Seal(mac, k, o.state, Increment(nonce), p[L..], L)
  {
    hide Ctr.Crypt;
  }

  /** A short chunk, possibly empty, is the last one. */
  lemma {:induction false} SealLast(mac: (seq<byte>, seq<byte>, Block) -> Block, k: Keys, s: Ctr.State, nonce: Block, p: seq<byte>, L: nat)
    requires Ctr.Valid(s) && |p| < L
    ensures var o := Ctr.Crypt(k.E, s, p);
      Seal(mac, k, s, nonce, p, L) == o.data + mac(k.auth, o.data, nonce)
  {
    hide Ctr.Crypt;
    assert p[..|p|] == p;
  }

  /** The decryptor's view of one full chunk whose MAC matches. */
  lemma {:induction false} OpenFull(mac: (seq<byte>, seq<byte>, Block) -> Block, k: Keys, s: Ctr.State, nonce: Block, f: seq<byte>, L: nat)
    requires Ctr.Valid(s) && L + 16 < U64 && |f| >= L + 16
    requires f[L..L + 16] == mac(k.auth, f[..L], nonce)
    ensures var o := Ctr.Crypt(k.E, s, f[..L]);
      var r := Open(mac, k, o.state, Increment(nonce), f[L + 16..], L);
      Open(mac, k, s, nonce, f, L) == Outcome(o.data + r.out, r.err)
  {
    hide Ctr.Crypt, CtIsEq.Eq;
    assert (L + 16) % U64 == L + 16;
    assert f[L..L + 16][..16] == f[L..L + 16];
  }

  /** The decryptor's view of a last, short chunk whose MAC matches. */
  lemma {:induction false} OpenLast(mac: (seq<byte>, seq<byte>, Block) -> Block, k: Keys, s: Ctr.State, nonce: Block, f: seq<byte>, L: nat)
    requires Ctr.Valid(s) && L + 16 < U64 && 16 <= |f| < L + 16
    requires f[|f| - 16..] == mac(k.auth, f[..|f| - 16], nonce)
    ensures Open(mac, k, s, nonce, f, L) == Outcome(Ctr.Crypt(k.E, s, f[..|f| - 16]).data, None)
  {
    hide Ctr.Crypt, CtIsEq.Eq;
    assert (L + 16) % U64 == L + 16;
    assert f[|f| - 16..|f|] == f[|f| - 16..];
    assert f[|f| - 16..][..16] == f[|f| - 16..];
  }

  /** Decrypting the chunks that were sealed from the same CTR state and nonce gives the plaintext back. */
  lemma {:induction false} OpenSeal(mac: (seq<byte>, seq<byte>, Block) -> Block, k: Keys, c0: Block, pos: nat, s: Ctr.State, nonce: Block, p: seq<byte>, L: nat)
    requires Ctr.Valid(s) && Ctr.At(k.E, c0, s, pos) && 0 < L && L + 16 < U64
    ensures Open(mac, k, s, nonce, Seal(mac, k, s, nonce, p, L), L) == Outcome(p, None)
    decreases |p|
  {
    hide Ctr.Crypt, Ctr.At, Seal, Open;
    if |p| >= L {
      var o := Ctr.Crypt(k.E, s, p[..L]);
      var rest := Seal(mac, k, o.state, Increment(nonce), p[L..], L);
      var f := o.data + mac(k.auth, o.data, nonce) + rest;
      SealFull(mac, k, s, nonce, p, L);
      assert f[..L] == o.data && f[L..L + 16] == mac(k.auth, o.data, nonce) && f[L + 16..] == rest;
      OpenFull(mac, k, s, nonce, f, L);
      Ctr.CryptTwice(k.E, c0, s, pos, p[..L]);
      Ctr.CryptSameState(k.E, s, o.data, p[..L]);
      Ctr.CryptMatches(k.E, c0, s, pos, p[..L]);
      OpenSeal(mac, k, c0, pos + L, o.state, Increment(nonce), p[L..], L);
      assert p[..L] + p[L..] == p;
    } else {
      var o := Ctr.Crypt(k.E, s, p);
      var f := o.data + mac(k.auth, o.data, nonce);
      SealLast(mac, k, s, nonce, p, L);
      assert f[..|f| - 16] == o.data && f[|f| - 16..] == mac(k.auth, o.data, nonce);
      OpenLast(mac, k, s, nonce, f, L);
      Ctr.CryptTwice(k.E, c0, s, pos, p);
    }
  }

  /** A chunk read never wraps on an accepted step: with chunklen + 16 >= 2^64 the read is shorter than a MAC. */
  lemma {:induction false} OpenNoWrap(mac: (seq<byte>, seq<byte>, Block) -> Block, k: Keys, s: Ctr.State, nonce: Block, f: seq<byte>, L: nat)
    requires Ctr.Valid(s) && L < U64
    requires Open(mac, k, s, nonce, f, L).err == None
    ensures L + 16 < U64
  {
    hide Ctr.Crypt, CtIsEq.Eq;
    if L + 16 >= U64 {
      Arith.ModUnique(L + 16, 1, L + 16 - U64, U64);
    }
  }

  /** An accepted full chunk: its MAC matched and the loop went on. */
  lemma {:induction false} OpenAcceptedFull(mac: (seq<byte>, seq<byte>, Block) -> Block, k: Keys, s: Ctr.State, nonce: Block, f: seq<byte>, L: nat)
    requires Ctr.Valid(s) && L + 16 < U64 && |f| >= L + 16
    requires Open(mac, k, s, nonce, f, L).err == None
    ensures f[L..L + 16] == mac(k.auth, f[..L], nonce)
    ensures var o := Ctr.Crypt(k.E, s, f[..L]);
      var r := Open(mac, k, o.state, Increment(nonce), f[L + 16..], L);
      Open(mac, k, s, nonce, f, L) == Outcome(o.data + r.out, r.err)
  {
    hide Ctr.Crypt;
    Arith.ModSmall(L + 16, U64);
    assert f[L..L + 16][..16] == f[L..L + 16];
  }

  /** An accepted short chunk: its MAC matched and it was the last. */
  lemma {:induction false} OpenAcceptedLast(mac: (seq<byte>, seq<byte>, Block) -> Block, k: Keys, s: Ctr.State, nonce: Block, f: seq<byte>, L: nat)
    requires Ctr.Valid(s) && L + 16 < U64 && |f| < L + 16
    requires Open(mac, k, s, nonce, f, L).err == None
    ensures 16 <= |f| < L + 16 && f[|f| - 16..] == mac(k.auth, f[..|f| - 16], nonce)
    ensures Open(mac, k, s, nonce, f, L) == Outcome(Ctr.Crypt(k.E, s, f[..|f| - 16]).data, None)
  {
    hide Ctr.Crypt;
    Arith.ModSmall(L + 16, U64);
    assert f[|f| - 16..|f|] == f[|f| - 16..];
    assert f[|f| - 16..][..16] == f[|f| - 16..];
  }

  /** Re-sealing a full chunk that was opened, followed by what re-sealing the rest gives. */
  lemma {:induction false} SealJoin(mac: (seq<byte>, seq<byte>, Block) -> Block, k: Keys, s: Ctr.State, nonce: Block, f: seq<byte>, L: nat, rest: seq<byte>, p: seq<byte>)
    requires Ctr.Valid(s) && 0 < L && |f| >= L + 16
    requires f[L..L + 16] == mac(k.auth, f[..L], nonce)
    requires var o := Ctr.Crypt(k.E, s, f[..L]);
      Ctr.Crypt(k.E, s, o.data).data == f[..L] && Ctr.Crypt(k.E, s, o.data).state == o.state
      && Seal(mac, k, o.state, Increment(nonce), rest, L) == f[L + 16..]
    requires p == Ctr.Crypt(k.E, s, f[..L]).data + rest
    ensures Seal(mac, k, s, nonce, p, L) == f
  {
    hide Ctr.Crypt, Seal;
    var o := Ctr.Crypt(k.E, s, f[..L]);
    assert p[..L] == o.data && p[L..] == rest;
    SealFull(mac, k, s, nonce, p, L);
    assert f == f[..L] + f[L..L + 16] + f[L + 16..];
  }

  /** Re-sealing a last, short chunk that was opened. */
  lemma {:induction false} SealJoinLast(mac: (seq<byte>, seq<byte>, Block) -> Block, k: Keys, s: Ctr.State, nonce: Block, f: seq<byte>, L: nat)
    requires Ctr.Valid(s) && 16 <= |f| < L + 16
    requires f[|f| - 16..] == mac(k.auth, f[..|f| - 16], nonce)
    requires Ctr.Crypt(k.E, s, Ctr.Crypt(k.E, s, f[..|f| - 16]).data).data == f[..|f| - 16]
    ensures Seal(mac, k, s, nonce, Ctr.Crypt(k.E, s, f[..|f| - 16]).data, L) == f
  {
    hide Ctr.Crypt, Seal;
    SealLast(mac, k, s, nonce, Ctr.Crypt(k.E, s, f[..|f| - 16]).data, L);
    assert f == f[..|f| - 16] + f[|f| - 16..];
  }

  /** One accepted full chunk, given that the rest of the file re-seals to itself. */
  lemma {:induction false} SealOpenFull(mac: (seq<byte>, seq<byte>, Block) -> Block, k: Keys, c0: Block, pos: nat, s: Ctr.State, nonce: Block, f: seq<byte>, L: nat)
    requires Ctr.Valid(s) && Ctr.At(k.E, c0, s, pos) && 0 < L && L + 16 < U64 && |f| >= L + 16
    requires Open(mac, k, s, nonce, f, L).err == None
    requires var o := Ctr.Crypt(k.E, s, f[..L]);
      Seal(mac, k, o.state, Increment(nonce), Open(mac, k, o.state, Increment(nonce), f[L + 16..], L).out, L) == f[L + 16..]
    ensures Seal(mac, k, s, nonce, Open(mac, k, s, nonce, f, L).out, L) == f
  {
    hide Ctr.Crypt, Ctr.At, Seal, Open;
    OpenAcceptedFull(mac, k, s, nonce, f, L);
    var o := Ctr.Crypt(k.E, s, f[..L]);
    var r := Open(mac, k, o.state, Increment(nonce), f[L + 16..], L);
    Ctr.CryptTwice(k.E, c0, s, pos, f[..L]);
    Ctr.CryptSameState(k.E, s, o.data, f[..L]);
    SealJoin(mac, k, s, nonce, f, L, r.out, Open(mac, k, s, nonce, f, L).out);
  }

  /** An accepted last chunk re-seals to itself. */
  lemma {:induction false} SealOpenLast(mac: (seq<byte>, seq<byte>, Block) -> Block, k: Keys, c0: Block, pos: nat, s: Ctr.State, nonce: Block, f: seq<byte>, L: nat)
    requires Ctr.Valid(s) && Ctr.At(k.E, c0, s, pos) && L + 16 < U64 && |f| < L + 16
    requires Open(mac, k, s, nonce, f, L).err == None
    ensures 0 < L
    ensures Seal(mac, k, s, nonce, Open(mac, k, s, nonce, f, L).out, L) == f
  {
    hide Ctr.Crypt, Ctr.At, Seal, Open;
    OpenAcceptedLast(mac, k, s, nonce, f, L);
    Ctr.CryptTwice(k.E, c0, s, pos, f[..|f| - 16]);
    SealJoinLast(mac, k, s, nonce, f, L);
  }

  /** The rest of an accepted file after a full chunk is itself accepted, from the next state and nonce. */
  lemma {:induction false} OpenRest(mac: (seq<byte>, seq<byte>, Block) -> Block, k: Keys, c0: Block, pos: nat, s: Ctr.State, nonce: Block, f: seq<byte>, L: nat)
    requires Ctr.Valid(s) && Ctr.At(k.E, c0, s, pos) && L + 16 < U64 && |f| >= L + 16
    requires Open(mac, k, s, nonce, f, L).err == None
    ensures var o := Ctr.Crypt(k.E, s, f[..L]);
      Ctr.At(k.E, c0, o.state, pos + L) && Open(mac, k, o.state, Increment(nonce), f[L + 16..], L).err == None
  {
    hide Ctr.Crypt, Ctr.At, Open;
    OpenAcceptedFull(mac, k, s, nonce, f, L);
    Ctr.CryptMatches(k.E, c0, s, pos, f[..L]);
  }

  /**
   * Whatever the decryption loop accepts is exactly what the encryption
   * loop writes for the plaintext it outputs: every chunk's MAC matched,
   * the chunk lengths are those of the encryptor, and nothing follows the
   * last chunk. Acceptance also implies a chunk length above 0 for which
   * chunklen + 16 does not wrap.
   */
  lemma {:induction false} SealOpen(mac: (seq<byte>, seq<byte>, Block) -> Block, k: Keys, c0: Block, pos: nat, s: Ctr.State, nonce: Block, f: seq<byte>, L: nat)
    requires Ctr.Valid(s) && Ctr.At(k.E, c0, s, pos) && L < U64
    requires Open(mac, k, s, nonce, f, L).err == None
    ensures 0 < L && L + 16 < U64
    ensures Seal(mac, k, s, nonce, Open(mac, k, s, nonce, f, L).out, L) == f
    decreases |f|
  {
    hide Ctr.Crypt, Ctr.At, Seal, Open;
    OpenNoWrap(mac, k, s, nonce, f, L);
    if |f| >= L + 16 {
      var s' := Ctr.Crypt(k.E, s, f[..L]).state;
      var g := f[L + 16..];
      OpenRest(mac, k, c0, pos, s, nonce, f, L);
      SealOpen(mac, k, c0, pos + L, s', Increment(nonce), g, L);
      SealOpenFull(mac, k, c0, pos, s, nonce, f, L);
    } else {
      SealOpenLast(mac, k, c0, pos, s, nonce, f, L);
    }
  }

  lemma {:induction false} StartIs(nonce: Block)
    ensures Start(nonce) == Ctr.Nonce(Ctr.State(nonce, nonce, 0), nonce)
  {
  }

  /** Decrypting what encrypt wrote gives back the whole input, without error. */
  lemma {:induction false} DecryptEncrypt(f: Format, suite: Suite, passwd: seq<byte>, nonce: Block, iter: nat, L: nat, p: seq<byte>)
    requires ValidFormat(f) && 0 < L && L + 16 < U64 && iter < U64
    ensures Decrypt(f, suite, passwd, Encrypt(f, suite, passwd, nonce, iter, L, p)) == Outcome(p, None)
  {
    hide Seal, Open, Encode, Decode, Ctr.At, Ctr.Nonce, Start;
    var h := Header(iter, nonce, L);
    var hdr := Encode(f, h);
    var k := KeysOf(suite.kdf(passwd, nonce, iter));
    var tag := suite.mac(k.auth, hdr, nonce);
    var body := Seal(suite.mac, k, Start(nonce), Increment(nonce), p, L);
    var file := hdr + tag + body;
    assert file == Encrypt(f, suite, passwd, nonce, iter, L, p);
    var hl := Size(f);
    assert file[..hl] == hdr && file[hl..hl + 16] == tag && file[hl + 16..] == body;
    DecodeEncode(f, h);
    StartIs(nonce);
    Ctr.NonceStarts(k.E, Ctr.State(nonce, nonce, 0), nonce);
    OpenSeal(suite.mac, k, Ctr.Counter0(nonce), 0, Start(nonce), Increment(nonce), p, L);
  }

  /** A file that decrypts without error is what encrypt writes for the header's fields and the plaintext recovered. */
  lemma {:induction false} EncryptDecrypt(f: Format, suite: Suite, passwd: seq<byte>, file: seq<byte>)
    requires ValidFormat(f)
    requires Decrypt(f, suite, passwd, file).err == None
    ensures |file| >= Size(f) && Decode(f, file[..Size(f)]).Decoded?
    ensures var h := Decode(f, file[..Size(f)]).h;
      && 0 < h.chunklen && h.chunklen + 16 < U64
      && file == Encrypt(f, suite, passwd, h.nonce, h.iter, h.chunklen, Decrypt(f, suite, passwd, file).out)
  {
    hide Seal, Open, Encode, Decode, Ctr.At, Ctr.Nonce, Start;
    var hl := Size(f);
    var h := Decode(f, file[..hl]).h;
    var k := KeysOf(suite.kdf(passwd, h.nonce, h.iter));
    var nonce := h.nonce;
    var rest := file[hl + 16..];
    StartIs(nonce);
    Ctr.NonceStarts(k.E, Ctr.State(nonce, nonce, 0), nonce);
    assert Open(suite.mac, k, Start(nonce), Increment(nonce), rest, h.chunklen) == Decrypt(f, suite, passwd, file);
    SealOpen(suite.mac, k, Ctr.Counter0(nonce), 0, Start(nonce), Increment(nonce), rest, h.chunklen);
    EncodeDecode(f, file[..hl]);
    assert file[hl..hl + 16] == suite.mac(k.auth, file[..hl], nonce);
    assert file == file[..hl] + file[hl..hl + 16] + rest;
  }

  /**
   * The header MAC uses n0 and chunk k (from 0) uses n0 + k + 1, so no two
   * MACs of a file share a nonce while the file has fewer than 2^128 - 1
   * chunks.
   */
  lemma {:induction false} NoncesDistinct(n0: Block, i: nat, j: nat)
    requires i < j < Pow256(16)
    ensures CounterAt(n0, i) != CounterAt(n0, j)
  {
    hide CounterAt, BeValue, Pow256;
    CounterAtValue(n0, i);
    CounterAtValue(n0, j);
    Arith.ModDistinct(BeValue(n0) + i, BeValue(n0) + j, Pow256(16));
  }
}
