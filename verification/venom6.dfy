/**
 * The older venom format of src/venom.c (file version 6): one EAX-Serpent
 * session over the whole input. The 35-byte header is the magic "VENOM",
 * the version as a big-endian 16-bit number, the PBKDF2 iteration count as
 * a big-endian 64-bit number, the 16-byte nonce and a four-byte password
 * check; the ciphertext follows, then the 16-byte EAX tag.
 *
 * Two EAX sessions run under the key: the password check, under the
 * nonce with byte 0 advanced by one, authenticates the magic and the
 * nonce; the payload session, with byte 0 advanced once more, has no
 * header data at all. Only byte 0 of the nonce ever changes, modulo 256.
 *
 * The 32-byte key comes from pbkdf2_hmac_sha512, which is not part of this
 * model; it is the parameter kdf.
 */
module Venom6 {
  import opened Bytes
  import opened Wrappers
  import Serpent
  import Omac
  import Eax
  import Ctr
  import Cli

  const Magic: seq<byte> := [0x56, 0x45, 0x4e, 0x4f, 0x4d]
  const Version: nat := 6
  const HeaderSize: nat := 35

  /** DEF_BUFSIZE: the size of the reads in the main loops. */
  const BufSize: nat := 0x10_0000

  /** DEF_ITERATION of src/defaults.h: the iteration count without -i. */
  const DefIterations: int := 2097152

  const U64: nat := 0x1_0000_0000_0000_0000

  /** The SERPENT_MAX_KEY_SIZE bytes that pbkdf2_hmac_sha512 writes. */
  type Key32 = s: seq<byte> | |s| == 32 witness seq(32, _ => 0)

  /** Key derivation from (password buffer, nonce, iterations). */
  type Kdf = (seq<byte>, Block, nat) -> Key32

  /** nonce[0]++: byte 0 advanced modulo 256, the rest as it was. */
  function Bump(n: Block): (r: Block)
    ensures r[0] == n[0] + 1 && r[1..] == n[1..]
  {
    n[0 := n[0] + 1]
  }

  /** The header nonce, the password-check nonce and the payload nonce are three different nonces. */
  lemma {:induction false} SessionNonces(n: Block)
    ensures Bump(n) != n && Bump(Bump(n)) != Bump(n) && Bump(Bump(n)) != n
  {
    hide Bump;
    assert Bump(n)[0] != n[0];
    assert Bump(Bump(n))[0] != Bump(n)[0];
    assert Bump(Bump(n))[0] != n[0];
  }

  /** eax_serpent_init under a 32-byte key, which never fails. */
  function KeyOf(key: Key32): Omac.Key
  {
    Eax.Init(key).value
  }

  /** The key is the OMAC key of Serpent under the 32-byte key. */
  lemma {:induction false} KeyOfIs(key: Key32)
    ensures KeyOf(key) == Omac.SetKey(Serpent.Cipher(Ctr.Init(key)))
  {
    hide Omac.SetKey, Serpent.Cipher;
  }

  /** pwcheck: the first four bytes of the tag of the session that authenticates magic and nonce. */
  function PwCheck(k: Omac.Key, nonce: Block): (c: seq<byte>)
    ensures |c| == 4
  {
    Eax.Tag(Eax.Header(Eax.Header(Eax.Nonce(k, Bump(nonce)), Magic), nonce))[..4]
  }

  /** The password check is the EAX tag, cut to four bytes, of header magic || nonce and no message. */
  lemma {:induction false} PwCheckIsEax(E: BlockCipher, nonce: Block)
    ensures PwCheck(Omac.SetKey(E), nonce) == Eax.TagOf(E, Bump(nonce), Magic + nonce, [])[..4]
  {
    hide Eax.Tag, Eax.Header, Eax.Nonce, Eax.After, Eax.TagOf, Omac.SetKey, Bump;
    Eax.NonceState(E, Bump(nonce));
    Eax.HeaderState(E, Bump(nonce), [], [], Magic);
    assert [] + Magic == Magic;
    Eax.HeaderState(E, Bump(nonce), Magic, [], nonce);
    Eax.TagState(E, Bump(nonce), Magic + nonce, []);
  }

  /** The fields of the header; pwcheck is four bytes. */
  datatype Header = Header(iter: nat, nonce: Block, pwcheck: seq<byte>)

  predicate ValidHeader(h: Header)
  {
    h.iter < U64 && |h.pwcheck| == 4
  }

  /** The header as encrypt_file writes it, field by field. */
  function EncodeHeader(h: Header): (s: seq<byte>)
    requires ValidHeader(h)
    ensures |s| == HeaderSize
  {
    Magic + BeBytes(Version, 2) + BeBytes(h.iter, 8) + h.nonce + h.pwcheck
  }

  /** Why decrypt_file stops before the payload. */
  datatype Error =
    | Unreadable     // the file ends inside the header
    | NotOurFile     // the magic is not "VENOM"
    | BadVersion     // the version is not 6
    | WrongPassword  // the password check differs
    | TooShort       // fewer than 16 bytes after the header
    | Corrupted      // the EAX tag differs

  datatype Parsed = Parsed(h: Header) | Refused(why: Error)

  /**
   * The header reads of decrypt_file in order: the magic (checked at
   * once), the version (checked at once), the iteration count, the nonce
   * and the password check.
   */
  function ParseHeader(file: seq<byte>): (r: Parsed)
    ensures r.Parsed? ==> ValidHeader(r.h) && |file| >= HeaderSize
    ensures r == Refused(NotOurFile) <==> |file| >= 5 && file[..5] != Magic
    ensures r == Refused(BadVersion) <==> |file| >= 7 && file[..5] == Magic && BeValue(file[5..7]) != Version
  {
    Pow256Values();
    if |file| < 5 then Refused(Unreadable)
    else if file[..5] != Magic then Refused(NotOurFile)
    else if |file| < 7 then Refused(Unreadable)
    else if BeValue(file[5..7]) != Version then Refused(BadVersion)
    else if |file| < HeaderSize then Refused(Unreadable)
    else Parsed(Header(BeValue(file[7..15]), file[15..31], file[31..35]))
  }

  /** An encoded header, whatever follows it, is read back as itself. */
  lemma {:induction false} ParseEncode(h: Header, rest: seq<byte>)
    requires ValidHeader(h)
    ensures ParseHeader(EncodeHeader(h) + rest) == Parsed(h)
  {
    hide BeBytes, BeValue;
    var s := EncodeHeader(h) + rest;
    assert s[..5] == Magic && s[5..7] == BeBytes(Version, 2) && s[7..15] == BeBytes(h.iter, 8);
    assert s[15..31] == h.nonce && s[31..35] == h.pwcheck;
    Pow256Values();
    BeBytesValue(Version, 2);
    BeBytesValue(h.iter, 8);
  }

  /** A header that is read is the encoding of what was read. */
  lemma {:induction false} EncodeParse(file: seq<byte>)
    requires ParseHeader(file).Parsed?
    ensures file[..HeaderSize] == EncodeHeader(ParseHeader(file).h)
  {
    hide BeBytes, BeValue;
    var h := ParseHeader(file).h;
    var e := EncodeHeader(h);
    BeValueBytes(file[5..7]);
    BeValueBytes(file[7..15]);
    assert e[..5] == file[..5] && e[5..7] == file[5..7] && e[7..15] == file[7..15];
    assert e[15..31] == file[15..31] && e[31..] == file[31..35];
    assert e == e[..5] + e[5..7] + e[7..15] + e[15..31] + e[31..];
    assert file[..HeaderSize] == file[..5] + file[5..7] + file[7..15] + file[15..31] + file[31..35];
  }

  /** The main loop of encrypt_file: each read of up to B bytes goes through eax_serpent_encrypt. */
  function Seal(x: Eax.Ctx, p: seq<byte>, B: nat): (r: Eax.Step)
    requires Eax.Valid(x) && B > 0
    ensures Eax.Valid(r.ctx) && |r.data| == |p|
    decreases |p|
  {
    if |p| == 0 then Eax.Step(x, [])
    else
      var n := if |p| < B then |p| else B;
      var e := Eax.Encrypt(x, p[..n]);
      var r := Seal(e.ctx, p[n..], B);
      Eax.Step(r.ctx, e.data + r.data)
  }

  /** However the reads cut the input, the ciphertext and the final state are those of one call. */
  lemma {:induction false} SealIsOneCall(E: BlockCipher, nonce: seq<byte>, hdr: seq<byte>, ct: seq<byte>, p: seq<byte>, B: nat)
    requires B > 0
    ensures Seal(Eax.After(E, nonce, hdr, ct), p, B) == Eax.Encrypt(Eax.After(E, nonce, hdr, ct), p)
    decreases |p|
  {
    hide Eax.Encrypt, Eax.After, Seal;
    var x := Eax.After(E, nonce, hdr, ct);
    SealStep(x, p, B);
    if |p| == 0 {
      Eax.EncryptState(E, nonce, hdr, ct, p);
      assert ct + Xor(p, Ctr.Keystream(E, Eax.OmacT(E, 0, nonce), |ct|, |p|)) == ct;
    } else {
      var n := if |p| < B then |p| else B;
      var a, b := p[..n], p[n..];
      assert a + b == p;
      var e := Eax.Encrypt(x, a);
      Eax.EncryptState(E, nonce, hdr, ct, a);
      SealIsOneCall(E, nonce, hdr, ct + e.data, b, B);
      Eax.EncryptSplit(E, nonce, hdr, ct, a, b);
    }
  }

  /** One round of the encryption loop. */
  lemma {:induction false} SealStep(x: Eax.Ctx, p: seq<byte>, B: nat)
    requires Eax.Valid(x) && B > 0
    ensures |p| == 0 ==> Seal(x, p, B) == Eax.Step(x, [])
    ensures |p| > 0 ==>
      var n := if |p| < B then |p| else B;
      var e := Eax.Encrypt(x, p[..n]);
      var r := Seal(e.ctx, p[n..], B);
      Seal(x, p, B) == Eax.Step(r.ctx, e.data + r.data)
  {
    hide Eax.Encrypt;
  }

  /** encrypt_file: the header with its password check, the ciphertext, the tag. */
  function Encrypt(kdf: Kdf, passwd: seq<byte>, nonce: Block, iter: nat, p: seq<byte>): (c: seq<byte>)
    requires iter < U64
    ensures |c| == HeaderSize + |p| + 16
  {
    var k := KeyOf(kdf(passwd, nonce, iter));
    EncodeHeader(Header(iter, nonce, PwCheck(k, nonce))) + SealPayload(k, nonce, p)
  }

  /** The payload part of encrypt_file: a fresh session under the payload nonce, the ciphertext, the tag. */
  function SealPayload(k: Omac.Key, nonce: Block, p: seq<byte>): (c: seq<byte>)
    ensures |c| == |p| + 16
  {
    var e := Seal(Eax.Nonce(k, Bump(Bump(nonce))), p, BufSize);
    e.data + Eax.Tag(e.ctx)
  }

  /** What the decryption loop leaves: the state, the bytes decrypted and the 16 bytes held back. */
  datatype Held = Held(ctx: Eax.Ctx, data: seq<byte>, tag: seq<byte>)

  /**
   * The main loop of decrypt_file. The buffer holds n + 16 bytes; the
   * first n are decrypted and written, the last 16 move to the front and
   * the next read of up to B bytes goes behind them; a round with
   * n < B is the last, and the 16 bytes kept then are the tag.
   */
  function Withhold(x: Eax.Ctx, buf: seq<byte>, rest: seq<byte>, B: nat): (r: Held)
    requires Eax.Valid(x) && B > 0 && 16 <= |buf| <= B + 16
    ensures Eax.Valid(r.ctx) && |r.tag| == 16
    decreases |buf| + |rest|
  {
    var n := |buf| - 16;
    var d := Eax.Decrypt(x, buf[..n]);
    var t := buf[n..];
    if n < B then Held(d.ctx, d.data, t)
    else
      var m := if |rest| < B then |rest| else B;
      var r := Withhold(d.ctx, t + rest[..m], rest[m..], B);
      Held(r.ctx, d.data + r.data, r.tag)
  }

  /**
   * What one eax_serpent_decrypt call leaves when all of s but its last 16
   * bytes goes through it after the ciphertext ct: those 16 bytes are kept
   * back as the tag.
   */
  function Expected(E: BlockCipher, nonce: seq<byte>, hdr: seq<byte>, ct: seq<byte>, s: seq<byte>): (r: Held)
    requires |s| >= 16
    ensures |r.tag| == 16
  {
    var w := s[..|s| - 16];
    Held(Eax.After(E, nonce, hdr, ct + w), Xor(w, Ctr.Keystream(E, Eax.OmacT(E, 0, nonce), |ct|, |w|)), s[|s| - 16..])
  }

  /**
   * The loop never decrypts the last 16 bytes of the input and keeps
   * exactly those as the tag; everything before them is authenticated and
   * decrypted as one eax_serpent_decrypt call would.
   */
  lemma {:induction false} WithholdTail(E: BlockCipher, nonce: seq<byte>, hdr: seq<byte>, ct: seq<byte>, buf: seq<byte>, rest: seq<byte>, B: nat)
    requires B > 0 && 16 <= |buf| <= B + 16
    requires |buf| - 16 < B ==> rest == []
    ensures Withhold(Eax.After(E, nonce, hdr, ct), buf, rest, B) == Expected(E, nonce, hdr, ct, buf + rest)
    decreases |buf| + |rest|
  {
    hide Eax.Decrypt, Eax.After, Withhold, Expected, Xor, Ctr.Keystream, Eax.OmacT;
    var x := Eax.After(E, nonce, hdr, ct);
    var n := |buf| - 16;
    var a := buf[..n];
    WithholdStep(x, buf, rest, B);
    Eax.DecryptState(E, nonce, hdr, ct, a);
    if n < B {
      assert buf + rest == buf;
      ExpectedLast(E, nonce, hdr, ct, buf);
    } else {
      var m := if |rest| < B then |rest| else B;
      var buf' := buf[n..] + rest[..m];
      var rest' := rest[m..];
      WithholdTail(E, nonce, hdr, ct + a, buf', rest', B);
      assert buf + rest == a + (buf' + rest');
      ExpectedJoin(E, nonce, hdr, ct, a, buf' + rest');
    }
  }

  /** Input that ends within the buffer is decrypted up to its last 16 bytes in one call. */
  lemma {:induction false} ExpectedLast(E: BlockCipher, nonce: seq<byte>, hdr: seq<byte>, ct: seq<byte>, buf: seq<byte>)
    requires |buf| >= 16
    ensures var d := Eax.Decrypt(Eax.After(E, nonce, hdr, ct), buf[..|buf| - 16]);
      Expected(E, nonce, hdr, ct, buf) == Held(d.ctx, d.data, buf[|buf| - 16..])
  {
    hide Eax.Decrypt, Eax.After, Xor, Ctr.Keystream, Eax.OmacT;
    Eax.DecryptState(E, nonce, hdr, ct, buf[..|buf| - 16]);
  }

  /** Decrypting a first part, then all but the last 16 bytes of the rest, is decrypting all but the last 16 bytes. */
  lemma {:induction false} ExpectedJoin(E: BlockCipher, nonce: seq<byte>, hdr: seq<byte>, ct: seq<byte>, a: seq<byte>, s: seq<byte>)
    requires |s| >= 16
    ensures var d := Eax.Decrypt(Eax.After(E, nonce, hdr, ct), a);
      var r := Expected(E, nonce, hdr, ct + a, s);
      Held(r.ctx, d.data + r.data, r.tag) == Expected(E, nonce, hdr, ct, a + s)
  {
    hide Eax.Decrypt, Eax.After, Xor, Ctr.Keystream, Eax.OmacT;
    Eax.DecryptState(E, nonce, hdr, ct, a);
    var c0 := Eax.OmacT(E, 0, nonce);
    var w := s[..|s| - 16];
    var all := a + s;
    assert all[..|all| - 16] == a + w && all[|all| - 16..] == s[|s| - 16..];
    assert ct + a + w == ct + (a + w);
    var k := Ctr.Keystream(E, c0, |ct|, |a|);
    var k' := Ctr.Keystream(E, c0, |ct| + |a|, |w|);
    Ctr.KeystreamSplit(E, c0, |ct|, |a|, |w|);
    XorAppend(a, w, k, k');
  }

  /** One round of the decryption loop. */
  lemma {:induction false} WithholdStep(x: Eax.Ctx, buf: seq<byte>, rest: seq<byte>, B: nat)
    requires Eax.Valid(x) && B > 0 && 16 <= |buf| <= B + 16
    ensures var n := |buf| - 16;
      var d := Eax.Decrypt(x, buf[..n]);
      Withhold(x, buf, rest, B) ==
        if n < B then Held(d.ctx, d.data, buf[n..])
        else
          var m := if |rest| < B then |rest| else B;
          var r := Withhold(d.ctx, buf[n..] + rest[..m], rest[m..], B);
          Held(r.ctx, d.data + r.data, r.tag)
  {
    hide Eax.Decrypt;
  }

  /** The plaintext written before decrypt_file stopped, and the error it stopped on, if any. */
  datatype Decrypted = Decrypted(out: seq<byte>, err: Option<Error>)

  /**
   * decrypt_file: the header, the password check, then the payload; the
   * plaintext is written as it is decrypted, so a file whose tag is wrong
   * has been written out in full before the error.
   */
  function Decrypt(kdf: Kdf, passwd: seq<byte>, file: seq<byte>): (r: Decrypted)
  {
    match ParseHeader(file)
    case Refused(why) => Decrypted([], Some(why))
    case Parsed(h) =>
      var k := KeyOf(kdf(passwd, h.nonce, h.iter));
      if h.pwcheck != PwCheck(k, h.nonce) then Decrypted([], Some(WrongPassword))
      else OpenPayload(k, h.nonce, file[HeaderSize..])
  }

  /** The payload part of decrypt_file: the first read of up to BufSize + 16 bytes, the loop, the tag check. */
  function OpenPayload(k: Omac.Key, nonce: Block, body: seq<byte>): (r: Decrypted)
  {
    var n := if |body| < BufSize + 16 then |body| else BufSize + 16;
    if n < 16 then Decrypted([], Some(TooShort))
    else
      var w := Withhold(Eax.Nonce(k, Bump(Bump(nonce))), body[..n], body[n..], BufSize);
      if Eax.Tag(w.ctx) != w.tag then Decrypted(w.data, Some(Corrupted))
      else Decrypted(w.data, None)
  }

  /** The payload step of decrypt_file in EAX terms: the input before the last 16 bytes decrypted, the tag checked against those 16. */
  lemma {:induction false} PayloadIsEax(E: BlockCipher, nonce: Block, body: seq<byte>)
    requires |body| >= 16
    ensures var n := if |body| < BufSize + 16 then |body| else BufSize + 16;
      var w := Withhold(Eax.Nonce(Omac.SetKey(E), Bump(Bump(nonce))), body[..n], body[n..], BufSize);
      var c := body[..|body| - 16];
      && w.data == Xor(c, Ctr.Keystream(E, Eax.OmacT(E, 0, Bump(Bump(nonce))), 0, |c|))
      && w.tag == body[|body| - 16..]
      && Eax.Tag(w.ctx) == Eax.TagOf(E, Bump(Bump(nonce)), [], c)
  {
    hide Withhold, Eax.Nonce, Eax.After, Eax.Tag, Eax.TagOf, Xor, Ctr.Keystream, Eax.OmacT, Omac.SetKey, Bump;
    var n2 := Bump(Bump(nonce));
    var n := if |body| < BufSize + 16 then |body| else BufSize + 16;
    Eax.NonceState(E, n2);
    assert body[..n] + body[n..] == body;
    WithholdTail(E, n2, [], [], body[..n], body[n..], BufSize);
    var c := body[..|body| - 16];
    assert [] + c == c;
    Eax.TagState(E, n2, [], c);
  }

  /** The payload step of encrypt_file in EAX terms: the ciphertext and tag of EAX with no header data. */
  lemma {:induction false} SealIsEax(E: BlockCipher, nonce: Block, p: seq<byte>)
    ensures var e := Seal(Eax.Nonce(Omac.SetKey(E), Bump(Bump(nonce))), p, BufSize);
      && e.data == Eax.CipherText(E, Bump(Bump(nonce)), p)
      && Eax.Tag(e.ctx) == Eax.TagOf(E, Bump(Bump(nonce)), [], Eax.CipherText(E, Bump(Bump(nonce)), p))
  {
    hide Seal, Eax.Nonce, Eax.After, Eax.Tag, Eax.TagOf, Eax.Encrypt, Eax.Header, Eax.CipherText, Omac.SetKey, Bump;
    var n2 := Bump(Bump(nonce));
    Eax.NonceState(E, n2);
    SealIsOneCall(E, n2, [], [], p, BufSize);
    Eax.HeaderState(E, n2, [], [], []);
    var none: seq<byte> := [];
    assert none + none == none;
    Eax.EncryptIsEax(E, n2, [], p);
  }

  lemma {:induction false} CipherTextIs(E: BlockCipher, nonce: seq<byte>, m: seq<byte>)
    ensures Eax.CipherText(E, nonce, m) == Xor(m, Ctr.Keystream(E, Eax.OmacT(E, 0, nonce), 0, |m|))
  {
  }

  /** Decrypting what encrypt_file wrote gives back the input, without error. */
  lemma {:induction false} DecryptEncrypt(kdf: Kdf, passwd: seq<byte>, nonce: Block, iter: nat, p: seq<byte>)
    requires iter < U64
    ensures Decrypt(kdf, passwd, Encrypt(kdf, passwd, nonce, iter, p)) == Decrypted(p, None)
  {
    hide Seal, Withhold, Eax.Nonce, Eax.Tag, Eax.TagOf, Eax.CipherText, PwCheck, EncodeHeader, ParseHeader, KeyOf, Bump, Xor, Ctr.Keystream, Eax.OmacT, Omac.SetKey, Serpent.Cipher, Ctr.Init;
    var k := KeyOf(kdf(passwd, nonce, iter));
    var E := Serpent.Cipher(Ctr.Init(kdf(passwd, nonce, iter)));
    KeyOfIs(kdf(passwd, nonce, iter));
    var h := Header(iter, nonce, PwCheck(k, nonce));
    var n2 := Bump(Bump(nonce));
    var e := Seal(Eax.Nonce(k, n2), p, BufSize);
    var body := e.data + Eax.Tag(e.ctx);
    var file := EncodeHeader(h) + body;
    assert file == Encrypt(kdf, passwd, nonce, iter, p);
    ParseEncode(h, body);
    assert file[HeaderSize..] == body;
    SealIsEax(E, nonce, p);
    PayloadIsEax(E, nonce, body);
    var c := body[..|body| - 16];
    assert c == e.data && body[|body| - 16..] == Eax.Tag(e.ctx);
    CipherTextIs(E, n2, p);
    XorTwice(p, Ctr.Keystream(E, Eax.OmacT(E, 0, n2), 0, |p|));
  }

  /** A file that decrypts without error is what encrypt_file writes for the header's fields and the plaintext recovered. */
  lemma {:induction false} EncryptDecrypt(kdf: Kdf, passwd: seq<byte>, file: seq<byte>)
    requires Decrypt(kdf, passwd, file).err == None
    ensures ParseHeader(file).Parsed?
    ensures var h := ParseHeader(file).h;
      file == Encrypt(kdf, passwd, h.nonce, h.iter, Decrypt(kdf, passwd, file).out)
  {
    hide Seal, Withhold, Eax.Nonce, Eax.Tag, Eax.TagOf, Eax.CipherText, PwCheck, EncodeHeader, ParseHeader, KeyOf, Bump, Xor, Ctr.Keystream, Eax.OmacT, Omac.SetKey, Serpent.Cipher, Ctr.Init;
    var h := ParseHeader(file).h;
    var k := KeyOf(kdf(passwd, h.nonce, h.iter));
    var E := Serpent.Cipher(Ctr.Init(kdf(passwd, h.nonce, h.iter)));
    KeyOfIs(kdf(passwd, h.nonce, h.iter));
    var n2 := Bump(Bump(h.nonce));
    var body := file[HeaderSize..];
    var p := Decrypt(kdf, passwd, file).out;
    PayloadIsEax(E, h.nonce, body);
    var c := body[..|body| - 16];
    var ks := Ctr.Keystream(E, Eax.OmacT(E, 0, n2), 0, |c|);
    assert p == Xor(c, ks);
    SealIsEax(E, h.nonce, p);
    var e := Seal(Eax.Nonce(k, n2), p, BufSize);
    CipherTextIs(E, n2, p);
    XorTwice(c, ks);
    EncodeParse(file);
    assert file == file[..HeaderSize] + c + body[|body| - 16..];
  }

  /** atoi: strtol's value cut to a 32-bit int. */
  function Atoi(s: seq<char>): (n: int)
    ensures -0x8000_0000 <= n < 0x8000_0000
  {
    (Cli.Strtoll(s).n + 0x8000_0000) % 0x1_0000_0000 - 0x8000_0000
  }

  /** The getopt loop over the -i arguments, in order. */
  function ApplyIter(cur: int, args: seq<seq<char>>): (n: int)
    requires cur < 0x8000_0000
    ensures n < 0x8000_0000
    decreases |args|
  {
    if |args| == 0 then cur else ApplyIter(Atoi(args[0]), args[1..])
  }

  /** The last -i wins; without one the default stays. */
  lemma {:induction false} ApplyIterLast(cur: int, args: seq<seq<char>>)
    requires cur < 0x8000_0000
    ensures ApplyIter(cur, args) == if |args| == 0 then cur else Atoi(args[|args| - 1])
    decreases |args|
  {
    if |args| > 1 {
      ApplyIterLast(Atoi(args[0]), args[1..]);
    }
  }

  /** main: an iteration count below 1024 is refused. */
  function Configure(args: seq<seq<char>>): (r: Option<nat>)
    ensures r.Some? ==> 1024 <= r.value < 0x8000_0000
    ensures |args| == 0 ==> r == Some(DefIterations)
    ensures |args| > 0 ==> (r.Some? <==> Atoi(args[|args| - 1]) >= 1024)
    ensures |args| > 0 && r.Some? ==> r.value == Atoi(args[|args| - 1])
  {
    ApplyIterLast(DefIterations, args);
    var iter := ApplyIter(DefIterations, args);
    if iter < 1024 then None else Some(iter)
  }

  /** Without -i the count is 2097152. */
  lemma {:induction false} DefaultIterations()
    ensures Configure([]) == Some(2097152)
  {
  }

  /** A count of 2^32 + 1024 passes as 1024: atoi keeps the low 32 bits. */
  lemma {:induction false} AtoiWraps()
    ensures Configure([Cli.Render(0x1_0000_0400)]) == Some(1024)
  {
    hide Cli.Render, Cli.Strtoll;
    Cli.StrtollRendered(0x1_0000_0400, []);
    assert Cli.Render(0x1_0000_0400) + [] == Cli.Render(0x1_0000_0400);
  }
}
