/**
 * The file header of sfet (file version 8) and venom (file version 7):
 * a magic string, the file version as a big-endian 16-bit number, the
 * PBKDF2 iteration count and the chunk length as big-endian 64-bit numbers,
 * and between them the 16-byte nonce. With the four-byte magic "SFET" it
 * is 38 bytes long, with the five-byte magic "VENOM" 39 bytes.
 */
module FileHeader {
  import opened Bytes

  const U16: nat := 0x1_0000
  const U64: nat := 0x1_0000_0000_0000_0000

  /** What distinguishes the two programs' files: the magic and the version written. */
  datatype Format = Format(magic: seq<byte>, version: nat)

  predicate ValidFormat(f: Format)
  {
    f.version < U16
  }

  /** sfet.c: magic "SFET", file version 8. */
  const Sfet: Format := Format([0x53, 0x46, 0x45, 0x54], 8)

  /** venom.c: magic "VENOM", file version 7. */
  const Venom: Format := Format([0x56, 0x45, 0x4e, 0x4f, 0x4d], 7)

  /** The header fields after the version; the two numbers are uint64_t in the source. */
  datatype Header = Header(iter: nat, nonce: Block, chunklen: nat)

  predicate ValidHeader(h: Header)
  {
    h.iter < U64 && h.chunklen < U64
  }

  /** sizeof(struct header): the structure is packed. */
  function Size(f: Format): nat
  {
    |f.magic| + 34
  }

  /** Why a header is refused. */
  datatype Refusal = NotOurFile | BadVersion

  datatype Decoded = Decoded(h: Header) | Refused(why: Refusal)

  /** The header as written: magic, be16 version, be64 iterations, nonce, be64 chunk length. */
  function Encode(f: Format, h: Header): (s: seq<byte>)
    ensures |s| == Size(f)
  {
    f.magic + BeBytes(f.version, 2) + BeBytes(h.iter, 8) + h.nonce + BeBytes(h.chunklen, 8)
  }

  /** The checks of decrypt: first the magic, then the version; the other fields are taken as they are. */
  function Decode(f: Format, s: seq<byte>): (d: Decoded)
    requires |s| == Size(f)
    ensures d == Refused(NotOurFile) <==> s[..|f.magic|] != f.magic
    ensures d == Refused(BadVersion) <==> s[..|f.magic|] == f.magic && BeValue(s[|f.magic|..|f.magic| + 2]) != f.version
    ensures d.Decoded? ==> ValidHeader(d.h) && d.h.nonce == s[|f.magic| + 10..|f.magic| + 26]
  {
    var m := |f.magic|;
    Pow256Values();
    if s[..m] != f.magic then Refused(NotOurFile)
    else if BeValue(s[m..m + 2]) != f.version then Refused(BadVersion)
    else Decoded(Header(BeValue(s[m + 2..m + 10]), s[m + 10..m + 26], BeValue(s[m + 26..])))
  }

  /** The field slices of an encoded header. */
  lemma {:induction false} EncodeFields(f: Format, h: Header)
    ensures var s := Encode(f, h); var m := |f.magic|;
      && s[..m] == f.magic && s[m..m + 2] == BeBytes(f.version, 2)
      && s[m + 2..m + 10] == BeBytes(h.iter, 8) && s[m + 10..m + 26] == h.nonce
      && s[m + 26..] == BeBytes(h.chunklen, 8)
  {
  }

  /** A header this format writes is read back as the same header. */
  lemma {:induction false} DecodeEncode(f: Format, h: Header)
    requires ValidFormat(f) && ValidHeader(h)
    ensures Decode(f, Encode(f, h)) == Decoded(h)
  {
    hide BeBytes, BeValue;
    EncodeFields(f, h);
    Pow256Values();
    BeBytesValue(f.version, 2);
    BeBytesValue(h.iter, 8);
    BeBytesValue(h.chunklen, 8);
  }

  /** A header that is accepted is exactly the encoding of what was read from it. */
  lemma {:induction false} EncodeDecode(f: Format, s: seq<byte>)
    requires |s| == Size(f) && Decode(f, s).Decoded?
    ensures Encode(f, Decode(f, s).h) == s
  {
    hide BeBytes, BeValue;
    var m := |f.magic|;
    var h := Decode(f, s).h;
    EncodeFields(f, h);
    BeValueBytes(s[m..m + 2]);
    BeValueBytes(s[m + 2..m + 10]);
    BeValueBytes(s[m + 26..]);
    var e := Encode(f, h);
    assert e[..m] == s[..m] && e[m..m + 2] == s[m..m + 2] && e[m + 2..m + 10] == s[m + 2..m + 10];
    assert e[m + 10..m + 26] == s[m + 10..m + 26] && e[m + 26..] == s[m + 26..];
    assert e == e[..m] + e[m..m + 2] + e[m + 2..m + 10] + e[m + 10..m + 26] + e[m + 26..];
    assert s == s[..m] + s[m..m + 2] + s[m + 2..m + 10] + s[m + 10..m + 26] + s[m + 26..];
  }
}
