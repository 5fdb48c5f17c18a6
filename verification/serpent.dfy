/**
 * Serpent encryption (key schedule and the 32-round substitution-permutation
 * network), as serpent.c implements it. Decryption is not part of the
 * source. A block is four little-endian 32-bit words; the expanded key is 33
 * round keys of four words (the 132 words of the C array).
 */
module Serpent {
  import opened Bytes
  import opened SBoxes

  datatype Result<T> = Success(value: T) | Failure

  const Phi: bv32 := 0x9e37_79b9
  const MaxKeySize: nat := 32
  const Rounds: nat := 32

  /** The 33 round keys; round key g is words 4g..4g+3 of the C array. */
  type RoundKeys = s: seq<Quad> | |s| == 33 witness seq(33, _ => Quad(0, 0, 0, 0))

  /** Rotation of a 32-bit word left by r bits. */
  function Rol(x: bv32, r: bv32): bv32
    requires 0 < r < 32
  {
    (x << r) | (x >> (32 - r))
  }

  function XorQuad(x: Quad, k: Quad): Quad
  {
    Quad(x.w0 ^ k.w0, x.w1 ^ k.w1, x.w2 ^ k.w2, x.w3 ^ k.w3)
  }

  lemma {:induction false} QuadEq(y: Quad, z: Quad)
    requires y.w0 == z.w0 && y.w1 == z.w1 && y.w2 == z.w2 && y.w3 == z.w3
    ensures y == z
  {}

  /** Little-endian word from four bytes. */
  function LeWord(b: seq<byte>): bv32
    requires |b| == 4
  {
    (b[0] as bv32) | ((b[1] as bv32) << 8) | ((b[2] as bv32) << 16) | ((b[3] as bv32) << 24)
  }

  /** The four little-endian bytes of a word. */
  function WordBytes(w: bv32): (b: seq<byte>)
    ensures |b| == 4
  {
    [(w & 0xff) as byte, ((w >> 8) & 0xff) as byte, ((w >> 16) & 0xff) as byte, ((w >> 24) & 0xff) as byte]
  }

  lemma {:induction false} WordBytesRoundTrip(b: seq<byte>)
    requires |b| == 4
    ensures WordBytes(LeWord(b)) == b
  {}

  lemma {:induction false} LeWordRoundTrip(w: bv32)
    ensures LeWord(WordBytes(w)) == w
  {}

  /** A block as four little-endian words. */
  function Load(b: Block): Quad
  {
    Quad(LeWord(b[0..4]), LeWord(b[4..8]), LeWord(b[8..12]), LeWord(b[12..16]))
  }

  function Store(x: Quad): (b: Block)
  {
    WordBytes(x.w0) + WordBytes(x.w1) + WordBytes(x.w2) + WordBytes(x.w3)
  }

  /** Storing the loaded words gives back the block. */
  lemma {:induction false} StoreLoad(b: Block)
    ensures Store(Load(b)) == b
  {
    WordBytesRoundTrip(b[0..4]);
    WordBytesRoundTrip(b[4..8]);
    WordBytesRoundTrip(b[8..12]);
    WordBytesRoundTrip(b[12..16]);
    assert b == b[0..4] + b[4..8] + b[8..12] + b[12..16];
  }

  /** Loading a stored block gives back the words. */
  lemma {:induction false} LoadStore(x: Quad)
    ensures Load(Store(x)) == x
  {
    var s := Store(x);
    assert s[0..4] == WordBytes(x.w0);
    assert s[4..8] == WordBytes(x.w1);
    assert s[8..12] == WordBytes(x.w2);
    assert s[12..16] == WordBytes(x.w3);
    LeWordRoundTrip(x.w0);
    LeWordRoundTrip(x.w1);
    LeWordRoundTrip(x.w2);
    LeWordRoundTrip(x.w3);
  }

  /**
   * The key padded to 256 bits: its bytes, then a single 0x01 byte if it is
   * shorter than 32 bytes, then zeros.
   */
  function PadKey(key: seq<byte>): (k: seq<byte>)
    requires |key| <= MaxKeySize
    ensures |k| == MaxKeySize
    ensures k[..|key|] == key
    ensures |key| < MaxKeySize ==> k[|key|] == 1
    ensures forall i | |key| < i < MaxKeySize :: k[i] == 0
  {
    if |key| < MaxKeySize then key + [1] + Zeros(MaxKeySize - |key| - 1) else key
  }

  /**
   * Padding is one-to-one on keys shorter than 32 bytes: the last 0x01 byte
   * marks where the key ends.
   */
  lemma {:induction false} PadKeyInjective(a: seq<byte>, b: seq<byte>)
    requires |a| < MaxKeySize && |b| < MaxKeySize
    requires PadKey(a) == PadKey(b)
    ensures a == b
  {
    var k := PadKey(a);
    if |a| != |b| {
      assert false;
    }
    assert a == k[..|a|];
  }

  /** The eight little-endian words of the padded key. */
  function KeyWords(k: seq<byte>): (w: seq<bv32>)
    requires |k| == MaxKeySize
    ensures |w| == 8
    ensures forall j | 0 <= j < 8 :: w[j] == LeWord(k[4 * j..4 * j + 4])
  {
    seq(8, j requires 0 <= j < 8 => LeWord(k[4 * j..4 * j + 4]))
  }

  /**
   * One step of the prekey recurrence: with w holding w_{-8} .. w_{j-1} at
   * indices 0 .. j+7, the next prekey w_j.
   */
  function KeyIter(w: seq<bv32>, j: nat): bv32
    requires j + 8 <= |w| && j < 132
  {
    Recurrence(w[j], w[j + 3], w[j + 5], w[j + 7], j as bv32)
  }

  /** The keyiter macro: the new prekey from w_{i-8}, w_{i-5}, w_{i-3}, w_{i-1} and i. */
  function Recurrence(a: bv32, b: bv32, d: bv32, c: bv32, i: bv32): bv32
  {
    Rol(b ^ d ^ c ^ a ^ (Phi ^ i), 11)
  }

  lemma {:induction false} KeyIterPrefix(p: seq<bv32>, w: seq<bv32>, j: nat)
    requires j + 8 <= |p| <= |w| && j < 132 && p == w[..|p|]
    ensures KeyIter(w, j) == KeyIter(p, j)
  {
    assert w[j] == p[j] && w[j + 3] == p[j + 3] && w[j + 5] == p[j + 5] && w[j + 7] == p[j + 7];
  }

  /**
   * The key words followed by the first n prekeys.
   */
  function Prekeys(key: seq<bv32>, n: nat): (w: seq<bv32>)
    requires |key| == 8 && n <= 132
    ensures |w| == 8 + n
    ensures w[..8] == key
    ensures forall j | 0 <= j < n :: w[j + 8] == KeyIter(w, j)
  {
    if n == 0 then key
    else
      var p := Prekeys(key, n - 1);
      var w := p + [KeyIter(p, n - 1)];
      assert p == w[..|p|];
      forall j | 0 <= j < n
        ensures w[j + 8] == KeyIter(w, j)
      {
        KeyIterPrefix(p, w, j);
      }
      w
  }

  /** Prekey group g as the input of an S-box. */
  function PrekeyGroup(w: seq<bv32>, g: nat): Quad
    requires 8 + 4 * g + 4 <= |w|
  {
    Quad(w[8 + 4 * g], w[8 + 4 * g + 1], w[8 + 4 * g + 2], w[8 + 4 * g + 3])
  }

  /**
   * Round key g is prekey group g through S-box (3 - g) mod 8; 35 - g has
   * the same residue and stays non-negative.
   */
  function RoundKeysOf(w: seq<bv32>): (ks: RoundKeys)
    requires |w| == 8 + 4 * 33
    ensures forall g | 0 <= g < 33 :: ks[g] == Bitslice(TableOf(35 - g), PrekeyGroup(w, g))
  {
    seq(33, g requires 0 <= g < 33 => SBox(35 - g, PrekeyGroup(w, g)))
  }

  /**
   * The Serpent key schedule as the cipher's definition states it: the
   * padded key's eight words extended by the recurrence to 140 words, and
   * round key g the 4-bit S-box (3 - g) mod 8 applied bitwise to prekey
   * group g.
   */
  ghost predicate ScheduleOf(key: seq<byte>, ks: RoundKeys)
  {
    |key| <= MaxKeySize &&
    exists w: seq<bv32> | |w| == 140 ::
      && w[..8] == KeyWords(PadKey(key))
      && (forall j | 0 <= j < 132 :: w[j + 8] == KeyIter(w, j))
      && (forall g | 0 <= g < 33 :: ks[g] == Bitslice(TableOf(35 - g), PrekeyGroup(w, g)))
  }

  /** serpent_setkey: fails exactly for keys longer than 32 bytes, otherwise yields the schedule. */
  function SetKey(key: seq<byte>): (r: Result<RoundKeys>)
    ensures r.Failure? <==> |key| > MaxKeySize
    ensures r.Success? ==> ScheduleOf(key, r.value)
  {
    if |key| > MaxKeySize then Failure
    else
      var w := Prekeys(KeyWords(PadKey(key)), 132);
      var ks := RoundKeysOf(w);
      assert ScheduleOf(key, ks) by {
        assert |w| == 140;
      }
      Success(ks)
  }

  /** The linear transformation of the Serpent specification. */
  function LinearTransform(x: Quad): Quad
  {
    var x0 := Rol(x.w0, 13);
    var x2 := Rol(x.w2, 3);
    var x1 := x.w1 ^ x0 ^ x2;
    var x3 := x.w3 ^ x2 ^ (x0 << 3);
    var x1 := Rol(x1, 1);
    var x3 := Rol(x3, 7);
    var x0 := x0 ^ x1 ^ x3;
    var x2 := x2 ^ x3 ^ (x1 << 7);
    Quad(Rol(x0, 5), x1, Rol(x2, 22), x3)
  }

  /** The LK macro of serpent.c, statement by statement, with x4 as scratch. */
  function LK(x: Quad, k: Quad): Quad
  {
    var x0, x1, x2, x3 := x.w0, x.w1, x.w2, x.w3;
    var x0 := Rol(x0, 13);
    var x2 := Rol(x2, 3); var x1 := x1 ^ x0; var x4 := x0 << 3;
    var x3 := x3 ^ x2; var x1 := x1 ^ x2;
    var x1 := Rol(x1, 1); var x3 := x3 ^ x4;
    var x3 := Rol(x3, 7); var x4 := x1;
    var x0 := x0 ^ x1; var x4 := x4 << 7; var x2 := x2 ^ x3;
    var x0 := x0 ^ x3; var x2 := x2 ^ x4; var x3 := x3 ^ k.w3;
    var x1 := x1 ^ k.w1; var x0 := Rol(x0, 5); var x2 := Rol(x2, 22);
    var x0 := x0 ^ k.w0; var x2 := x2 ^ k.w2;
    Quad(x0, x1, x2, x3)
  }

  lemma {:induction false} LKWord0(x: Quad, k: Quad)
    ensures LK(x, k).w0 == XorQuad(LinearTransform(x), k).w0
  {}

  lemma {:induction false} LKWord1(x: Quad, k: Quad)
    ensures LK(x, k).w1 == XorQuad(LinearTransform(x), k).w1
  {}

  lemma {:induction false} LKWord2(x: Quad, k: Quad)
    ensures LK(x, k).w2 == XorQuad(LinearTransform(x), k).w2
  {}

  lemma {:induction false} LKWord3(x: Quad, k: Quad)
    ensures LK(x, k).w3 == XorQuad(LinearTransform(x), k).w3
  {}

  /** The interleaved key additions of LK amount to the linear transformation followed by the key. */
  lemma {:induction false} LKIsTransformThenKey(x: Quad, k: Quad)
    ensures LK(x, k) == XorQuad(LinearTransform(x), k)
  {
    LKWord0(x, k);
    LKWord1(x, k);
    LKWord2(x, k);
    LKWord3(x, k);
    QuadEq(LK(x, k), XorQuad(LinearTransform(x), k));
  }

  /**
   * Round i of serpent_encrypt on a block that already carries round key i:
   * S-box i mod 8, then LK with key i + 1, except that the last round adds
   * key 32 straight after its S-box.
   */
  function Round(ks: RoundKeys, x: Quad, i: nat): Quad
    requires i < Rounds
  {
    if i == Rounds - 1 then XorQuad(SBox(i, x), ks[Rounds]) else LK(SBox(i, x), ks[i + 1])
  }

  /** Rounds i .. 31 applied to x. */
  function RoundsFrom(ks: RoundKeys, x: Quad, i: nat): Quad
    requires i <= Rounds
    decreases Rounds - i
  {
    if i == Rounds then x else RoundsFrom(ks, Round(ks, x, i), i + 1)
  }

  /** serpent_encrypt: key 0, the 32 rounds, little-endian load and store. */
  function Encrypt(ks: RoundKeys, src: Block): (dst: Block)
  {
    Store(RoundsFrom(ks, XorQuad(Load(src), ks[0]), 0))
  }

  /**
   * Round i as the Serpent definition writes it: the 4-bit table applied
   * to every bit slice, the linear transformation, the next round key; the
   * last round replaces the transformation by a final key addition.
   */
  function SpecRound(ks: RoundKeys, x: Quad, i: nat): Quad
    requires i < Rounds
  {
    var s := Bitslice(TableOf(i), x);
    if i == Rounds - 1 then XorQuad(s, ks[Rounds]) else XorQuad(LinearTransform(s), ks[i + 1])
  }

  function SpecRounds(ks: RoundKeys, x: Quad, i: nat): Quad
    requires i <= Rounds
    decreases Rounds - i
  {
    if i == Rounds then x else SpecRounds(ks, SpecRound(ks, x, i), i + 1)
  }

  /** Serpent encryption of one block, by the definition. */
  function SpecEncrypt(ks: RoundKeys, src: Block): Block
  {
    Store(SpecRounds(ks, XorQuad(Load(src), ks[0]), 0))
  }

  /** One transcribed round, circuits and LK macro, computes the definition's round. */
  lemma {:induction false} RoundMatchesSpec(ks: RoundKeys, x: Quad, i: nat)
    requires i < Rounds
    ensures Round(ks, x, i) == SpecRound(ks, x, i)
  {
    if i < Rounds - 1 {
      LKIsTransformThenKey(SBox(i, x), ks[i + 1]);
    }
  }

  lemma {:induction false} RoundsMatchSpec(ks: RoundKeys, x: Quad, i: nat)
    requires i <= Rounds
    ensures RoundsFrom(ks, x, i) == SpecRounds(ks, x, i)
    decreases Rounds - i
  {
    if i < Rounds {
      RoundMatchesSpec(ks, x, i);
      RoundsMatchSpec(ks, Round(ks, x, i), i + 1);
    }
  }

  lemma {:induction false} EncryptMatchesSpec(ks: RoundKeys, src: Block)
    ensures Encrypt(ks, src) == SpecEncrypt(ks, src)
  {
    RoundsMatchSpec(ks, XorQuad(Load(src), ks[0]), 0);
  }

  /** The cipher under a key, as the modes use it. */
  function Cipher(ks: RoundKeys): BlockCipher
  {
    b => Encrypt(ks, b)
  }

  /** The cipher the modes use is Serpent encryption by the definition, on every block. */
  lemma {:induction false} CipherIsSpec(ks: RoundKeys)
    ensures forall b :: Cipher(ks)(b) == SpecEncrypt(ks, b)
  {
    hide Encrypt, SpecEncrypt;
    forall b ensures Cipher(ks)(b) == SpecEncrypt(ks, b) {
      EncryptMatchesSpec(ks, b);
    }
  }
}
