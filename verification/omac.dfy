/**
 * OMAC1 over a 16-byte block cipher E, as omac-serpent.c computes it. OMAC1
 * is the CMAC of NIST SP 800-38B; the subkeys are B = X * E(0^128) and
 * P = X^2 * E(0^128) in GF(2^128) modulo X^128 + X^7 + X^2 + X + 1.
 *
 * A context starts from the tweak block 0^15 || t of the EAX mode (t = 0
 * for plain use), so its tag is the CMAC of that block followed by the
 * data. The context keeps the last complete block unencrypted until more
 * data arrives, and buffers an incomplete one.
 */
module Omac {
  import opened Arith
  import opened Bytes

  /** Bit b (0 = least significant) of a byte. */
  predicate Bit(x: byte, b: nat)
    requires b < 8
  {
    (x >> b) & 1 == 1
  }

  /**
   * Coefficient of X^k of a block read as a polynomial: byte 15 holds
   * X^0..X^7 (bit 0 = X^0), byte 0 holds X^120..X^127.
   */
  predicate Coeff(e: Block, k: nat)
    requires k < 128
  {
    Bit(e[15 - k / 8], k % 8)
  }

  /** The coefficients of the reduction polynomial X^128 + X^7 + X^2 + X + 1 below X^128. */
  predicate Reduction(k: nat)
  {
    k == 0 || k == 1 || k == 2 || k == 7
  }

  /**
   * xtimes: shift the block left by one bit and, if the bit shifted out was
   * set, add 0x87 to the last byte; the mask is computed without a branch.
   */
  function Times(e: Block): (r: Block)
  {
    seq(16, i requires 0 <= i < 16 => TimesByte(e, i))
  }

  /** Byte i of xtimes: its own bits moved up, the carry from byte i + 1 (or the mask) in bit 0. */
  function TimesByte(e: Block, i: nat): byte
    requires i < 16
  {
    var carry: byte := !((e[0] >> 7) - 1) & 0x87;
    (e[i] << 1) ^ (if i == 15 then carry else (e[i + 1] >> 7) & 1)
  }

  lemma {:induction false} CarryMask(x: byte)
    ensures !((x >> 7) - 1) & 0x87 == if Bit(x, 7) then 0x87 else 0
  {}

  lemma {:induction false} BitShiftXor(x: byte, c: byte, b: nat)
    requires b < 8
    ensures Bit((x << 1) ^ c, b) == ((b > 0 && Bit(x, b - 1)) != Bit(c, b))
  {
    if b == 0 {} else if b == 1 {} else if b == 2 {} else if b == 3 {}
    else if b == 4 {} else if b == 5 {} else if b == 6 {} else {}
  }

  lemma {:induction false} BitTop(x: byte, b: nat)
    requires b < 8
    ensures Bit((x >> 7) & 1, b) == (b == 0 && Bit(x, 7))
  {
    if b == 0 {} else if b == 1 {} else if b == 2 {} else if b == 3 {}
    else if b == 4 {} else if b == 5 {} else if b == 6 {} else {}
  }

  lemma {:induction false} BitCarry(b: nat)
    requires b < 8
    ensures Bit(0x87, b) == Reduction(b)
    ensures !Bit(0, b)
  {
    if b == 0 {} else if b == 1 {} else if b == 2 {} else if b == 3 {}
    else if b == 4 {} else if b == 5 {} else if b == 6 {} else {}
  }

  lemma {:induction false} DivMod8(q: nat, b: nat)
    requires b < 8
    ensures (8 * q + b) / 8 == q && (8 * q + b) % 8 == b
  {
    ModUnique(8 * q + b, q, b, 8);
  }

  /** Byte i of xtimes in terms of the carry it takes in. */
  lemma {:induction false} TimesAt(e: Block, i: nat)
    requires i < 16
    ensures Times(e)[i] == (e[i] << 1) ^ (if i == 15 then (if Bit(e[0], 7) then 0x87 else 0) else (e[i + 1] >> 7) & 1)
  {
    CarryMask(e[0]);
  }

  /** The coefficient X^127 sits in the top bit of byte 0. */
  lemma {:induction false} CoeffTop(e: Block)
    ensures Coeff(e, 127) == Bit(e[0], 7)
  {
    DivMod8(15, 7);
  }

  /** A coefficient X^k with k mod 8 > 0 comes from the same byte. */
  lemma {:induction false} TimesCoeffInner(e: Block, q: nat, b: nat)
    requires q < 16 && 0 < b < 8
    ensures Coeff(Times(e), 8 * q + b) == (Coeff(e, 8 * q + b - 1) != (Coeff(e, 127) && Reduction(8 * q + b)))
  {
    var i := 15 - q;
    DivMod8(q, b);
    DivMod8(q, b - 1);
    assert 8 * q + b - 1 == 8 * q + (b - 1);
    TimesAt(e, i);
    CoeffTop(e);
    BitCarry(b);
    if i == 15 {
      BitShiftXor(e[i], if Bit(e[0], 7) then 0x87 else 0, b);
    } else {
      BitShiftXor(e[i], (e[i + 1] >> 7) & 1, b);
      BitTop(e[i + 1], b);
    }
  }

  /** A coefficient X^(8q), q > 0, is the top bit of the next byte down. */
  lemma {:induction false} TimesCoeffCarry(e: Block, q: nat)
    requires 0 < q < 16
    ensures Coeff(Times(e), 8 * q) == Coeff(e, 8 * q - 1)
  {
    var i := 15 - q;
    DivMod8(q, 0);
    DivMod8(q - 1, 7);
    assert 8 * q - 1 == 8 * (q - 1) + 7;
    TimesAt(e, i);
    BitShiftXor(e[i], (e[i + 1] >> 7) & 1, 0);
    BitTop(e[i + 1], 0);
  }

  /** The coefficient X^0 is the bit shifted out of X^127. */
  lemma {:induction false} TimesCoeffZero(e: Block)
    ensures Coeff(Times(e), 0) == Coeff(e, 127)
  {
    DivMod8(0, 0);
    TimesAt(e, 15);
    CoeffTop(e);
    BitShiftXor(e[15], if Bit(e[0], 7) then 0x87 else 0, 0);
    BitCarry(0);
  }

  /** One coefficient of xtimes: multiplication by X followed by reduction. */
  lemma {:induction false} TimesCoeff(e: Block, k: nat)
    requires k < 128
    ensures Coeff(Times(e), k) == ((k > 0 && Coeff(e, k - 1)) != (Coeff(e, 127) && Reduction(k)))
  {
    hide Times, Coeff;
    var q := k / 8;
    var b := k % 8;
    assert k == 8 * q + b;
    if b > 0 {
      TimesCoeffInner(e, q, b);
    } else if q > 0 {
      TimesCoeffCarry(e, q);
    } else {
      TimesCoeffZero(e);
    }
  }

  /** xtimes is multiplication by X in GF(2^128) modulo X^128 + X^7 + X^2 + X + 1. */
  lemma {:induction false} TimesIsMulX(e: Block)
    ensures forall k | 0 <= k < 128 ::
      Coeff(Times(e), k) == ((k > 0 && Coeff(e, k - 1)) != (Coeff(e, 127) && Reduction(k)))
  {
    forall k | 0 <= k < 128
      ensures Coeff(Times(e), k) == ((k > 0 && Coeff(e, k - 1)) != (Coeff(e, 127) && Reduction(k)))
    {
      TimesCoeff(e, k);
    }
  }

  /** The CBC-MAC chaining value of whole blocks from the zero block: C_i = E(C_(i-1) ^ M_i). */
  function Chain(E: BlockCipher, m: seq<byte>): Block
    requires |m| % 16 == 0
    decreases |m|
  {
    if |m| == 0 then Zeros(16) else E(Xor(Chain(E, m[..|m| - 16]), m[|m| - 16..]))
  }

  /** The padding of an incomplete last block: 0x80 then zero bytes. */
  function Pad(b: seq<byte>): (p: Block)
    requires |b| < 16
    ensures p[..|b|] == b && p[|b|] == 0x80
    ensures forall i | |b| < i < 16 :: p[i] == 0
  {
    b + [0x80] + Zeros(15 - |b|)
  }

  /**
   * CMAC of a nonempty message (section 6.2 of NIST SP 800-38B) with the
   * OMAC1 subkeys: a complete last block is masked with K1 = X * L, an
   * incomplete one is padded and masked with K2 = X * K1, L = E(0^128).
   */
  function Cmac(E: BlockCipher, m: seq<byte>): Block
    requires |m| > 0
  {
    var k1 := Times(E(Zeros(16)));
    var k2 := Times(k1);
    var t := Tail(m);
    var n := |m| - |t|;
    TailFacts(m);
    if t == [] then
      E(Xor(Xor(Chain(E, m[..n - 16]), m[n - 16..]), k1))
    else
      E(Xor(Xor(Chain(E, m[..n]), Pad(t)), k2))
  }

  /** The block that starts an OMAC with tweak t. */
  function Tweak(t: byte): Block
  {
    Zeros(15) + [t]
  }

  /** omac_serpent_key_t: the cipher under the expanded key and the two subkeys. */
  datatype Key = Key(E: BlockCipher, b: Block, p: Block)

  /** omac_serpent_setkey: B = X * E(0^128) and P = X * B. */
  function SetKey(E: BlockCipher): (k: Key)
    ensures k.E == E
  {
    var b := Times(E(Zeros(16)));
    Key(E, b, Times(b))
  }

  /** omac_serpent_t: the pending tag and the bytes of an incomplete block. */
  datatype Ctx = Ctx(tag: Block, buf: seq<byte>)

  predicate Valid(c: Ctx)
  {
    |c.buf| < 16
  }

  /** omac_serpent_init: the tag holds the tweak block, the buffer is empty. */
  function Init(t: byte): (c: Ctx)
    ensures Valid(c)
  {
    Ctx(Tweak(t), [])
  }

  /** The main loop of omac_serpent_update: one round per whole block, the rest buffered. */
  function Absorb(E: BlockCipher, tag: Block, data: seq<byte>): (c: Ctx)
    ensures Valid(c)
    decreases |data|
  {
    if |data| >= 16 then Absorb(E, Xor(E(tag), data[..16]), data[16..]) else Ctx(tag, data)
  }

  /** omac_serpent_update: first top up a buffered block, then the main loop. */
  function Update(key: Key, c: Ctx, data: seq<byte>): (c': Ctx)
    requires Valid(c)
    ensures Valid(c')
  {
    if |c.buf| > 0 then
      var k := if |data| < 16 - |c.buf| then |data| else 16 - |c.buf|;
      var full := c.buf + data[..k];
      if |full| < 16 then Ctx(c.tag, full)
      else Absorb(key.E, Xor(key.E(c.tag), full), data[k..])
    else
      Absorb(key.E, c.tag, data)
  }

  /** omac_serpent_finalize: pad and mask with P after an incomplete block, mask with B otherwise. */
  function Finalize(key: Key, c: Ctx): Block
    requires Valid(c)
  {
    if |c.buf| > 0 then key.E(Xor(Xor(key.E(c.tag), Pad(c.buf)), key.p))
    else key.E(Xor(c.tag, key.b))
  }

  /**
   * The context omac_serpent_finalize leaves behind: the running tag is
   * overwritten with the last cipher input, and the buffer is kept.
   */
  function FinalizeCtx(key: Key, c: Ctx): (c': Ctx)
    requires Valid(c)
    ensures Valid(c') && c'.buf == c.buf
    ensures key.E(c'.tag) == Finalize(key, c)
  {
    Ctx(if |c.buf| > 0 then Xor(Xor(key.E(c.tag), Pad(c.buf)), key.p) else Xor(c.tag, key.b), c.buf)
  }

  /** The tag of OMAC^t(m) in one go. */
  function Tag(key: Key, t: byte, m: seq<byte>): Block
  {
    Finalize(key, Update(key, Init(t), m))
  }

  // The context after a message x (tweak block included) has gone in.

  lemma {:induction false} TailFacts(s: seq<byte>)
    ensures |Tail(s)| <= |s| && (|s| - |Tail(s)|) % 16 == 0
    ensures s == s[..|s| - |Tail(s)|] + Tail(s)
  {
    assert s == s[..|s| - |s| % 16] + s[|s| - |s| % 16..];
  }

  /** A run of whole blocks with the last one not yet encrypted. */
  function Pending(E: BlockCipher, y: seq<byte>): Block
    requires |y| >= 16 && |y| % 16 == 0
  {
    Xor(Chain(E, y[..|y| - 16]), y[|y| - 16..])
  }

  /** The context that has taken in x: whole blocks pending, the tail buffered. */
  function StateOf(E: BlockCipher, x: seq<byte>): (c: Ctx)
    requires |x| >= 16
    ensures Valid(c)
  {
    TailFacts(x);
    Ctx(Pending(E, x[..|x| - |Tail(x)|]), Tail(x))
  }

  /** A string of whole blocks followed by fewer than 16 bytes has those bytes as its tail. */
  lemma {:induction false} TailAfterWhole(y: seq<byte>, r: seq<byte>)
    requires |y| % 16 == 0 && |r| < 16
    ensures Tail(y + r) == r
  {
    ModAddMultiple(|r|, |y| / 16, 16);
    ModSmall(|r|, 16);
    assert |y + r| == |r| + 16 * (|y| / 16);
  }

  /** The state of a string of whole blocks followed by fewer than 16 bytes. */
  lemma {:induction false} StateOfWhole(E: BlockCipher, y: seq<byte>, r: seq<byte>)
    requires |y| >= 16 && |y| % 16 == 0 && |r| < 16
    ensures StateOf(E, y + r) == Ctx(Pending(E, y), r)
  {
    hide Pending;
    TailAfterWhole(y, r);
    assert (y + r)[..|y|] == y;
  }

  /** Encrypting the pending tag closes its last block: the chaining value of y. */
  lemma {:induction false} PendingNext(E: BlockCipher, y: seq<byte>, blk: seq<byte>)
    requires |y| >= 16 && |y| % 16 == 0 && |blk| == 16
    ensures Xor(E(Pending(E, y)), blk) == Pending(E, y + blk)
  {
    var y' := y + blk;
    assert y'[..|y'| - 16] == y;
    assert y'[|y'| - 16..] == blk;
  }

  lemma {:induction false} InitState(E: BlockCipher, t: byte)
    ensures Init(t) == StateOf(E, Tweak(t))
  {
    var w := Tweak(t);
    StateOfWhole(E, w, []);
    assert w + [] == w;
    assert w[..0] == [];
    assert Xor(Zeros(16), w) == w;
  }

  /** The main loop from whole blocks y takes the context to the state of y + data. */
  lemma {:induction false} AbsorbState(E: BlockCipher, y: seq<byte>, data: seq<byte>)
    requires |y| >= 16 && |y| % 16 == 0
    ensures Absorb(E, Pending(E, y), data) == StateOf(E, y + data)
    decreases |data|
  {
    hide Pending, StateOf, Xor;
    if |data| >= 16 {
      PendingNext(E, y, data[..16]);
      AbsorbState(E, y + data[..16], data[16..]);
      AppendSplit(y, data, 16);
    } else {
      StateOfWhole(E, y, data);
    }
  }

  /** Data that does not complete the buffered block is only buffered. */
  lemma {:induction false} UpdateShort(E: BlockCipher, y: seq<byte>, t: seq<byte>, data: seq<byte>)
    requires |y| >= 16 && |y| % 16 == 0 && 0 < |t| && |t| + |data| < 16
    ensures Update(SetKey(E), Ctx(Pending(E, y), t), data) == StateOf(E, y + t + data)
  {
    hide Pending, Absorb, Xor, StateOf;
    assert data[..|data|] == data;
    StateOfWhole(E, y, t + data);
    assert y + (t + data) == y + t + data;
  }

  /** Data that completes the buffered block: one round, then the main loop. */
  lemma {:induction false} UpdateTopUp(E: BlockCipher, y: seq<byte>, t: seq<byte>, data: seq<byte>)
    requires |y| >= 16 && |y| % 16 == 0 && 0 < |t| < 16 && |t| + |data| >= 16
    ensures Update(SetKey(E), Ctx(Pending(E, y), t), data) == StateOf(E, y + t + data)
  {
    hide Pending, Absorb, Xor, StateOf;
    var k := 16 - |t|;
    var full := t + data[..k];
    PendingNext(E, y, full);
    AbsorbState(E, y + full, data[k..]);
    AppendRegroup(y, t, data, k);
  }

  /** omac_serpent_update takes the state of x to the state of x + data. */
  lemma {:induction false} UpdateState(E: BlockCipher, x: seq<byte>, data: seq<byte>)
    requires |x| >= 16
    ensures Update(SetKey(E), StateOf(E, x), data) == StateOf(E, x + data)
  {
    hide Pending, Absorb, Xor, Update;
    TailFacts(x);
    var t := Tail(x);
    var y := x[..|x| - |t|];
    assert |y| >= 16;
    StateOfWhole(E, y, t);
    assert x == y + t;
    if t == [] {
      assert y == x;
      UpdateEmptyBuffer(SetKey(E), Pending(E, x), data);
      AbsorbState(E, x, data);
    } else if |t| + |data| < 16 {
      UpdateShort(E, y, t, data);
    } else {
      UpdateTopUp(E, y, t, data);
    }
  }

  lemma {:induction false} UpdateEmptyBuffer(key: Key, tag: Block, data: seq<byte>)
    ensures Update(key, Ctx(tag, []), data) == Absorb(key.E, tag, data)
  {
    hide Absorb;
  }

  /** omac_serpent_finalize on the state of x is the CMAC of x. */
  lemma {:induction false} FinalizeState(E: BlockCipher, x: seq<byte>)
    requires |x| >= 16
    ensures Finalize(SetKey(E), StateOf(E, x)) == Cmac(E, x)
  {
    TailFacts(x);
    var t := Tail(x);
    var y := x[..|x| - |t|];
    if t == [] {
      assert y == x;
    } else {
      assert E(Pending(E, y)) == Chain(E, y) by {
        assert y[..|y| - 16] + y[|y| - 16..] == y;
      }
    }
  }

  /** The tag of the source's OMAC^t(m) is the CMAC of 0^15 || t || m. */
  lemma {:induction false} TagIsCmac(E: BlockCipher, t: byte, m: seq<byte>)
    ensures Tag(SetKey(E), t, m) == Cmac(E, Tweak(t) + m)
  {
    hide StateOf, Update, Finalize, Cmac, Init;
    InitState(E, t);
    UpdateState(E, Tweak(t), m);
    FinalizeState(E, Tweak(t) + m);
  }

  /** Feeding data in two calls leaves the same context as one call. */
  lemma {:induction false} UpdateSplit(E: BlockCipher, x: seq<byte>, a: seq<byte>, b: seq<byte>)
    requires |x| >= 16
    ensures Update(SetKey(E), Update(SetKey(E), StateOf(E, x), a), b) == Update(SetKey(E), StateOf(E, x), a + b)
  {
    hide StateOf, Update;
    UpdateState(E, x, a);
    UpdateState(E, x + a, b);
    UpdateState(E, x, a + b);
    assert x + a + b == x + (a + b);
  }

  /** An empty update changes nothing. */
  lemma {:induction false} UpdateEmpty(key: Key, c: Ctx)
    requires Valid(c)
    ensures Update(key, c, []) == c
  {}

  /** Block a XOR b equals a only for the zero block b. */
  lemma {:induction false} XorFixed(a: Block, b: Block)
    requires Xor(a, b) == a
    ensures b == Zeros(16)
  {
    assert forall i | 0 <= i < 16 :: b[i] == Xor(a, b)[i] ^ a[i];
  }

  /**
   * A context must be initialised again before reuse: when the tweak block
   * and m fill whole blocks, finalizing the context a second time, with no
   * data in between, no longer gives OMAC^t(m). This holds for a cipher
   * that is a permutation and a non-zero subkey B, as B = X * E(0^128) is
   * unless E(0^128) is zero.
   */
  lemma {:induction false} ReuseAfterFinalize(E: BlockCipher, t: byte, m: seq<byte>)
    requires |m| % 16 == 0
    requires forall a, b :: E(a) == E(b) ==> a == b
    requires SetKey(E).b != Zeros(16)
    ensures Finalize(SetKey(E), FinalizeCtx(SetKey(E), Update(SetKey(E), Init(t), m))) != Tag(SetKey(E), t, m)
  {
    var key := SetKey(E);
    var x := Tweak(t) + m;
    InitState(E, t);
    UpdateState(E, Tweak(t), m);
    var c := Update(key, Init(t), m);
    assert c == StateOf(E, x);
    assert |x| % 16 == 0 by {
      ModAddMultiple(|m|, 1, 16);
    }
    StateOfWhole(E, x, []);
    assert x + [] == x;
    assert c.buf == [];
    XorTwice(c.tag, key.b);
    assert Finalize(key, FinalizeCtx(key, c)) == E(c.tag);
    assert Tag(key, t, m) == E(Xor(c.tag, key.b));
    if E(c.tag) == E(Xor(c.tag, key.b)) {
      XorFixed(c.tag, key.b);
    }
  }
}
