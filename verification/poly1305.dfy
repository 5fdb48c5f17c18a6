/**
 * Poly1305 as poly1305.c computes it on 64-bit targets: an element of
 * GF(2^130 - 5) is three signed 64-bit limbs holding 44, 44 and 42 bits
 * (the lowest limb may be overfull), products are accumulated in signed
 * 128-bit integers, and the final reduction brings the state to the unique
 * residue below 2^130 - 5 before it is written out modulo 2^128.
 *
 * Limbs are unbounded integers here; the lemmas show that every value the
 * C code stores in a 64- or 128-bit variable fits it. Arithmetic right
 * shifts of signed values are floor divisions by a power of two, and a
 * mask with 2^k - 1 is the non-negative remainder modulo 2^k.
 */
module Poly1305 {
  import opened Arith
  import opened Bytes

  /** The radix of the limbs, 2^44. */
  const B: int := 0x1000_0000_0000
  /** The width of the top limb after a full reduction, 2^42. */
  const Top: int := 0x400_0000_0000
  /** The prime 2^130 - 5. */
  const P: int := 0x3_ffff_ffff_ffff_ffff_ffff_ffff_ffff_fffb
  const Two128: int := 0x1_0000_0000_0000_0000_0000_0000_0000_0000

  /** One step of the polynomial evaluation: add n to the accumulator and multiply by r modulo p. */
  function Absorb(acc: int, n: int, rv: int): (a: int)
    ensures 0 <= a < P
  {
    ((acc + n) * rv) % P
  }

  predicate InInt64(x: int)
  {
    -0x8000_0000_0000_0000 <= x < 0x8000_0000_0000_0000
  }

  predicate InInt128(x: int)
  {
    -0x8000_0000_0000_0000_0000_0000_0000_0000 <= x < 0x8000_0000_0000_0000_0000_0000_0000_0000
  }

  /** elem_t: three limbs with weights 1, 2^44 and 2^88. */
  datatype Elem = Elem(l0: int, l1: int, l2: int)

  function Value(e: Elem): int
  {
    e.l0 + e.l1 * B + e.l2 * (B * B)
  }

  /** The bounds the accumulator keeps between blocks. */
  predicate Reduced(e: Elem)
  {
    0 <= e.l0 < 0x200_0000_0000_0000 && 0 <= e.l1 < B && 0 <= e.l2 < B
  }

  /** Every limb in its own width: the value is below 2^130. */
  predicate Normal(e: Elem)
  {
    0 <= e.l0 < B && 0 <= e.l1 < B && 0 <= e.l2 < Top
  }

  lemma {:induction false} NormalValue(e: Elem)
    requires Normal(e)
    ensures 0 <= Value(e) < Top * (B * B)
  {}

  /**
   * import1305: bytes 0..5 into limb 0, bytes 6..10 shifted up by four bits
   * into limb 1, bytes 11..15 and the extra byte x16 at bit 40 into limb 2.
   * The shifted byte fields never overlap, so the ORs of the source are sums.
   */
  function Import(x: Block, x16: byte): (e: Elem)
    ensures Value(e) == LeValue(x) + x16 as int * Two128
    ensures 0 <= e.l0 < 0x1_0000_0000_0000 && 0 <= e.l1 < B
    ensures 0 <= e.l2 < (x16 as int + 1) * 0x100_0000_0000
  {
    var e := Elem(LeValue(x[0..6]), LeValue(x[6..11]) * 16, LeValue(x[11..16]) + x16 as int * 0x100_0000_0000);
    ImportValue(x, x16);
    e
  }

  lemma {:induction false} ImportValue(x: Block, x16: byte)
    ensures LeValue(x[0..6]) + (LeValue(x[6..11]) * 16) * B + (LeValue(x[11..16]) + x16 as int * 0x100_0000_0000) * (B * B)
         == LeValue(x) + x16 as int * Two128
    ensures LeValue(x[0..6]) < 0x1_0000_0000_0000 && LeValue(x[6..11]) * 16 < B
    ensures LeValue(x[11..16]) < 0x100_0000_0000
  {
    Pow256Values();
    assert x == x[0..6] + x[6..16];
    LeValueAppend(x[0..6], x[6..16]);
    assert x[6..16] == x[6..11] + x[11..16];
    LeValueAppend(x[6..11], x[11..16]);
  }

  /**
   * The clamping of r: the top four bits of bytes 3, 7, 11 and 15 and the
   * low two bits of bytes 4, 8 and 12 are cleared.
   */
  function Clamp(r: Block): (c: Block)
    ensures forall i | 0 <= i < 16 && i != 3 && i != 4 && i != 7 && i != 8 && i != 11 && i != 12 && i != 15
      :: c[i] == r[i]
    ensures c[3] == r[3] & 0x0f && c[7] == r[7] & 0x0f && c[11] == r[11] & 0x0f && c[15] == r[15] & 0x0f
    ensures c[4] == r[4] & 0xfc && c[8] == r[8] & 0xfc && c[12] == r[12] & 0xfc
  {
    seq(16, i requires 0 <= i < 16 =>
      if i == 3 || i == 7 || i == 11 || i == 15 then r[i] & 0x0f
      else if i == 4 || i == 8 || i == 12 then r[i] & 0xfc
      else r[i])
  }

  /** The multiplier r in limbs, with sr holding 20 r1 and 20 r2. */
  datatype Key = Key(r: Elem, sr0: int, sr1: int)

  /**
   * The limb bounds of a clamped r and the precomputed multiples. Since
   * 2^132 = 4 (2^130 - 5) + 20, a product that overflows 2^132 folds back
   * multiplied by 20.
   */
  predicate ValidKey(k: Key)
  {
    && 0 <= k.r.l0 < 0x1_0000_0000_0000
    && 0 <= k.r.l1 < B
    && 0 <= k.r.l2 < 0x10_0000_0000
    && k.sr0 == 20 * k.r.l1
    && k.sr1 == 20 * k.r.l2
  }

  lemma {:induction false} ClampedTop(c: seq<byte>)
    requires |c| == 5 && c[4] as int < 16
    ensures LeValue(c) < 0x10_0000_0000
  {
    Pow256Values();
    assert c == c[..4] + c[4..];
    LeValueAppend(c[..4], c[4..]);
  }

  lemma {:induction false} MaskBound(b: byte)
    ensures (b & 0x0f) as int < 16
  {}

  /** The key part of poly1305_init: clamp, import, precompute 20 r1 and 20 r2. */
  function MakeKey(r: Block): (k: Key)
    ensures ValidKey(k)
    ensures Value(k.r) == LeValue(Clamp(r))
  {
    var c := Clamp(r);
    MaskBound(r[15]);
    ClampedTop(c[11..16]);
    var e := Import(c, 0);
    Key(e, 20 * e.l1, 20 * e.l2)
  }

  function AddLimbs(s: Elem, c: Elem): (t: Elem)
  {
    Elem(s.l0 + c.l0, s.l1 + c.l1, s.l2 + c.l2)
  }

  /** The three 128-bit partial products of horner1305. */
  datatype Wide = Wide(t0: int, t1: int, t2: int)

  function WideValue(t: Wide): int
  {
    t.t0 + t.t1 * B + t.t2 * (B * B)
  }

  /** Schoolbook product of s and r with the overflowing terms folded back through sr. */
  function Multiply(s: Elem, k: Key): (t: Wide)
  {
    Wide(s.l0 * k.r.l0 + s.l1 * k.sr1 + s.l2 * k.sr0,
         s.l0 * k.r.l1 + s.l1 * k.r.l0 + s.l2 * k.sr1,
         s.l0 * k.r.l2 + s.l1 * k.r.l1 + s.l2 * k.r.l0)
  }

  /**
   * Carry propagation from limb 0 to limb 1 and from limb 1 to limb 2.
   * Limb 0 is left as it is; once limbs 0 and 1 are masked to 44 bits the
   * three limbs hold the same value as before.
   */
  function Carry(t: Wide): (u: Wide)
    ensures u.t0 == t.t0
    ensures t.t0 % B + (u.t1 % B) * B + u.t2 * (B * B) == WideValue(t)
  {
    var t1 := t.t1 + t.t0 / B;
    assert t.t0 == B * (t.t0 / B) + t.t0 % B;
    assert t1 == B * (t1 / B) + t1 % B;
    Wide(t.t0, t1, t.t2 + t1 / B)
  }

  /** Masking each limb to 44 bits; what overflows limb 2 re-enters limb 0 times 20. */
  function Fold(u: Wide): (e: Elem)
  {
    Elem(u.t0 % B + 20 * (u.t2 / B), u.t1 % B, u.t2 % B)
  }

  lemma {:induction false} ProductSplit(s0: int, s1: int, s2: int, r0: int, r1: int, r2: int)
    ensures (s0 + s1 * B + s2 * (B * B)) * (r0 + r1 * B + r2 * (B * B))
         == (s0 * r0 + 20 * (s1 * r2 + s2 * r1)) + (s0 * r1 + s1 * r0 + 20 * (s2 * r2)) * B
            + (s0 * r2 + s1 * r1 + s2 * r0) * (B * B)
            + 4 * P * (s1 * r2 + s2 * r1 + s2 * r2 * B)
  {}

  /** The folded products differ from the true product by a multiple of p. */
  lemma {:induction false} MultiplyValue(s: Elem, k: Key)
    requires ValidKey(k)
    ensures WideValue(Multiply(s, k)) == Value(s) * Value(k.r) - 4 * P * (s.l1 * k.r.l2 + s.l2 * k.r.l1 + s.l2 * k.r.l2 * B)
  {
    ProductSplit(s.l0, s.l1, s.l2, k.r.l0, k.r.l1, k.r.l2);
  }

  /** Carrying keeps the value; folding the overflow of limb 2 subtracts a multiple of p. */
  lemma {:induction false} FoldCarryValue(t: Wide)
    ensures Value(Fold(Carry(t))) == WideValue(t) - 4 * P * (Carry(t).t2 / B)
  {
    var u := Carry(t);
    assert t.t0 == B * (t.t0 / B) + t.t0 % B;
    assert u.t1 == B * (u.t1 / B) + u.t1 % B;
    assert u.t2 == B * (u.t2 / B) + u.t2 % B;
  }

  /** The limbs of a block imported with bit 128 set to 0 or 1. */
  predicate BlockLimbs(c: Elem)
  {
    0 <= c.l0 < 0x1_0000_0000_0000 && 0 <= c.l1 < B && 0 <= c.l2 < 0x200_0000_0000
  }

  /** Bounds on the partial products of a sum of a reduced state and a block. */
  lemma {:induction false} MultiplyBounds(a: Elem, k: Key)
    requires 0 <= a.l0 < 0x400_0000_0000_0000 && 0 <= a.l1 < 0x2000_0000_0000 && 0 <= a.l2 < 0x2000_0000_0000
    requires ValidKey(k)
    ensures var t := Multiply(a, k);
      && 0 <= t.t0 < 0x800_0000_0000_0000_0000_0000_0000
      && 0 <= t.t1 < 0x80_0000_0000_0000_0000_0000_0000
      && 0 <= t.t2 < 0x8000_0000_0000_0000_0000_0000
  {
    MulBound(a.l0, k.r.l0, 0x400_0000_0000_0000, 0x1_0000_0000_0000);
    MulBound(a.l1, k.sr1, 0x2000_0000_0000, 0x200_0000_0000);
    MulBound(a.l2, k.sr0, 0x2000_0000_0000, 0x2_0000_0000_0000);
    MulBound(a.l0, k.r.l1, 0x400_0000_0000_0000, B);
    MulBound(a.l1, k.r.l0, 0x2000_0000_0000, 0x1_0000_0000_0000);
    MulBound(a.l2, k.sr1, 0x2000_0000_0000, 0x200_0000_0000);
    MulBound(a.l0, k.r.l2, 0x400_0000_0000_0000, 0x10_0000_0000);
    MulBound(a.l1, k.r.l1, 0x2000_0000_0000, B);
    MulBound(a.l2, k.r.l0, 0x2000_0000_0000, 0x1_0000_0000_0000);
  }

  /** After the carries the overflow of limb 2 is small enough for limb 0 to stay reduced. */
  lemma {:induction false} CarryBounds(t: Wide)
    requires 0 <= t.t0 < 0x800_0000_0000_0000_0000_0000_0000
    requires 0 <= t.t1 < 0x80_0000_0000_0000_0000_0000_0000
    requires 0 <= t.t2 < 0x8000_0000_0000_0000_0000_0000
    ensures var u := Carry(t);
      && 0 <= u.t1 < 0x100_0000_0000_0000_0000_0000_0000
      && 0 <= u.t2 < 0x1_0000_0000_0000_0000_0000_0000
    ensures Reduced(Fold(Carry(t)))
  {}

  /**
   * Bounds on the sums and products of horner1305 for a reduced state,
   * a block and a clamped key: every value fits the C variable it is
   * stored in, and the new state is reduced again. All terms are
   * non-negative, so every partial sum is below the bound of the whole.
   */
  lemma {:induction false} HornerBounds(s: Elem, c: Elem, k: Key)
    requires Reduced(s) && BlockLimbs(c) && ValidKey(k)
    ensures var a := AddLimbs(s, c);
      InInt64(a.l0) && InInt64(a.l1) && InInt64(a.l2)
    ensures var t := Multiply(AddLimbs(s, c), k);
      InInt128(t.t0) && InInt128(t.t1) && InInt128(t.t2)
    ensures var u := Carry(Multiply(AddLimbs(s, c), k));
      InInt128(u.t1) && InInt128(u.t2)
    ensures Reduced(Fold(Carry(Multiply(AddLimbs(s, c), k))))
  {
    var a := AddLimbs(s, c);
    MultiplyBounds(a, k);
    CarryBounds(Multiply(a, k));
  }

  /**
   * horner1305: add the block (with bit 128 set to bit) to the state and
   * multiply by r modulo p. The state stays reduced.
   */
  function Horner(s: Elem, k: Key, data: Block, bit: byte): (s': Elem)
    requires Reduced(s) && ValidKey(k) && bit <= 1
    ensures Reduced(s')
  {
    HornerReduced(s, k, data, bit);
    Fold(Carry(Multiply(AddLimbs(s, Import(data, bit)), k)))
  }

  /** One Horner step multiplies the state plus the block by r modulo p. */
  lemma {:induction false} HornerStep(s: Elem, k: Key, data: Block, bit: byte)
    requires Reduced(s) && ValidKey(k) && bit <= 1
    ensures Value(Horner(s, k, data, bit)) % P == Absorb(Value(s), LeValue(data) + bit as int * Two128, Value(k.r))
  {
    hide Fold, Carry, Multiply, FoldMultiple, LeValue, Import;
    var a := AddLimbs(s, Import(data, bit));
    var n := LeValue(data) + bit as int * Two128;
    assert Value(a) == Value(s) + n;
    assert Horner(s, k, data, bit) == Fold(Carry(Multiply(a, k)));
    HornerValue(a, k);
    ModAddMultiple(Value(a) * Value(k.r), FoldMultiple(a, k), P);
  }

  lemma {:induction false} HornerReduced(s: Elem, k: Key, data: Block, bit: byte)
    requires Reduced(s) && ValidKey(k) && bit <= 1
    ensures Reduced(Fold(Carry(Multiply(AddLimbs(s, Import(data, bit)), k))))
  {
    HornerBounds(s, Import(data, bit), k);
  }

  /** The multiple of p by which multiplying and folding misses the true product. */
  function FoldMultiple(a: Elem, k: Key): int
  {
    -4 * (a.l1 * k.r.l2 + a.l2 * k.r.l1 + a.l2 * k.r.l2 * B) - 4 * (Carry(Multiply(a, k)).t2 / B)
  }

  /** Multiplying, carrying and folding gives the product up to a multiple of p. */
  lemma {:induction false} HornerValue(a: Elem, k: Key)
    requires ValidKey(k)
    ensures Value(Fold(Carry(Multiply(a, k)))) == Value(a) * Value(k.r) + FoldMultiple(a, k) * P
  {
    hide Fold, Carry, Multiply, Value, WideValue;
    MultiplyValue(a, k);
    FoldCarryValue(Multiply(a, k));
  }

  /**
   * One reduction round of export1305: add d to limb 0, carry up, mask
   * limbs 0 and 1 to 44 bits and limb 2 to 42 bits, and fold what
   * overflows 2^130 back into limb 0 times 5.
   */
  function ExportRound(e: Elem, d: int): (f: Elem)
    ensures Value(f) == Value(e) + d - P * Overflow(e, d)
  {
    var t0 := e.l0 + d;
    var t1 := e.l1 + t0 / B;
    var t2 := e.l2 + t1 / B;
    assert t0 == B * (t0 / B) + t0 % B;
    assert t1 == B * (t1 / B) + t1 % B;
    assert t2 == Top * (t2 / Top) + t2 % Top;
    Elem(t0 % B + 5 * (t2 / Top), t1 % B, t2 % Top)
  }

  /** How many times 2^130 the round folds back into limb 0. */
  function Overflow(e: Elem, d: int): int
  {
    (e.l2 + (e.l1 + (e.l0 + d) / B) / B) / Top
  }

  /** The first round, with offset +5, leaves limb 0 at most 20 above 2^44. */
  lemma {:induction false} FirstRoundBounds(e: Elem)
    requires Reduced(e)
    ensures var f := ExportRound(e, 5);
      0 <= f.l0 < B + 20 && 0 <= f.l1 < B && 0 <= f.l2 < Top
  {}

  /** The second round normalises every limb. */
  lemma {:induction false} SecondRoundBounds(e: Elem)
    requires 0 <= e.l0 < B + 20 && 0 <= e.l1 < B && 0 <= e.l2 < Top
    ensures Normal(ExportRound(e, 0))
  {}

  /**
   * The last round, with offset -5, keeps the limbs normal and brings a
   * value below 2^130 to the range [0, p): it subtracts 5 when that leaves
   * a non-negative value and adds p - 5 otherwise.
   */
  lemma {:induction false} LastRoundBounds(e: Elem)
    requires Normal(e)
    ensures Normal(ExportRound(e, -5))
    ensures Value(ExportRound(e, -5)) < P
  {}

  /** The three rounds of export1305 before the output is written. */
  function Freeze(e: Elem): (f: Elem)
    requires Reduced(e)
    ensures Normal(f)
    ensures Value(f) == Value(e) % P
  {
    var e1 := ExportRound(e, 5);
    FirstRoundBounds(e);
    var e2 := ExportRound(e1, 0);
    SecondRoundBounds(e1);
    var e3 := ExportRound(e2, -5);
    LastRoundBounds(e2);
    NormalValue(e3);
    FreezeResidue(e, e1, e2, e3);
    e3
  }

  lemma {:induction false} FreezeResidue(e: Elem, e1: Elem, e2: Elem, e3: Elem)
    requires e1 == ExportRound(e, 5) && e2 == ExportRound(e1, 0) && e3 == ExportRound(e2, -5)
    requires 0 <= Value(e3) < P
    ensures Value(e3) == Value(e) % P
  {
    var q1, q2, q3 := Overflow(e, 5), Overflow(e1, 0), Overflow(e2, -5);
    assert Value(e) == (q1 + q2 + q3) * P + Value(e3);
    ModUnique(Value(e), q1 + q2 + q3, Value(e3), P);
  }

  /**
   * export1305: the fully reduced state written out modulo 2^128 as 16
   * little-endian bytes (44 bits from limb 0, 44 from limb 1 and the low
   * 40 bits of limb 2).
   */
  function Export(e: Elem): (out: Block)
    requires Reduced(e)
    ensures LeValue(out) == (Value(e) % P) % Two128
  {
    var f := Freeze(e);
    var w := f.l0 % B + (f.l1 % B) * B + (f.l2 % 0x100_0000_0000) * (B * B);
    ExportWord(e, f, w);
    LeBytes(w, 16)
  }

  /** The written word is the frozen value modulo 2^128. */
  lemma {:induction false} ExportWord(e: Elem, f: Elem, w: nat)
    requires Normal(f) && Value(f) == Value(e) % P
    requires w == f.l0 % B + (f.l1 % B) * B + (f.l2 % 0x100_0000_0000) * (B * B)
    ensures LeValue(LeBytes(w, 16)) == (Value(e) % P) % Two128
  {
    hide Value, LeValue, LeBytes;
    ExportValue(f);
    WordBytes(w);
  }

  /** Sixteen little-endian bytes hold a number modulo 2^128. */
  lemma {:induction false} WordBytes(w: nat)
    ensures LeValue(LeBytes(w, 16)) == w % Two128
  {
    hide LeValue, LeBytes, Pow256;
    LeBytesValue(w, 16);
    Pow256Values();
  }

  lemma {:induction false} ExportValue(f: Elem)
    requires Normal(f)
    ensures (f.l0 % B + (f.l1 % B) * B + (f.l2 % 0x100_0000_0000) * (B * B)) % Two128 == Value(f) % Two128
  {
    var hi := f.l2 / 0x100_0000_0000;
    assert Value(f) == f.l0 % B + (f.l1 % B) * B + (f.l2 % 0x100_0000_0000) * (B * B) + hi * Two128;
    ModAddMultiple(f.l0 % B + (f.l1 % B) * B + (f.l2 % 0x100_0000_0000) * (B * B), hi, Two128);
  }

  /**
   * The byte loop of add128 from byte i on: the sum of the two bytes and the
   * carry gives the output byte, and the carry shifts down by eight bits.
   */
  function AddCarry(a: seq<byte>, b: seq<byte>, carry: nat): (c: seq<byte>)
    requires |a| == |b|
    ensures |c| == |a|
  {
    if |a| == 0 then []
    else
      var sum := carry + a[0] as int + b[0] as int;
      [(sum % 256) as byte] + AddCarry(a[1..], b[1..], sum / 256)
  }

  lemma {:induction false} AddCarryValue(a: seq<byte>, b: seq<byte>, carry: nat)
    requires |a| == |b|
    ensures LeValue(AddCarry(a, b, carry)) == (LeValue(a) + LeValue(b) + carry) % Pow256(|a|)
    decreases |a|, 1
  {
    if |a| == 0 {
      ModSmall(0, 1);
    } else {
      AddCarryStep(a, b, carry);
    }
  }

  /** The inductive step of AddCarryValue. */
  lemma {:induction false} AddCarryStep(a: seq<byte>, b: seq<byte>, carry: nat)
    requires |a| == |b| > 0
    ensures LeValue(AddCarry(a, b, carry)) == (LeValue(a) + LeValue(b) + carry) % Pow256(|a|)
    decreases |a|, 0
  {
    hide AddCarry;
    var sum := carry + a[0] as int + b[0] as int;
    var x := LeValue(a[1..]) + LeValue(b[1..]) + sum / 256;
    AddCarryValue(a[1..], b[1..], sum / 256);
    AddCarryCons(a, b, carry);
    var t, p := LeValue(a) + LeValue(b) + carry, Pow256(|a| - 1);
    assert Pow256(|a|) == 256 * p;
    CarryMod(t, x, sum % 256, LeValue(AddCarry(a[1..], b[1..], sum / 256)), p);
  }

  /** The value of a carried sum is its first byte plus 256 times the value of the rest. */
  lemma {:induction false} AddCarryCons(a: seq<byte>, b: seq<byte>, carry: nat)
    requires |a| == |b| > 0
    ensures var sum := carry + a[0] as int + b[0] as int;
      LeValue(AddCarry(a, b, carry)) == sum % 256 + 256 * LeValue(AddCarry(a[1..], b[1..], sum / 256))
  {
    var sum := carry + a[0] as int + b[0] as int;
    var c := AddCarry(a, b, carry);
    ByteOfInt(sum % 256);
    assert c[1..] == AddCarry(a[1..], b[1..], sum / 256);
  }

  /** The low byte and the reduced high part make up the reduced whole. */
  lemma {:induction false} CarryMod(t: int, x: int, lo: int, hi: int, p: int)
    requires p > 0 && 0 <= lo < 256 && t == 256 * x + lo && hi == x % p
    ensures lo + 256 * hi == t % (256 * p)
  {
    ModUnique(t, x, lo, 256);
    DivDiv(t, 256, p);
  }

  /** add128: the sum of two 128-bit little-endian numbers modulo 2^128. */
  function Add128(a: Block, b: Block): (out: Block)
    ensures LeValue(out) == (LeValue(a) + LeValue(b)) % Two128
  {
    AddCarryValue(a, b, 0);
    Pow256Values();
    AddCarry(a, b, 0)
  }

  /**
   * Poly1305 of RFC 8439 (section 2.5.1): every 16-byte chunk of the
   * message, and the shorter last one, is read as a little-endian number
   * with a 1 bit set just above its last byte, added to the accumulator,
   * and the sum multiplied by r modulo p.
   */
  function RfcLoop(acc: int, m: seq<byte>, rv: int): (a: int)
    requires 0 <= acc < P
    ensures 0 <= a < P
    decreases |m|
  {
    if |m| == 0 then acc
    else
      var n := if |m| < 16 then |m| else 16;
      RfcLoop(Absorb(acc, LeValue(m[..n]) + Pow256(n), rv), m[n..], rv)
  }

  /** The tag of RFC 8439 for the multiplier value rv: the accumulator plus s, modulo 2^128, little-endian. */
  function TagOf(m: seq<byte>, rv: int, s: Block): Block
  {
    LeBytes(RfcLoop(0, m, rv) + LeValue(s), 16)
  }

  /** The tag of RFC 8439 under the 32-byte key (r, s). */
  function Tag(m: seq<byte>, r: Block, s: Block): Block
  {
    TagOf(m, LeValue(Clamp(r)), s)
  }

  /**
   * struct poly1305 as poly1305.c uses it: the accumulator, the key, and
   * the bytes of an incomplete block (fill is the length of the buffer).
   */
  datatype Ctx = Ctx(state: Elem, key: Key, buffer: seq<byte>)

  predicate Valid(ctx: Ctx)
  {
    Reduced(ctx.state) && ValidKey(ctx.key) && |ctx.buffer| < 16
  }

  /** poly1305_init: key prepared from r, accumulator zero, buffer empty. */
  function Init(r: Block): (ctx: Ctx)
    ensures Valid(ctx)
    ensures Value(ctx.state) == 0 && ctx.buffer == []
    ensures Value(ctx.key.r) == LeValue(Clamp(r))
  {
    Ctx(Elem(0, 0, 0), MakeKey(r), [])
  }

  /** The loop of poly1305_update over whole blocks; the rest is buffered. */
  function Blocks(ctx: Ctx, data: seq<byte>): (c: Ctx)
    requires Valid(ctx)
    ensures Valid(c) && c.key == ctx.key
    ensures c.buffer == Tail(data)
    decreases |data|
  {
    if |data| >= 16 then
      var c := Blocks(ctx.(state := Horner(ctx.state, ctx.key, data[..16], 1)), data[16..]);
      TailDrop(data);
      c
    else ctx.(buffer := data)
  }

  /**
   * poly1305_update: a pending partial block is completed first and
   * hashed once it is full; then whole blocks are hashed and the rest kept.
   * The buffer always holds the tail of the stream beyond its last whole
   * block.
   */
  function Update(ctx: Ctx, data: seq<byte>): (c: Ctx)
    requires Valid(ctx)
    ensures Valid(c) && c.key == ctx.key
    ensures c.buffer == Tail(ctx.buffer + data)
  {
    var all := ctx.buffer + data;
    if |ctx.buffer| > 0 then
      var need := if |data| < 16 - |ctx.buffer| then |data| else 16 - |ctx.buffer|;
      var buf := ctx.buffer + data[..need];
      if |buf| < 16 then
        assert all == buf;
        ctx.(buffer := buf)
      else
        var c := Blocks(ctx.(state := Horner(ctx.state, ctx.key, buf, 1), buffer := []), data[need..]);
        assert data[need..] == all[16..];
        TailDrop(all);
        c
    else
      assert all == data;
      Blocks(ctx, data)
  }

  lemma {:induction false} LeValueZeros(n: nat)
    ensures LeValue(Zeros(n)) == 0
  {
    if n > 0 {
      assert Zeros(n)[1..] == Zeros(n - 1);
      LeValueZeros(n - 1);
    }
  }

  /** The final partial block padded with a 0x01 byte and zeros. */
  function Pad(buf: seq<byte>): (p: Block)
    requires |buf| < 16
    ensures p[..|buf|] == buf && p[|buf|] == 1
    ensures forall i | |buf| < i < 16 :: p[i] == 0
  {
    buf + Unit(15 - |buf|)
  }

  /** A 0x01 byte followed by n zeros: the number 1. */
  function Unit(n: nat): (u: seq<byte>)
    ensures |u| == n + 1 && u[0] == 1
    ensures forall i | 0 < i <= n :: u[i] == 0
  {
    [1] + Zeros(n)
  }

  lemma {:induction false} UnitValue(n: nat)
    ensures LeValue(Unit(n)) == 1
  {
    assert Unit(n)[1..] == Zeros(n);
    LeValueZeros(n);
    ByteOfInt(1);
  }

  lemma {:induction false} AppendUnit(a: seq<byte>, t: seq<byte>)
    requires LeValue(t) == 1
    ensures LeValue(a + t) == LeValue(a) + Pow256(|a|)
  {
    LeValueAppend(a, t);
  }

  /** Padding sets the bit just above the last byte of the block. */
  lemma {:induction false} PadValue(buf: seq<byte>)
    requires |buf| < 16
    ensures LeValue(Pad(buf)) == LeValue(buf) + Pow256(|buf|)
  {
    UnitValue(15 - |buf|);
    AppendUnit(buf, Unit(15 - |buf|));
  }

  /**
   * poly1305_mac: a pending partial block is padded and hashed with bit
   * 128 clear, the accumulator is fully reduced and written out, and the
   * encrypted nonce is added modulo 2^128.
   */
  function Mac(ctx: Ctx, encno: Block): Block
    requires Valid(ctx)
  {
    Add128(Export(FinalState(ctx)), encno)
  }

  /** Reducing the accumulator before the next block does not change the result. */
  lemma {:induction false} ModStep(a: int, b: int, r: int)
    ensures Absorb(a, b, r) == Absorb(a % P, b, r)
  {
    var x := a % P + b;
    var q := a / P;
    assert (a + b) * r == x * r + (q * r) * P by {
      assert a + b == x + q * P;
      MulDistrib(r, x, q * P);
      MulAssoc(r, q, P);
    }
    ModAddMultiple(x * r, q * r, P);
  }

  /** A whole first block is one step of the reference loop. */
  lemma {:induction false} RfcLoopStep(acc: int, m: seq<byte>, rv: int)
    requires 0 <= acc < P && |m| >= 16
    ensures RfcLoop(acc, m, rv) == RfcLoop(Absorb(acc, LeValue(m[..16]) + Pow256(16), rv), m[16..], rv)
  {
    hide Absorb, LeValue, Pow256;
  }

  lemma RfcLoopNil(acc: int, rv: int)
    requires 0 <= acc < P
    ensures RfcLoop(acc, [], rv) == acc
  {}

  /** The reference loop over whole blocks followed by anything. */
  lemma {:induction false} RfcLoopAppend(acc: int, a: seq<byte>, b: seq<byte>, rv: int)
    requires 0 <= acc < P && |a| % 16 == 0
    ensures RfcLoop(acc, a + b, rv) == RfcLoop(RfcLoop(acc, a, rv), b, rv)
    decreases |a|
  {
    hide RfcLoop, Absorb, LeValue, Pow256;
    if |a| == 0 {
      assert a + b == b;
      RfcLoopNil(acc, rv);
    } else {
      var next := Absorb(acc, LeValue(a[..16]) + Pow256(16), rv);
      assert (a + b)[..16] == a[..16];
      assert (a + b)[16..] == a[16..] + b;
      ModAddMultiple(|a| - 16, 1, 16);
      RfcLoopStep(acc, a, rv);
      RfcLoopStep(acc, a + b, rv);
      RfcLoopAppend(next, a[16..], b, rv);
    }
  }

  /** The reference loop on one block of at most 16 bytes. */
  lemma {:induction false} RfcLoopOne(acc: int, blk: seq<byte>, rv: int)
    requires 0 <= acc < P && 0 < |blk| <= 16
    ensures RfcLoop(acc, blk, rv) == Absorb(acc, LeValue(blk) + Pow256(|blk|), rv)
  {
    assert blk[..|blk|] == blk;
    assert blk[|blk|..] == [];
  }

  /**
   * The context has absorbed the stream m: the buffer is the tail of m
   * beyond its last whole block, and the accumulator is congruent to the
   * reference accumulator of the whole blocks under the context's r.
   */
  predicate Absorbed(ctx: Ctx, m: seq<byte>)
  {
    && Valid(ctx)
    && |ctx.buffer| <= |m|
    && (|m| - |ctx.buffer|) % 16 == 0
    && m[|m| - |ctx.buffer|..] == ctx.buffer
    && Value(ctx.state) % P == RfcLoop(0, m[..|m| - |ctx.buffer|], Value(ctx.key.r))
  }

  lemma {:induction false} InitAbsorbs(r: Block)
    ensures Absorbed(Init(r), [])
  {}

  /** Hashing a whole block with bit 128 set is one step of the reference loop. */
  lemma {:induction false} HashBlock(ctx: Ctx, m: seq<byte>, blk: Block, st: Elem)
    requires Absorbed(ctx, m) && ctx.buffer == []
    requires Reduced(st)
    requires Value(st) % P == Absorb(Value(ctx.state), LeValue(blk) + Two128, Value(ctx.key.r))
    ensures Absorbed(ctx.(state := st), m + blk)
  {
    var rv := Value(ctx.key.r);
    var acc := RfcLoop(0, m, rv);
    assert m[..|m|] == m;
    Pow256Values();
    ModStep(Value(ctx.state), LeValue(blk) + Two128, rv);
    RfcLoopAppend(0, m, blk, rv);
    RfcLoopOne(acc, blk, rv);
    var c := ctx.(state := st);
    var m' := m + blk;
    assert m'[..|m'|] == m';
    ModAddMultiple(|m|, 1, 16);
  }

  lemma {:induction false} BlocksAbsorb(ctx: Ctx, m: seq<byte>, d: seq<byte>)
    requires Absorbed(ctx, m) && ctx.buffer == []
    ensures Absorbed(Blocks(ctx, d), m + d)
    decreases |d|
  {
    hide Horner, RfcLoop, Absorb;
    if |d| >= 16 {
      var st := Horner(ctx.state, ctx.key, d[..16], 1);
      HornerStep(ctx.state, ctx.key, d[..16], 1);
      HashBlock(ctx, m, d[..16], st);
      BlocksAbsorb(ctx.(state := st), m + d[..16], d[16..]);
      AppendSplit(m, d, 16);
    } else {
      assert m[..|m|] == m;
      assert (m + d)[..|m|] == m;
      assert (m + d)[|m|..] == d;
    }
  }

  /** poly1305_update extends the absorbed stream by the data, however the stream is split. */
  lemma {:induction false} UpdateAbsorbs(ctx: Ctx, m: seq<byte>, d: seq<byte>)
    requires Absorbed(ctx, m)
    ensures Absorbed(Update(ctx, d), m + d)
  {
    hide Horner, Blocks, RfcLoop, Absorb;
    var n := |m| - |ctx.buffer|;
    assert m == m[..n] + ctx.buffer;
    if |ctx.buffer| > 0 {
      var need := if |d| < 16 - |ctx.buffer| then |d| else 16 - |ctx.buffer|;
      var buf := ctx.buffer + d[..need];
      if |buf| < 16 {
        assert (m + d)[..n] == m[..n];
        assert (m + d)[n..] == buf;
      } else {
        var c0 := ctx.(buffer := []);
        assert Absorbed(c0, m[..n]) by {
          assert m[..n][..n] == m[..n];
        }
        var st := Horner(ctx.state, ctx.key, buf, 1);
        HornerStep(ctx.state, ctx.key, buf, 1);
        HashBlock(c0, m[..n], buf, st);
        BlocksAbsorb(c0.(state := st), m[..n] + buf, d[need..]);
        AppendRegroup(m[..n], ctx.buffer, d, need);
      }
    } else {
      BlocksAbsorb(ctx, m, d);
    }
  }

  /** The state poly1305_mac exports: the accumulator after the padded last block, if any. */
  function FinalState(ctx: Ctx): (st: Elem)
    requires Valid(ctx)
    ensures Reduced(st)
  {
    if |ctx.buffer| > 0 then Horner(ctx.state, ctx.key, Pad(ctx.buffer), 0) else ctx.state
  }

  /** The absorbed stream is its whole blocks followed by the buffer. */
  lemma {:induction false} AbsorbedSplit(ctx: Ctx, m: seq<byte>)
    requires Absorbed(ctx, m)
    ensures m == m[..|m| - |ctx.buffer|] + ctx.buffer
  {
    var n := |m| - |ctx.buffer|;
    assert m[n..] == ctx.buffer;
    assert m == m[..n] + m[n..];
  }

  /** The reference loop split after a whole number of blocks. */
  lemma {:induction false} LoopSplit(m: seq<byte>, n: nat, rv: int)
    requires n <= |m| && n % 16 == 0
    ensures RfcLoop(0, m, rv) == RfcLoop(RfcLoop(0, m[..n], rv), m[n..], rv)
  {
    assert m == m[..n] + m[n..];
    RfcLoopAppend(0, m[..n], m[n..], rv);
  }

  /** A final partial block t completes the reference loop over the whole stream. */
  lemma {:induction false} LastBlock(a: int, m: seq<byte>, t: seq<byte>, rv: int)
    requires 0 < |t| <= |m| && |t| <= 16 && (|m| - |t|) % 16 == 0
    requires m[|m| - |t|..] == t
    requires a % P == RfcLoop(0, m[..|m| - |t|], rv)
    ensures Absorb(a, LeValue(t) + Pow256(|t|), rv) == RfcLoop(0, m, rv)
  {
    hide RfcLoop, Absorb;
    var n := |m| - |t|;
    LoopSplit(m, n, rv);
    ModStep(a, LeValue(t) + Pow256(|t|), rv);
    RfcLoopOne(RfcLoop(0, m[..n], rv), t, rv);
  }

  /** The padded partial block is absorbed with 2^(8 n) marking its end. */
  lemma {:induction false} PaddedStep(ctx: Ctx)
    requires Valid(ctx) && |ctx.buffer| > 0
    ensures Value(FinalState(ctx)) % P
         == Absorb(Value(ctx.state), LeValue(ctx.buffer) + Pow256(|ctx.buffer|), Value(ctx.key.r))
  {
    hide Horner, Pad;
    PadValue(ctx.buffer);
    HornerStep(ctx.state, ctx.key, Pad(ctx.buffer), 0);
    assert LeValue(Pad(ctx.buffer)) + (0 as byte) as int * Two128 == LeValue(ctx.buffer) + Pow256(|ctx.buffer|);
  }

  /** The partial block of an absorbed stream completes its reference loop. */
  lemma {:induction false} BufferStep(ctx: Ctx, m: seq<byte>)
    requires Absorbed(ctx, m) && |ctx.buffer| > 0
    ensures Absorb(Value(ctx.state), LeValue(ctx.buffer) + Pow256(|ctx.buffer|), Value(ctx.key.r))
         == RfcLoop(0, m, Value(ctx.key.r))
  {
    hide RfcLoop, Absorb;
    LastBlock(Value(ctx.state), m, ctx.buffer, Value(ctx.key.r));
  }

  /** The accumulator after the padded last block is the reference accumulator of the stream. */
  lemma {:induction false} FinalAccumulator(ctx: Ctx, m: seq<byte>)
    requires Absorbed(ctx, m)
    ensures Value(FinalState(ctx)) % P == RfcLoop(0, m, Value(ctx.key.r))
  {
    if |ctx.buffer| > 0 {
      PaddedStep(ctx);
      BufferStep(ctx, m);
    } else {
      AbsorbedSplit(ctx, m);
      assert m[..|m|] == m;
    }
  }

  /** Adding s to an exported accumulator gives the reference tag arithmetic. */
  lemma {:induction false} AddSecret(e: Block, acc: int, s: Block)
    requires 0 <= acc && LeValue(e) == acc % Two128
    ensures Add128(e, s) == LeBytes(acc + LeValue(s), 16)
  {
    hide Add128, LeValue, LeBytes, Pow256;
    var mac, t := Add128(e, s), acc + LeValue(s);
    var want := LeBytes(t, 16);
    ModAddLeft(acc, LeValue(s), Two128);
    assert LeValue(mac) == t % Two128;
    Pow256Values();
    LeBytesValue(t, 16);
    assert LeValue(want) == t % Two128;
    LeValueInjective(mac, want);
  }

  /** poly1305_mac on a context that absorbed m yields the RFC 8439 tag of m. */
  lemma {:induction false} MacMatchesTag(ctx: Ctx, m: seq<byte>, s: Block)
    requires Absorbed(ctx, m)
    ensures Mac(ctx, s) == TagOf(m, Value(ctx.key.r), s)
  {
    hide Export, Horner;
    FinalAccumulator(ctx, m);
    AddSecret(Export(FinalState(ctx)), RfcLoop(0, m, Value(ctx.key.r)), s);
  }

  /** One update with the whole message gives the reference tag. */
  lemma {:induction false} OneShot(r: Block, s: Block, m: seq<byte>)
    ensures Mac(Update(Init(r), m), s) == Tag(m, r, s)
  {
    hide Mac, Update, Horner, Export, Blocks, Clamp;
    InitAbsorbs(r);
    UpdateAbsorbs(Init(r), [], m);
    assert [] + m == m;
    MacMatchesTag(Update(Init(r), m), m, s);
  }

  /** Splitting the message over two updates does not change the tag. */
  lemma {:induction false} TwoUpdates(r: Block, s: Block, m1: seq<byte>, m2: seq<byte>)
    ensures Mac(Update(Update(Init(r), m1), m2), s) == Tag(m1 + m2, r, s)
  {
    hide Mac, Update, Horner, Export, Blocks, Clamp;
    InitAbsorbs(r);
    UpdateAbsorbs(Init(r), [], m1);
    assert [] + m1 == m1;
    UpdateAbsorbs(Update(Init(r), m1), m1, m2);
    MacMatchesTag(Update(Update(Init(r), m1), m2), m1 + m2, s);
  }
}
