/**
 * The eight Serpent S-boxes in bitslice form.
 *
 * A Quad holds four 32-bit words; bit j of words 0..3 forms the 4-bit input
 * of S-box position j (word 0 is the least significant bit). The circuits
 * S0..S7 are the register programs of serpent.c, statement by statement;
 * each returns its four outputs in the order the round function reads them.
 * The tables of the Serpent specification are packed into 64-bit constants,
 * entry n in nibble n, and Bitslice(t, x) applies table t to all 32
 * positions at once. SBox(i, x) is proved equal to Bitslice for every input.
 */
module SBoxes {

  datatype Quad = Quad(w0: bv32, w1: bv32, w2: bv32, w3: bv32)

  /** S0: 3 8 15 1 10 6 5 11 14 13 4 2 7 0 9 12 */
  const Table0: bv64 := 0xc907_24de_b56a_1f83

  /** S1: 15 12 2 7 9 0 5 10 1 11 14 8 6 13 3 4 */
  const Table1: bv64 := 0x43d6_8eb1_a509_72cf

  /** S2: 8 6 7 9 3 12 10 15 13 1 14 4 0 11 5 2 */
  const Table2: bv64 := 0x25b0_4e1d_fac3_9768

  /** S3: 0 15 11 8 12 9 6 3 13 1 2 4 10 7 5 14 */
  const Table3: bv64 := 0xe57a_421d_369c_8bf0

  /** S4: 1 15 8 3 12 0 11 6 2 5 4 10 9 14 7 13 */
  const Table4: bv64 := 0xd7e9_a452_6b0c_38f1

  /** S5: 15 5 2 11 4 10 9 12 0 3 14 8 13 6 7 1 */
  const Table5: bv64 := 0x176d_8e30_c9a4_b25f

  /** S6: 7 2 12 5 8 4 6 11 14 9 1 15 13 3 10 0 */
  const Table6: bv64 := 0x0a3d_f19e_b648_5c27

  /** S7: 1 13 15 0 14 8 2 11 7 4 12 10 9 3 5 6 */
  const Table7: bv64 := 0x6539_ac47_b28e_0fd1

  /** The packed table of S-box i, taken mod 8. */
  function TableOf(i: nat): bv64
  {
    match i % 8
    case 0 => Table0 case 1 => Table1 case 2 => Table2 case 3 => Table3
    case 4 => Table4 case 5 => Table5 case 6 => Table6 case _ => Table7
  }

  /** x itself for a set selector bit, its complement for a clear one. */
  function Literal(x: bv32, positive: bool): bv32
  {
    if positive then x else !x
  }

  /** The bit positions whose 4-bit input equals n. */
  function Minterm(x: Quad, n: bv64): bv32
  {
    Literal(x.w0, n & 1 != 0) & Literal(x.w1, n & 2 != 0) & Literal(x.w2, n & 4 != 0) & Literal(x.w3, n & 8 != 0)
  }

  /** The positions with input n, if bit k of entry n of table t is set. */
  function Term(t: bv64, x: Quad, n: bv64, k: bv64): bv32
    requires n < 16 && k < 4
  {
    if (t >> (4 * n + k)) & 1 == 1 then Minterm(x, n) else 0
  }

  /** Output bit k of table t at every bit position. */
  function Plane(t: bv64, x: Quad, k: bv64): bv32
    requires k < 4
  {
    Term(t, x, 0, k) | Term(t, x, 1, k) | Term(t, x, 2, k) | Term(t, x, 3, k) |
    Term(t, x, 4, k) | Term(t, x, 5, k) | Term(t, x, 6, k) | Term(t, x, 7, k) |
    Term(t, x, 8, k) | Term(t, x, 9, k) | Term(t, x, 10, k) | Term(t, x, 11, k) |
    Term(t, x, 12, k) | Term(t, x, 13, k) | Term(t, x, 14, k) | Term(t, x, 15, k)
  }

  /** Table t applied to each of the 32 bit positions of x. */
  function Bitslice(t: bv64, x: Quad): Quad
  {
    Quad(Plane(t, x, 0), Plane(t, x, 1), Plane(t, x, 2), Plane(t, x, 3))
  }

  /** The S0 register program; outputs (x2, x1, x3, x0). */
  function S0(x: Quad): Quad
  {
    var x0, x1, x2, x3 := x.w0, x.w1, x.w2, x.w3;
    var x4 := x3; var x3 := x3 | x0; var x0 := x0 ^ x4;
    var x4 := x4 ^ x2; var x4 := !x4; var x3 := x3 ^ x1;
    var x1 := x1 & x0; var x1 := x1 ^ x4; var x2 := x2 ^ x0;
    var x0 := x0 ^ x3; var x4 := x4 | x0; var x0 := x0 ^ x2;
    var x2 := x2 & x1; var x3 := x3 ^ x2; var x1 := !x1;
    var x2 := x2 ^ x4; var x1 := x1 ^ x2;
    Quad(x2, x1, x3, x0)
  }

  /** The S1 register program; outputs (x4, x2, x3, x0). */
  function S1(x: Quad): Quad
  {
    var x0, x1, x2, x3 := x.w0, x.w1, x.w2, x.w3;
    var x4 := x1; var x1 := x1 ^ x0; var x0 := x0 ^ x3;
    var x3 := !x3; var x4 := x4 & x1; var x0 := x0 | x1;
    var x3 := x3 ^ x2; var x0 := x0 ^ x3; var x1 := x1 ^ x3;
    var x3 := x3 ^ x4; var x1 := x1 | x4; var x4 := x4 ^ x2;
    var x2 := x2 & x0; var x2 := x2 ^ x1; var x1 := x1 | x0;
    var x0 := !x0; var x0 := x0 ^ x2; var x4 := x4 ^ x1;
    Quad(x4, x2, x3, x0)
  }

  /** The S2 register program; outputs (x4, x1, x0, x3). */
  function S2(x: Quad): Quad
  {
    var x0, x1, x2, x3 := x.w0, x.w1, x.w2, x.w3;
    var x3 := !x3; var x1 := x1 ^ x0; var x4 := x0;
    var x0 := x0 & x2; var x0 := x0 ^ x3; var x3 := x3 | x4;
    var x2 := x2 ^ x1; var x3 := x3 ^ x1; var x1 := x1 & x0;
    var x0 := x0 ^ x2; var x2 := x2 & x3; var x3 := x3 | x1;
    var x0 := !x0; var x3 := x3 ^ x0; var x4 := x4 ^ x0;
    var x0 := x0 ^ x2; var x1 := x1 | x2;
    Quad(x4, x1, x0, x3)
  }

  /** The S3 register program; outputs (x3, x4, x1, x0). */
  function S3(x: Quad): Quad
  {
    var x0, x1, x2, x3 := x.w0, x.w1, x.w2, x.w3;
    var x4 := x1; var x1 := x1 ^ x3; var x3 := x3 | x0;
    var x4 := x4 & x0; var x0 := x0 ^ x2; var x2 := x2 ^ x1;
    var x1 := x1 & x3; var x2 := x2 ^ x3; var x0 := x0 | x4;
    var x4 := x4 ^ x3; var x1 := x1 ^ x0; var x0 := x0 & x3;
    var x3 := x3 & x4; var x3 := x3 ^ x2; var x4 := x4 | x1;
    var x2 := x2 & x1; var x4 := x4 ^ x3; var x0 := x0 ^ x3;
    var x3 := x3 ^ x2;
    Quad(x3, x4, x1, x0)
  }

  /** The S4 register program; outputs (x1, x2, x3, x4). */
  function S4(x: Quad): Quad
  {
    var x0, x1, x2, x3 := x.w0, x.w1, x.w2, x.w3;
    var x4 := x3; var x3 := x3 & x0; var x0 := x0 ^ x4;
    var x3 := x3 ^ x2; var x2 := x2 | x4; var x0 := x0 ^ x1;
    var x4 := x4 ^ x3; var x2 := x2 | x0; var x2 := x2 ^ x1;
    var x1 := x1 & x0; var x1 := x1 ^ x4; var x4 := x4 & x2;
    var x2 := x2 ^ x3; var x4 := x4 ^ x0; var x3 := x3 | x1;
    var x1 := !x1; var x3 := x3 ^ x0;
    Quad(x1, x2, x3, x4)
  }

  /** The S5 register program; outputs (x4, x0, x1, x3). */
  function S5(x: Quad): Quad
  {
    var x0, x1, x2, x3 := x.w0, x.w1, x.w2, x.w3;
    var x4 := x1; var x1 := x1 | x0; var x2 := x2 ^ x1;
    var x3 := !x3; var x4 := x4 ^ x0; var x0 := x0 ^ x2;
    var x1 := x1 & x4; var x4 := x4 | x3; var x4 := x4 ^ x0;
    var x0 := x0 & x3; var x1 := x1 ^ x3; var x3 := x3 ^ x2;
    var x0 := x0 ^ x1; var x2 := x2 & x4; var x1 := x1 ^ x2;
    var x2 := x2 & x0; var x3 := x3 ^ x2;
    Quad(x4, x0, x1, x3)
  }

  /** The S6 register program; outputs (x2, x4, x1, x3). */
  function S6(x: Quad): Quad
  {
    var x0, x1, x2, x3 := x.w0, x.w1, x.w2, x.w3;
    var x4 := x1; var x3 := x3 ^ x0; var x1 := x1 ^ x2;
    var x2 := x2 ^ x0; var x0 := x0 & x3; var x1 := x1 | x3;
    var x4 := !x4; var x0 := x0 ^ x1; var x1 := x1 ^ x2;
    var x3 := x3 ^ x4; var x4 := x4 ^ x0; var x2 := x2 & x0;
    var x4 := x4 ^ x1; var x2 := x2 ^ x3; var x3 := x3 & x1;
    var x3 := x3 ^ x0; var x1 := x1 ^ x2;
    Quad(x2, x4, x1, x3)
  }

  /** The S7 register program; outputs (x4, x2, x3, x0). */
  function S7(x: Quad): Quad
  {
    var x0, x1, x2, x3 := x.w0, x.w1, x.w2, x.w3;
    var x1 := !x1; var x4 := x1; var x0 := !x0;
    var x1 := x1 & x2; var x1 := x1 ^ x3; var x3 := x3 | x4;
    var x4 := x4 ^ x2; var x2 := x2 ^ x3; var x3 := x3 ^ x0;
    var x0 := x0 | x1; var x2 := x2 & x0; var x0 := x0 ^ x4;
    var x4 := x4 ^ x3; var x3 := x3 & x0; var x4 := x4 ^ x1;
    var x2 := x2 ^ x4; var x3 := x3 ^ x1; var x4 := x4 | x0;
    var x4 := x4 ^ x1;
    Quad(x4, x2, x3, x0)
  }

  lemma S0Circuit0(x: Quad)
    ensures S0(x).w0 == (!x.w0 & !x.w1 & !x.w2 & !x.w3) | (!x.w0 & x.w1 & !x.w2 & !x.w3) | (x.w0 & x.w1 & !x.w2 & !x.w3) | (!x.w0 & x.w1 & x.w2 & !x.w3)
      | (x.w0 & x.w1 & x.w2 & !x.w3) | (x.w0 & !x.w1 & !x.w2 & x.w3) | (!x.w0 & !x.w1 & x.w2 & x.w3) | (!x.w0 & x.w1 & x.w2 & x.w3)
  {}

  lemma S0Table0(x: Quad)
    ensures Plane(Table0, x, 0) == (!x.w0 & !x.w1 & !x.w2 & !x.w3) | (!x.w0 & x.w1 & !x.w2 & !x.w3) | (x.w0 & x.w1 & !x.w2 & !x.w3) | (!x.w0 & x.w1 & x.w2 & !x.w3)
      | (x.w0 & x.w1 & x.w2 & !x.w3) | (x.w0 & !x.w1 & !x.w2 & x.w3) | (!x.w0 & !x.w1 & x.w2 & x.w3) | (!x.w0 & x.w1 & x.w2 & x.w3)
  {}

  lemma S0Circuit1(x: Quad)
    ensures S0(x).w1 == (!x.w0 & !x.w1 & !x.w2 & !x.w3) | (!x.w0 & x.w1 & !x.w2 & !x.w3) | (!x.w0 & !x.w1 & x.w2 & !x.w3) | (x.w0 & !x.w1 & x.w2 & !x.w3)
      | (x.w0 & x.w1 & x.w2 & !x.w3) | (!x.w0 & !x.w1 & !x.w2 & x.w3) | (x.w0 & x.w1 & !x.w2 & x.w3) | (!x.w0 & !x.w1 & x.w2 & x.w3)
  {}

  lemma S0Table1(x: Quad)
    ensures Plane(Table0, x, 1) == (!x.w0 & !x.w1 & !x.w2 & !x.w3) | (!x.w0 & x.w1 & !x.w2 & !x.w3) | (!x.w0 & !x.w1 & x.w2 & !x.w3) | (x.w0 & !x.w1 & x.w2 & !x.w3)
      | (x.w0 & x.w1 & x.w2 & !x.w3) | (!x.w0 & !x.w1 & !x.w2 & x.w3) | (x.w0 & x.w1 & !x.w2 & x.w3) | (!x.w0 & !x.w1 & x.w2 & x.w3)
  {}

  lemma S0Circuit2(x: Quad)
    ensures S0(x).w2 == (!x.w0 & x.w1 & !x.w2 & !x.w3) | (x.w0 & !x.w1 & x.w2 & !x.w3) | (!x.w0 & x.w1 & x.w2 & !x.w3) | (!x.w0 & !x.w1 & !x.w2 & x.w3)
      | (x.w0 & !x.w1 & !x.w2 & x.w3) | (!x.w0 & x.w1 & !x.w2 & x.w3) | (!x.w0 & !x.w1 & x.w2 & x.w3) | (x.w0 & x.w1 & x.w2 & x.w3)
  {}

  lemma S0Table2(x: Quad)
    ensures Plane(Table0, x, 2) == (!x.w0 & x.w1 & !x.w2 & !x.w3) | (x.w0 & !x.w1 & x.w2 & !x.w3) | (!x.w0 & x.w1 & x.w2 & !x.w3) | (!x.w0 & !x.w1 & !x.w2 & x.w3)
      | (x.w0 & !x.w1 & !x.w2 & x.w3) | (!x.w0 & x.w1 & !x.w2 & x.w3) | (!x.w0 & !x.w1 & x.w2 & x.w3) | (x.w0 & x.w1 & x.w2 & x.w3)
  {}

  lemma S0Circuit3(x: Quad)
    ensures S0(x).w3 == (x.w0 & !x.w1 & !x.w2 & !x.w3) | (!x.w0 & x.w1 & !x.w2 & !x.w3) | (!x.w0 & !x.w1 & x.w2 & !x.w3) | (x.w0 & x.w1 & x.w2 & !x.w3)
      | (!x.w0 & !x.w1 & !x.w2 & x.w3) | (x.w0 & !x.w1 & !x.w2 & x.w3) | (!x.w0 & x.w1 & x.w2 & x.w3) | (x.w0 & x.w1 & x.w2 & x.w3)
  {}

  lemma S0Table3(x: Quad)
    ensures Plane(Table0, x, 3) == (x.w0 & !x.w1 & !x.w2 & !x.w3) | (!x.w0 & x.w1 & !x.w2 & !x.w3) | (!x.w0 & !x.w1 & x.w2 & !x.w3) | (x.w0 & x.w1 & x.w2 & !x.w3)
      | (!x.w0 & !x.w1 & !x.w2 & x.w3) | (x.w0 & !x.w1 & !x.w2 & x.w3) | (!x.w0 & x.w1 & x.w2 & x.w3) | (x.w0 & x.w1 & x.w2 & x.w3)
  {}

  /** The S0 program computes table S0 at every bit position. */
  lemma S0IsTable(x: Quad)
    ensures S0(x) == Bitslice(Table0, x)
  {
    S0Circuit0(x); S0Table0(x); S0Circuit1(x); S0Table1(x); S0Circuit2(x); S0Table2(x); S0Circuit3(x); S0Table3(x);
  }

  lemma S1Circuit0(x: Quad)
    ensures S1(x).w0 == (!x.w0 & !x.w1 & !x.w2 & !x.w3) | (x.w0 & x.w1 & !x.w2 & !x.w3) | (!x.w0 & !x.w1 & x.w2 & !x.w3) | (!x.w0 & x.w1 & x.w2 & !x.w3)
      | (!x.w0 & !x.w1 & !x.w2 & x.w3) | (x.w0 & !x.w1 & !x.w2 & x.w3) | (x.w0 & !x.w1 & x.w2 & x.w3) | (!x.w0 & x.w1 & x.w2 & x.w3)
  {}

  lemma S1Table0(x: Quad)
    ensures Plane(Table1, x, 0) == (!x.w0 & !x.w1 & !x.w2 & !x.w3) | (x.w0 & x.w1 & !x.w2 & !x.w3) | (!x.w0 & !x.w1 & x.w2 & !x.w3) | (!x.w0 & x.w1 & x.w2 & !x.w3)
      | (!x.w0 & !x.w1 & !x.w2 & x.w3) | (x.w0 & !x.w1 & !x.w2 & x.w3) | (x.w0 & !x.w1 & x.w2 & x.w3) | (!x.w0 & x.w1 & x.w2 & x.w3)
  {}

  lemma S1Circuit1(x: Quad)
    ensures S1(x).w1 == (!x.w0 & !x.w1 & !x.w2 & !x.w3) | (!x.w0 & x.w1 & !x.w2 & !x.w3) | (x.w0 & x.w1 & !x.w2 & !x.w3) | (x.w0 & x.w1 & x.w2 & !x.w3)
      | (x.w0 & !x.w1 & !x.w2 & x.w3) | (!x.w0 & x.w1 & !x.w2 & x.w3) | (!x.w0 & !x.w1 & x.w2 & x.w3) | (!x.w0 & x.w1 & x.w2 & x.w3)
  {}

  lemma S1Table1(x: Quad)
    ensures Plane(Table1, x, 1) == (!x.w0 & !x.w1 & !x.w2 & !x.w3) | (!x.w0 & x.w1 & !x.w2 & !x.w3) | (x.w0 & x.w1 & !x.w2 & !x.w3) | (x.w0 & x.w1 & x.w2 & !x.w3)
      | (x.w0 & !x.w1 & !x.w2 & x.w3) | (!x.w0 & x.w1 & !x.w2 & x.w3) | (!x.w0 & !x.w1 & x.w2 & x.w3) | (!x.w0 & x.w1 & x.w2 & x.w3)
  {}

  lemma S1Circuit2(x: Quad)
    ensures S1(x).w2 == (!x.w0 & !x.w1 & !x.w2 & !x.w3) | (x.w0 & !x.w1 & !x.w2 & !x.w3) | (x.w0 & x.w1 & !x.w2 & !x.w3) | (!x.w0 & x.w1 & x.w2 & !x.w3)
      | (!x.w0 & x.w1 & !x.w2 & x.w3) | (!x.w0 & !x.w1 & x.w2 & x.w3) | (x.w0 & !x.w1 & x.w2 & x.w3) | (x.w0 & x.w1 & x.w2 & x.w3)
  {}

  lemma S1Table2(x: Quad)
    ensures Plane(Table1, x, 2) == (!x.w0 & !x.w1 & !x.w2 & !x.w3) | (x.w0 & !x.w1 & !x.w2 & !x.w3) | (x.w0 & x.w1 & !x.w2 & !x.w3) | (!x.w0 & x.w1 & x.w2 & !x.w3)
      | (!x.w0 & x.w1 & !x.w2 & x.w3) | (!x.w0 & !x.w1 & x.w2 & x.w3) | (x.w0 & !x.w1 & x.w2 & x.w3) | (x.w0 & x.w1 & x.w2 & x.w3)
  {}

  lemma S1Circuit3(x: Quad)
    ensures S1(x).w3 == (!x.w0 & !x.w1 & !x.w2 & !x.w3) | (x.w0 & !x.w1 & !x.w2 & !x.w3) | (!x.w0 & !x.w1 & x.w2 & !x.w3) | (x.w0 & x.w1 & x.w2 & !x.w3)
      | (x.w0 & !x.w1 & !x.w2 & x.w3) | (!x.w0 & x.w1 & !x.w2 & x.w3) | (x.w0 & x.w1 & !x.w2 & x.w3) | (x.w0 & !x.w1 & x.w2 & x.w3)
  {}

  lemma S1Table3(x: Quad)
    ensures Plane(Table1, x, 3) == (!x.w0 & !x.w1 & !x.w2 & !x.w3) | (x.w0 & !x.w1 & !x.w2 & !x.w3) | (!x.w0 & !x.w1 & x.w2 & !x.w3) | (x.w0 & x.w1 & x.w2 & !x.w3)
      | (x.w0 & !x.w1 & !x.w2 & x.w3) | (!x.w0 & x.w1 & !x.w2 & x.w3) | (x.w0 & x.w1 & !x.w2 & x.w3) | (x.w0 & !x.w1 & x.w2 & x.w3)
  {}

  /** The S1 program computes table S1 at every bit position. */
  lemma S1IsTable(x: Quad)
    ensures S1(x) == Bitslice(Table1, x)
  {
    S1Circuit0(x); S1Table0(x); S1Circuit1(x); S1Table1(x); S1Circuit2(x); S1Table2(x); S1Circuit3(x); S1Table3(x);
  }

  lemma S2Circuit0(x: Quad)
    ensures S2(x).w0 == (!x.w0 & x.w1 & !x.w2 & !x.w3) | (x.w0 & x.w1 & !x.w2 & !x.w3) | (!x.w0 & !x.w1 & x.w2 & !x.w3) | (x.w0 & x.w1 & x.w2 & !x.w3)
      | (!x.w0 & !x.w1 & !x.w2 & x.w3) | (x.w0 & !x.w1 & !x.w2 & x.w3) | (x.w0 & !x.w1 & x.w2 & x.w3) | (!x.w0 & x.w1 & x.w2 & x.w3)
  {}

  lemma S2Table0(x: Quad)
    ensures Plane(Table2, x, 0) == (!x.w0 & x.w1 & !x.w2 & !x.w3) | (x.w0 & x.w1 & !x.w2 & !x.w3) | (!x.w0 & !x.w1 & x.w2 & !x.w3) | (x.w0 & x.w1 & x.w2 & !x.w3)
      | (!x.w0 & !x.w1 & !x.w2 & x.w3) | (x.w0 & !x.w1 & !x.w2 & x.w3) | (x.w0 & !x.w1 & x.w2 & x.w3) | (!x.w0 & x.w1 & x.w2 & x.w3)
  {}

  lemma S2Circuit1(x: Quad)
    ensures S2(x).w1 == (x.w0 & !x.w1 & !x.w2 & !x.w3) | (!x.w0 & x.w1 & !x.w2 & !x.w3) | (!x.w0 & !x.w1 & x.w2 & !x.w3) | (!x.w0 & x.w1 & x.w2 & !x.w3)
      | (x.w0 & x.w1 & x.w2 & !x.w3) | (!x.w0 & x.w1 & !x.w2 & x.w3) | (x.w0 & !x.w1 & x.w2 & x.w3) | (x.w0 & x.w1 & x.w2 & x.w3)
  {}

  lemma S2Table1(x: Quad)
    ensures Plane(Table2, x, 1) == (x.w0 & !x.w1 & !x.w2 & !x.w3) | (!x.w0 & x.w1 & !x.w2 & !x.w3) | (!x.w0 & !x.w1 & x.w2 & !x.w3) | (!x.w0 & x.w1 & x.w2 & !x.w3)
      | (x.w0 & x.w1 & x.w2 & !x.w3) | (!x.w0 & x.w1 & !x.w2 & x.w3) | (x.w0 & !x.w1 & x.w2 & x.w3) | (x.w0 & x.w1 & x.w2 & x.w3)
  {}

  lemma S2Circuit2(x: Quad)
    ensures S2(x).w2 == (x.w0 & !x.w1 & !x.w2 & !x.w3) | (!x.w0 & x.w1 & !x.w2 & !x.w3) | (x.w0 & !x.w1 & x.w2 & !x.w3) | (x.w0 & x.w1 & x.w2 & !x.w3)
      | (!x.w0 & !x.w1 & !x.w2 & x.w3) | (!x.w0 & x.w1 & !x.w2 & x.w3) | (x.w0 & x.w1 & !x.w2 & x.w3) | (!x.w0 & x.w1 & x.w2 & x.w3)
  {}

  lemma S2Table2(x: Quad)
    ensures Plane(Table2, x, 2) == (x.w0 & !x.w1 & !x.w2 & !x.w3) | (!x.w0 & x.w1 & !x.w2 & !x.w3) | (x.w0 & !x.w1 & x.w2 & !x.w3) | (x.w0 & x.w1 & x.w2 & !x.w3)
      | (!x.w0 & !x.w1 & !x.w2 & x.w3) | (!x.w0 & x.w1 & !x.w2 & x.w3) | (x.w0 & x.w1 & !x.w2 & x.w3) | (!x.w0 & x.w1 & x.w2 & x.w3)
  {}

  lemma S2Circuit3(x: Quad)
    ensures S2(x).w3 == (!x.w0 & !x.w1 & !x.w2 & !x.w3) | (x.w0 & x.w1 & !x.w2 & !x.w3) | (x.w0 & !x.w1 & x.w2 & !x.w3) | (!x.w0 & x.w1 & x.w2 & !x.w3)
      | (x.w0 & x.w1 & x.w2 & !x.w3) | (!x.w0 & !x.w1 & !x.w2 & x.w3) | (!x.w0 & x.w1 & !x.w2 & x.w3) | (x.w0 & !x.w1 & x.w2 & x.w3)
  {}

  lemma S2Table3(x: Quad)
    ensures Plane(Table2, x, 3) == (!x.w0 & !x.w1 & !x.w2 & !x.w3) | (x.w0 & x.w1 & !x.w2 & !x.w3) | (x.w0 & !x.w1 & x.w2 & !x.w3) | (!x.w0 & x.w1 & x.w2 & !x.w3)
      | (x.w0 & x.w1 & x.w2 & !x.w3) | (!x.w0 & !x.w1 & !x.w2 & x.w3) | (!x.w0 & x.w1 & !x.w2 & x.w3) | (x.w0 & !x.w1 & x.w2 & x.w3)
  {}

  /** The S2 program computes table S2 at every bit position. */
  lemma S2IsTable(x: Quad)
    ensures S2(x) == Bitslice(Table2, x)
  {
    S2Circuit0(x); S2Table0(x); S2Circuit1(x); S2Table1(x); S2Circuit2(x); S2Table2(x); S2Circuit3(x); S2Table3(x);
  }

  lemma S3Circuit0(x: Quad)
    ensures S3(x).w0 == (x.w0 & !x.w1 & !x.w2 & !x.w3) | (!x.w0 & x.w1 & !x.w2 & !x.w3) | (x.w0 & !x.w1 & x.w2 & !x.w3) | (x.w0 & x.w1 & x.w2 & !x.w3)
      | (!x.w0 & !x.w1 & !x.w2 & x.w3) | (x.w0 & !x.w1 & !x.w2 & x.w3) | (x.w0 & !x.w1 & x.w2 & x.w3) | (!x.w0 & x.w1 & x.w2 & x.w3)
  {}

  lemma S3Table0(x: Quad)
    ensures Plane(Table3, x, 0) == (x.w0 & !x.w1 & !x.w2 & !x.w3) | (!x.w0 & x.w1 & !x.w2 & !x.w3) | (x.w0 & !x.w1 & x.w2 & !x.w3) | (x.w0 & x.w1 & x.w2 & !x.w3)
      | (!x.w0 & !x.w1 & !x.w2 & x.w3) | (x.w0 & !x.w1 & !x.w2 & x.w3) | (x.w0 & !x.w1 & x.w2 & x.w3) | (!x.w0 & x.w1 & x.w2 & x.w3)
  {}

  lemma S3Circuit1(x: Quad)
    ensures S3(x).w1 == (x.w0 & !x.w1 & !x.w2 & !x.w3) | (!x.w0 & x.w1 & !x.w2 & !x.w3) | (!x.w0 & x.w1 & x.w2 & !x.w3) | (x.w0 & x.w1 & x.w2 & !x.w3)
      | (!x.w0 & x.w1 & !x.w2 & x.w3) | (!x.w0 & !x.w1 & x.w2 & x.w3) | (x.w0 & !x.w1 & x.w2 & x.w3) | (x.w0 & x.w1 & x.w2 & x.w3)
  {}

  lemma S3Table1(x: Quad)
    ensures Plane(Table3, x, 1) == (x.w0 & !x.w1 & !x.w2 & !x.w3) | (!x.w0 & x.w1 & !x.w2 & !x.w3) | (!x.w0 & x.w1 & x.w2 & !x.w3) | (x.w0 & x.w1 & x.w2 & !x.w3)
      | (!x.w0 & x.w1 & !x.w2 & x.w3) | (!x.w0 & !x.w1 & x.w2 & x.w3) | (x.w0 & !x.w1 & x.w2 & x.w3) | (x.w0 & x.w1 & x.w2 & x.w3)
  {}

  lemma S3Circuit2(x: Quad)
    ensures S3(x).w2 == (x.w0 & !x.w1 & !x.w2 & !x.w3) | (!x.w0 & !x.w1 & x.w2 & !x.w3) | (!x.w0 & x.w1 & x.w2 & !x.w3) | (!x.w0 & !x.w1 & !x.w2 & x.w3)
      | (x.w0 & x.w1 & !x.w2 & x.w3) | (x.w0 & !x.w1 & x.w2 & x.w3) | (!x.w0 & x.w1 & x.w2 & x.w3) | (x.w0 & x.w1 & x.w2 & x.w3)
  {}

  lemma S3Table2(x: Quad)
    ensures Plane(Table3, x, 2) == (x.w0 & !x.w1 & !x.w2 & !x.w3) | (!x.w0 & !x.w1 & x.w2 & !x.w3) | (!x.w0 & x.w1 & x.w2 & !x.w3) | (!x.w0 & !x.w1 & !x.w2 & x.w3)
      | (x.w0 & x.w1 & !x.w2 & x.w3) | (x.w0 & !x.w1 & x.w2 & x.w3) | (!x.w0 & x.w1 & x.w2 & x.w3) | (x.w0 & x.w1 & x.w2 & x.w3)
  {}

  lemma S3Circuit3(x: Quad)
    ensures S3(x).w3 == (x.w0 & !x.w1 & !x.w2 & !x.w3) | (!x.w0 & x.w1 & !x.w2 & !x.w3) | (x.w0 & x.w1 & !x.w2 & !x.w3) | (!x.w0 & !x.w1 & x.w2 & !x.w3)
      | (x.w0 & !x.w1 & x.w2 & !x.w3) | (!x.w0 & !x.w1 & !x.w2 & x.w3) | (!x.w0 & !x.w1 & x.w2 & x.w3) | (x.w0 & x.w1 & x.w2 & x.w3)
  {}

  lemma S3Table3(x: Quad)
    ensures Plane(Table3, x, 3) == (x.w0 & !x.w1 & !x.w2 & !x.w3) | (!x.w0 & x.w1 & !x.w2 & !x.w3) | (x.w0 & x.w1 & !x.w2 & !x.w3) | (!x.w0 & !x.w1 & x.w2 & !x.w3)
      | (x.w0 & !x.w1 & x.w2 & !x.w3) | (!x.w0 & !x.w1 & !x.w2 & x.w3) | (!x.w0 & !x.w1 & x.w2 & x.w3) | (x.w0 & x.w1 & x.w2 & x.w3)
  {}

  /** The S3 program computes table S3 at every bit position. */
  lemma S3IsTable(x: Quad)
    ensures S3(x) == Bitslice(Table3, x)
  {
    S3Circuit0(x); S3Table0(x); S3Circuit1(x); S3Table1(x); S3Circuit2(x); S3Table2(x); S3Circuit3(x); S3Table3(x);
  }

  lemma S4Circuit0(x: Quad)
    ensures S4(x).w0 == (!x.w0 & !x.w1 & !x.w2 & !x.w3) | (x.w0 & !x.w1 & !x.w2 & !x.w3) | (x.w0 & x.w1 & !x.w2 & !x.w3) | (!x.w0 & x.w1 & x.w2 & !x.w3)
      | (x.w0 & !x.w1 & !x.w2 & x.w3) | (!x.w0 & !x.w1 & x.w2 & x.w3) | (!x.w0 & x.w1 & x.w2 & x.w3) | (x.w0 & x.w1 & x.w2 & x.w3)
  {}

  lemma S4Table0(x: Quad)
    ensures Plane(Table4, x, 0) == (!x.w0 & !x.w1 & !x.w2 & !x.w3) | (x.w0 & !x.w1 & !x.w2 & !x.w3) | (x.w0 & x.w1 & !x.w2 & !x.w3) | (!x.w0 & x.w1 & x.w2 & !x.w3)
      | (x.w0 & !x.w1 & !x.w2 & x.w3) | (!x.w0 & !x.w1 & x.w2 & x.w3) | (!x.w0 & x.w1 & x.w2 & x.w3) | (x.w0 & x.w1 & x.w2 & x.w3)
  {}

  lemma S4Circuit1(x: Quad)
    ensures S4(x).w1 == (x.w0 & !x.w1 & !x.w2 & !x.w3) | (x.w0 & x.w1 & !x.w2 & !x.w3) | (!x.w0 & x.w1 & x.w2 & !x.w3) | (x.w0 & x.w1 & x.w2 & !x.w3)
      | (!x.w0 & !x.w1 & !x.w2 & x.w3) | (x.w0 & x.w1 & !x.w2 & x.w3) | (x.w0 & !x.w1 & x.w2 & x.w3) | (!x.w0 & x.w1 & x.w2 & x.w3)
  {}

  lemma S4Table1(x: Quad)
    ensures Plane(Table4, x, 1) == (x.w0 & !x.w1 & !x.w2 & !x.w3) | (x.w0 & x.w1 & !x.w2 & !x.w3) | (!x.w0 & x.w1 & x.w2 & !x.w3) | (x.w0 & x.w1 & x.w2 & !x.w3)
      | (!x.w0 & !x.w1 & !x.w2 & x.w3) | (x.w0 & x.w1 & !x.w2 & x.w3) | (x.w0 & !x.w1 & x.w2 & x.w3) | (!x.w0 & x.w1 & x.w2 & x.w3)
  {}

  lemma S4Circuit2(x: Quad)
    ensures S4(x).w2 == (x.w0 & !x.w1 & !x.w2 & !x.w3) | (!x.w0 & !x.w1 & x.w2 & !x.w3) | (x.w0 & x.w1 & x.w2 & !x.w3) | (x.w0 & !x.w1 & !x.w2 & x.w3)
      | (!x.w0 & x.w1 & !x.w2 & x.w3) | (x.w0 & !x.w1 & x.w2 & x.w3) | (!x.w0 & x.w1 & x.w2 & x.w3) | (x.w0 & x.w1 & x.w2 & x.w3)
  {}

  lemma S4Table2(x: Quad)
    ensures Plane(Table4, x, 2) == (x.w0 & !x.w1 & !x.w2 & !x.w3) | (!x.w0 & !x.w1 & x.w2 & !x.w3) | (x.w0 & x.w1 & x.w2 & !x.w3) | (x.w0 & !x.w1 & !x.w2 & x.w3)
      | (!x.w0 & x.w1 & !x.w2 & x.w3) | (x.w0 & !x.w1 & x.w2 & x.w3) | (!x.w0 & x.w1 & x.w2 & x.w3) | (x.w0 & x.w1 & x.w2 & x.w3)
  {}

  lemma S4Circuit3(x: Quad)
    ensures S4(x).w3 == (x.w0 & !x.w1 & !x.w2 & !x.w3) | (!x.w0 & x.w1 & !x.w2 & !x.w3) | (!x.w0 & !x.w1 & x.w2 & !x.w3) | (!x.w0 & x.w1 & x.w2 & !x.w3)
      | (x.w0 & x.w1 & !x.w2 & x.w3) | (!x.w0 & !x.w1 & x.w2 & x.w3) | (x.w0 & !x.w1 & x.w2 & x.w3) | (x.w0 & x.w1 & x.w2 & x.w3)
  {}

  lemma S4Table3(x: Quad)
    ensures Plane(Table4, x, 3) == (x.w0 & !x.w1 & !x.w2 & !x.w3) | (!x.w0 & x.w1 & !x.w2 & !x.w3) | (!x.w0 & !x.w1 & x.w2 & !x.w3) | (!x.w0 & x.w1 & x.w2 & !x.w3)
      | (x.w0 & x.w1 & !x.w2 & x.w3) | (!x.w0 & !x.w1 & x.w2 & x.w3) | (x.w0 & !x.w1 & x.w2 & x.w3) | (x.w0 & x.w1 & x.w2 & x.w3)
  {}

  /** The S4 program computes table S4 at every bit position. */
  lemma S4IsTable(x: Quad)
    ensures S4(x) == Bitslice(Table4, x)
  {
    S4Circuit0(x); S4Table0(x); S4Circuit1(x); S4Table1(x); S4Circuit2(x); S4Table2(x); S4Circuit3(x); S4Table3(x);
  }

  lemma S5Circuit0(x: Quad)
    ensures S5(x).w0 == (!x.w0 & !x.w1 & !x.w2 & !x.w3) | (x.w0 & !x.w1 & !x.w2 & !x.w3) | (x.w0 & x.w1 & !x.w2 & !x.w3) | (!x.w0 & x.w1 & x.w2 & !x.w3)
      | (x.w0 & !x.w1 & !x.w2 & x.w3) | (!x.w0 & !x.w1 & x.w2 & x.w3) | (!x.w0 & x.w1 & x.w2 & x.w3) | (x.w0 & x.w1 & x.w2 & x.w3)
  {}

  lemma S5Table0(x: Quad)
    ensures Plane(Table5, x, 0) == (!x.w0 & !x.w1 & !x.w2 & !x.w3) | (x.w0 & !x.w1 & !x.w2 & !x.w3) | (x.w0 & x.w1 & !x.w2 & !x.w3) | (!x.w0 & x.w1 & x.w2 & !x.w3)
      | (x.w0 & !x.w1 & !x.w2 & x.w3) | (!x.w0 & !x.w1 & x.w2 & x.w3) | (!x.w0 & x.w1 & x.w2 & x.w3) | (x.w0 & x.w1 & x.w2 & x.w3)
  {}

  lemma S5Circuit1(x: Quad)
    ensures S5(x).w1 == (!x.w0 & !x.w1 & !x.w2 & !x.w3) | (!x.w0 & x.w1 & !x.w2 & !x.w3) | (x.w0 & x.w1 & !x.w2 & !x.w3) | (x.w0 & !x.w1 & x.w2 & !x.w3)
      | (x.w0 & !x.w1 & !x.w2 & x.w3) | (!x.w0 & x.w1 & !x.w2 & x.w3) | (x.w0 & !x.w1 & x.w2 & x.w3) | (!x.w0 & x.w1 & x.w2 & x.w3)
  {}

  lemma S5Table1(x: Quad)
    ensures Plane(Table5, x, 1) == (!x.w0 & !x.w1 & !x.w2 & !x.w3) | (!x.w0 & x.w1 & !x.w2 & !x.w3) | (x.w0 & x.w1 & !x.w2 & !x.w3) | (x.w0 & !x.w1 & x.w2 & !x.w3)
      | (x.w0 & !x.w1 & !x.w2 & x.w3) | (!x.w0 & x.w1 & !x.w2 & x.w3) | (x.w0 & !x.w1 & x.w2 & x.w3) | (!x.w0 & x.w1 & x.w2 & x.w3)
  {}

  lemma S5Circuit2(x: Quad)
    ensures S5(x).w2 == (!x.w0 & !x.w1 & !x.w2 & !x.w3) | (x.w0 & !x.w1 & !x.w2 & !x.w3) | (!x.w0 & !x.w1 & x.w2 & !x.w3) | (x.w0 & x.w1 & x.w2 & !x.w3)
      | (!x.w0 & x.w1 & !x.w2 & x.w3) | (!x.w0 & !x.w1 & x.w2 & x.w3) | (x.w0 & !x.w1 & x.w2 & x.w3) | (!x.w0 & x.w1 & x.w2 & x.w3)
  {}

  lemma S5Table2(x: Quad)
    ensures Plane(Table5, x, 2) == (!x.w0 & !x.w1 & !x.w2 & !x.w3) | (x.w0 & !x.w1 & !x.w2 & !x.w3) | (!x.w0 & !x.w1 & x.w2 & !x.w3) | (x.w0 & x.w1 & x.w2 & !x.w3)
      | (!x.w0 & x.w1 & !x.w2 & x.w3) | (!x.w0 & !x.w1 & x.w2 & x.w3) | (x.w0 & !x.w1 & x.w2 & x.w3) | (!x.w0 & x.w1 & x.w2 & x.w3)
  {}

  lemma S5Circuit3(x: Quad)
    ensures S5(x).w3 == (!x.w0 & !x.w1 & !x.w2 & !x.w3) | (x.w0 & x.w1 & !x.w2 & !x.w3) | (x.w0 & !x.w1 & x.w2 & !x.w3) | (!x.w0 & x.w1 & x.w2 & !x.w3)
      | (x.w0 & x.w1 & x.w2 & !x.w3) | (!x.w0 & x.w1 & !x.w2 & x.w3) | (x.w0 & x.w1 & !x.w2 & x.w3) | (!x.w0 & !x.w1 & x.w2 & x.w3)
  {}

  lemma S5Table3(x: Quad)
    ensures Plane(Table5, x, 3) == (!x.w0 & !x.w1 & !x.w2 & !x.w3) | (x.w0 & x.w1 & !x.w2 & !x.w3) | (x.w0 & !x.w1 & x.w2 & !x.w3) | (!x.w0 & x.w1 & x.w2 & !x.w3)
      | (x.w0 & x.w1 & x.w2 & !x.w3) | (!x.w0 & x.w1 & !x.w2 & x.w3) | (x.w0 & x.w1 & !x.w2 & x.w3) | (!x.w0 & !x.w1 & x.w2 & x.w3)
  {}

  /** The S5 program computes table S5 at every bit position. */
  lemma S5IsTable(x: Quad)
    ensures S5(x) == Bitslice(Table5, x)
  {
    S5Circuit0(x); S5Table0(x); S5Circuit1(x); S5Table1(x); S5Circuit2(x); S5Table2(x); S5Circuit3(x); S5Table3(x);
  }

  lemma S6Circuit0(x: Quad)
    ensures S6(x).w0 == (!x.w0 & !x.w1 & !x.w2 & !x.w3) | (x.w0 & x.w1 & !x.w2 & !x.w3) | (x.w0 & x.w1 & x.w2 & !x.w3) | (x.w0 & !x.w1 & !x.w2 & x.w3)
      | (!x.w0 & x.w1 & !x.w2 & x.w3) | (x.w0 & x.w1 & !x.w2 & x.w3) | (!x.w0 & !x.w1 & x.w2 & x.w3) | (x.w0 & !x.w1 & x.w2 & x.w3)
  {}

  lemma S6Table0(x: Quad)
    ensures Plane(Table6, x, 0) == (!x.w0 & !x.w1 & !x.w2 & !x.w3) | (x.w0 & x.w1 & !x.w2 & !x.w3) | (x.w0 & x.w1 & x.w2 & !x.w3) | (x.w0 & !x.w1 & !x.w2 & x.w3)
      | (!x.w0 & x.w1 & !x.w2 & x.w3) | (x.w0 & x.w1 & !x.w2 & x.w3) | (!x.w0 & !x.w1 & x.w2 & x.w3) | (x.w0 & !x.w1 & x.w2 & x.w3)
  {}

  lemma S6Circuit1(x: Quad)
    ensures S6(x).w1 == (!x.w0 & !x.w1 & !x.w2 & !x.w3) | (x.w0 & !x.w1 & !x.w2 & !x.w3) | (!x.w0 & x.w1 & x.w2 & !x.w3) | (x.w0 & x.w1 & x.w2 & !x.w3)
      | (!x.w0 & !x.w1 & !x.w2 & x.w3) | (x.w0 & x.w1 & !x.w2 & x.w3) | (x.w0 & !x.w1 & x.w2 & x.w3) | (!x.w0 & x.w1 & x.w2 & x.w3)
  {}

  lemma S6Table1(x: Quad)
    ensures Plane(Table6, x, 1) == (!x.w0 & !x.w1 & !x.w2 & !x.w3) | (x.w0 & !x.w1 & !x.w2 & !x.w3) | (!x.w0 & x.w1 & x.w2 & !x.w3) | (x.w0 & x.w1 & x.w2 & !x.w3)
      | (!x.w0 & !x.w1 & !x.w2 & x.w3) | (x.w0 & x.w1 & !x.w2 & x.w3) | (x.w0 & !x.w1 & x.w2 & x.w3) | (!x.w0 & x.w1 & x.w2 & x.w3)
  {}

  lemma S6Circuit2(x: Quad)
    ensures S6(x).w2 == (!x.w0 & !x.w1 & !x.w2 & !x.w3) | (!x.w0 & x.w1 & !x.w2 & !x.w3) | (x.w0 & x.w1 & !x.w2 & !x.w3) | (x.w0 & !x.w1 & x.w2 & !x.w3)
      | (!x.w0 & x.w1 & x.w2 & !x.w3) | (!x.w0 & !x.w1 & !x.w2 & x.w3) | (x.w0 & x.w1 & !x.w2 & x.w3) | (!x.w0 & !x.w1 & x.w2 & x.w3)
  {}

  lemma S6Table2(x: Quad)
    ensures Plane(Table6, x, 2) == (!x.w0 & !x.w1 & !x.w2 & !x.w3) | (!x.w0 & x.w1 & !x.w2 & !x.w3) | (x.w0 & x.w1 & !x.w2 & !x.w3) | (x.w0 & !x.w1 & x.w2 & !x.w3)
      | (!x.w0 & x.w1 & x.w2 & !x.w3) | (!x.w0 & !x.w1 & !x.w2 & x.w3) | (x.w0 & x.w1 & !x.w2 & x.w3) | (!x.w0 & !x.w1 & x.w2 & x.w3)
  {}

  lemma S6Circuit3(x: Quad)
    ensures S6(x).w3 == (!x.w0 & x.w1 & !x.w2 & !x.w3) | (!x.w0 & !x.w1 & x.w2 & !x.w3) | (x.w0 & x.w1 & x.w2 & !x.w3) | (!x.w0 & !x.w1 & !x.w2 & x.w3)
      | (x.w0 & !x.w1 & !x.w2 & x.w3) | (x.w0 & x.w1 & !x.w2 & x.w3) | (!x.w0 & !x.w1 & x.w2 & x.w3) | (!x.w0 & x.w1 & x.w2 & x.w3)
  {}

  lemma S6Table3(x: Quad)
    ensures Plane(Table6, x, 3) == (!x.w0 & x.w1 & !x.w2 & !x.w3) | (!x.w0 & !x.w1 & x.w2 & !x.w3) | (x.w0 & x.w1 & x.w2 & !x.w3) | (!x.w0 & !x.w1 & !x.w2 & x.w3)
      | (x.w0 & !x.w1 & !x.w2 & x.w3) | (x.w0 & x.w1 & !x.w2 & x.w3) | (!x.w0 & !x.w1 & x.w2 & x.w3) | (!x.w0 & x.w1 & x.w2 & x.w3)
  {}

  /** The S6 program computes table S6 at every bit position. */
  lemma S6IsTable(x: Quad)
    ensures S6(x) == Bitslice(Table6, x)
  {
    S6Circuit0(x); S6Table0(x); S6Circuit1(x); S6Table1(x); S6Circuit2(x); S6Table2(x); S6Circuit3(x); S6Table3(x);
  }

  lemma S7Circuit0(x: Quad)
    ensures S7(x).w0 == (!x.w0 & !x.w1 & !x.w2 & !x.w3) | (x.w0 & !x.w1 & !x.w2 & !x.w3) | (!x.w0 & x.w1 & !x.w2 & !x.w3) | (x.w0 & x.w1 & x.w2 & !x.w3)
      | (!x.w0 & !x.w1 & !x.w2 & x.w3) | (!x.w0 & !x.w1 & x.w2 & x.w3) | (x.w0 & !x.w1 & x.w2 & x.w3) | (!x.w0 & x.w1 & x.w2 & x.w3)
  {}

  lemma S7Table0(x: Quad)
    ensures Plane(Table7, x, 0) == (!x.w0 & !x.w1 & !x.w2 & !x.w3) | (x.w0 & !x.w1 & !x.w2 & !x.w3) | (!x.w0 & x.w1 & !x.w2 & !x.w3) | (x.w0 & x.w1 & x.w2 & !x.w3)
      | (!x.w0 & !x.w1 & !x.w2 & x.w3) | (!x.w0 & !x.w1 & x.w2 & x.w3) | (x.w0 & !x.w1 & x.w2 & x.w3) | (!x.w0 & x.w1 & x.w2 & x.w3)
  {}

  lemma S7Circuit1(x: Quad)
    ensures S7(x).w1 == (!x.w0 & x.w1 & !x.w2 & !x.w3) | (!x.w0 & !x.w1 & x.w2 & !x.w3) | (!x.w0 & x.w1 & x.w2 & !x.w3) | (x.w0 & x.w1 & x.w2 & !x.w3)
      | (!x.w0 & !x.w1 & !x.w2 & x.w3) | (x.w0 & x.w1 & !x.w2 & x.w3) | (x.w0 & !x.w1 & x.w2 & x.w3) | (x.w0 & x.w1 & x.w2 & x.w3)
  {}

  lemma S7Table1(x: Quad)
    ensures Plane(Table7, x, 1) == (!x.w0 & x.w1 & !x.w2 & !x.w3) | (!x.w0 & !x.w1 & x.w2 & !x.w3) | (!x.w0 & x.w1 & x.w2 & !x.w3) | (x.w0 & x.w1 & x.w2 & !x.w3)
      | (!x.w0 & !x.w1 & !x.w2 & x.w3) | (x.w0 & x.w1 & !x.w2 & x.w3) | (x.w0 & !x.w1 & x.w2 & x.w3) | (x.w0 & x.w1 & x.w2 & x.w3)
  {}

  lemma S7Circuit2(x: Quad)
    ensures S7(x).w2 == (x.w0 & !x.w1 & !x.w2 & !x.w3) | (!x.w0 & x.w1 & !x.w2 & !x.w3) | (!x.w0 & !x.w1 & x.w2 & !x.w3) | (!x.w0 & !x.w1 & !x.w2 & x.w3)
      | (x.w0 & !x.w1 & !x.w2 & x.w3) | (!x.w0 & x.w1 & !x.w2 & x.w3) | (!x.w0 & x.w1 & x.w2 & x.w3) | (x.w0 & x.w1 & x.w2 & x.w3)
  {}

  lemma S7Table2(x: Quad)
    ensures Plane(Table7, x, 2) == (x.w0 & !x.w1 & !x.w2 & !x.w3) | (!x.w0 & x.w1 & !x.w2 & !x.w3) | (!x.w0 & !x.w1 & x.w2 & !x.w3) | (!x.w0 & !x.w1 & !x.w2 & x.w3)
      | (x.w0 & !x.w1 & !x.w2 & x.w3) | (!x.w0 & x.w1 & !x.w2 & x.w3) | (!x.w0 & x.w1 & x.w2 & x.w3) | (x.w0 & x.w1 & x.w2 & x.w3)
  {}

  lemma S7Circuit3(x: Quad)
    ensures S7(x).w3 == (x.w0 & !x.w1 & !x.w2 & !x.w3) | (!x.w0 & x.w1 & !x.w2 & !x.w3) | (!x.w0 & !x.w1 & x.w2 & !x.w3) | (x.w0 & !x.w1 & x.w2 & !x.w3)
      | (x.w0 & x.w1 & x.w2 & !x.w3) | (!x.w0 & x.w1 & !x.w2 & x.w3) | (x.w0 & x.w1 & !x.w2 & x.w3) | (!x.w0 & !x.w1 & x.w2 & x.w3)
  {}

  lemma S7Table3(x: Quad)
    ensures Plane(Table7, x, 3) == (x.w0 & !x.w1 & !x.w2 & !x.w3) | (!x.w0 & x.w1 & !x.w2 & !x.w3) | (!x.w0 & !x.w1 & x.w2 & !x.w3) | (x.w0 & !x.w1 & x.w2 & !x.w3)
      | (x.w0 & x.w1 & x.w2 & !x.w3) | (!x.w0 & x.w1 & !x.w2 & x.w3) | (x.w0 & x.w1 & !x.w2 & x.w3) | (!x.w0 & !x.w1 & x.w2 & x.w3)
  {}

  /** The S7 program computes table S7 at every bit position. */
  lemma S7IsTable(x: Quad)
    ensures S7(x) == Bitslice(Table7, x)
  {
    S7Circuit0(x); S7Table0(x); S7Circuit1(x); S7Table1(x); S7Circuit2(x); S7Table2(x); S7Circuit3(x); S7Table3(x);
  }

  /** S-box i (taken mod 8), as the encryption rounds and the key schedule use it. */
  function SBox(i: nat, x: Quad): (y: Quad)
    ensures y == Bitslice(TableOf(i), x)
  {
    match i % 8
    case 0 => S0IsTable(x); S0(x)
    case 1 => S1IsTable(x); S1(x)
    case 2 => S2IsTable(x); S2(x)
    case 3 => S3IsTable(x); S3(x)
    case 4 => S4IsTable(x); S4(x)
    case 5 => S5IsTable(x); S5(x)
    case 6 => S6IsTable(x); S6(x)
    case _ => S7IsTable(x); S7(x)
  }
}
