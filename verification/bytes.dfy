/**
 * Byte strings and the integer encodings shared by every component: XOR of
 * equal-length strings, little- and big-endian values, fixed-width encoders
 * and the big-endian counter increment used by the CTR modes and the file
 * formats.
 */
module Bytes {

  import opened Arith

  type byte = bv8

  /** A 16-byte cipher block. */
  type Block = s: seq<byte> | |s| == 16 witness [0, 0, 0, 0, 0, 0, 0, 0, 0, 0, 0, 0, 0, 0, 0, 0]

  /** A block cipher under a fixed expanded key. */
  type BlockCipher = Block -> Block

  function Zeros(n: nat): (z: seq<byte>)
    ensures |z| == n
    ensures forall i | 0 <= i < n :: z[i] == 0
  {
    seq(n, _ => 0)
  }

  function Xor(a: seq<byte>, b: seq<byte>): (c: seq<byte>)
    requires |a| == |b|
    ensures |c| == |a|
    ensures forall i | 0 <= i < |a| :: c[i] == a[i] ^ b[i]
  {
    seq(|a|, i requires 0 <= i < |a| => a[i] ^ b[i])
  }

  /** XOR with the same string twice is the identity. */
  lemma {:induction false} XorTwice(a: seq<byte>, b: seq<byte>)
    requires |a| == |b|
    ensures Xor(Xor(a, b), b) == a
  {
    assert forall i | 0 <= i < |a| :: Xor(Xor(a, b), b)[i] == a[i];
  }

  lemma {:induction false} XorAppend(a: seq<byte>, b: seq<byte>, c: seq<byte>, d: seq<byte>)
    requires |a| == |c| && |b| == |d|
    ensures Xor(a + b, c + d) == Xor(a, c) + Xor(b, d)
  {
    assert forall i | 0 <= i < |a + b| :: Xor(a + b, c + d)[i] == (Xor(a, c) + Xor(b, d))[i];
  }

  /** Splitting a string and appending both parts to a prefix. */
  lemma {:induction false} AppendSplit<T>(m: seq<T>, d: seq<T>, k: nat)
    requires k <= |d|
    ensures m + d[..k] + d[k..] == m + d
  {
    assert d == d[..k] + d[k..];
  }

  lemma {:induction false} AppendRegroup<T>(a: seq<T>, b: seq<T>, d: seq<T>, k: nat)
    requires k <= |d|
    ensures a + (b + d[..k]) + d[k..] == a + b + d
  {
    assert d == d[..k] + d[k..];
  }

  function Pow256(n: nat): (p: nat)
    ensures p >= 1
  {
    if n == 0 then 1 else 256 * Pow256(n - 1)
  }

  lemma {:induction false} Pow256Add(m: nat, n: nat)
    ensures Pow256(m + n) == Pow256(m) * Pow256(n)
    decreases m
  {
    if m > 0 {
      Pow256Add(m - 1, n);
      calc {
        Pow256(m + n);
        256 * Pow256(m - 1 + n);
        256 * (Pow256(m - 1) * Pow256(n));
        (256 * Pow256(m - 1)) * Pow256(n);
      }
    }
  }

  /** The powers of 256 that the limb layouts and block sizes use. */
  lemma {:induction false} Pow256Values()
    ensures Pow256(2) == 0x1_0000
    ensures Pow256(4) == 0x1_0000_0000
    ensures Pow256(5) == 0x100_0000_0000
    ensures Pow256(6) == 0x1_0000_0000_0000
    ensures Pow256(8) == 0x1_0000_0000_0000_0000
    ensures Pow256(16) == 0x1_0000_0000_0000_0000_0000_0000_0000_0000
  {
    assert Pow256(1) == 0x100;
    assert Pow256(2) == 0x1_0000;
    assert Pow256(3) == 0x100_0000;
    assert Pow256(4) == 0x1_0000_0000;
    assert Pow256(5) == 0x100_0000_0000;
    assert Pow256(6) == 0x1_0000_0000_0000;
    assert Pow256(7) == 0x100_0000_0000_0000;
    assert Pow256(8) == 0x1_0000_0000_0000_0000;
    Pow256Add(8, 8);
  }

  /** Little-endian value: byte 0 is the least significant. */
  function LeValue(s: seq<byte>): (v: nat)
    ensures v < Pow256(|s|)
  {
    if |s| == 0 then 0 else s[0] as nat + 256 * LeValue(s[1..])
  }

  /** Big-endian value: the last byte is the least significant. */
  function BeValue(s: seq<byte>): (v: nat)
    ensures v < Pow256(|s|)
  {
    if |s| == 0 then 0 else 256 * BeValue(s[..|s| - 1]) + s[|s| - 1] as nat
  }

  lemma {:induction false} LeValueAppend(a: seq<byte>, b: seq<byte>)
    ensures LeValue(a + b) == LeValue(a) + Pow256(|a|) * LeValue(b)
    decreases |a|
  {
    if |a| > 0 {
      assert (a + b)[1..] == a[1..] + b;
      LeValueAppend(a[1..], b);
      var p := Pow256(|a| - 1);
      MulDistrib(256, LeValue(a[1..]), p * LeValue(b));
      MulAssoc(256, p, LeValue(b));
    } else {
      assert a + b == b;
    }
  }

  lemma {:induction false} BeValueAppend(a: seq<byte>, b: seq<byte>)
    ensures BeValue(a + b) == BeValue(a) * Pow256(|b|) + BeValue(b)
    decreases |b|
  {
    if |b| > 0 {
      var b' := b[..|b| - 1];
      assert (a + b)[..|a + b| - 1] == a + b';
      BeValueAppend(a, b');
      var p := Pow256(|b'|);
      MulDistrib(256, BeValue(a) * p, BeValue(b'));
      MulAssoc(256, BeValue(a), p);
      MulAssoc(BeValue(a), 256, p);
    } else {
      assert a + b == a;
    }
  }

  /** The n-byte little-endian encoding of v modulo 256^n. */
  function LeBytes(v: nat, n: nat): (s: seq<byte>)
    ensures |s| == n
  {
    if n == 0 then [] else [(v % 256) as byte] + LeBytes(v / 256, n - 1)
  }

  /** The n-byte big-endian encoding of v modulo 256^n. */
  function BeBytes(v: nat, n: nat): (s: seq<byte>)
    ensures |s| == n
  {
    if n == 0 then [] else BeBytes(v / 256, n - 1) + [(v % 256) as byte]
  }

  lemma {:induction false} LeBytesValue(v: nat, n: nat)
    ensures LeValue(LeBytes(v, n)) == v % Pow256(n)
    decreases n
  {
    if n > 0 {
      var s := LeBytes(v, n);
      assert s[1..] == LeBytes(v / 256, n - 1);
      LeBytesValue(v / 256, n - 1);
      ByteOfInt(v % 256);
      DivDiv(v, 256, Pow256(n - 1));
    }
  }

  lemma {:induction false} BeBytesValue(v: nat, n: nat)
    ensures BeValue(BeBytes(v, n)) == v % Pow256(n)
    decreases n
  {
    if n > 0 {
      var s := BeBytes(v, n);
      assert s[..n - 1] == BeBytes(v / 256, n - 1);
      BeBytesValue(v / 256, n - 1);
      ByteOfInt(v % 256);
      DivDiv(v, 256, Pow256(n - 1));
    }
  }

  /** A string is the encoding of its own value. */
  lemma {:induction false} LeValueBytes(s: seq<byte>)
    ensures LeBytes(LeValue(s), |s|) == s
    decreases |s|
  {
    if |s| > 0 {
      var v := LeValue(s);
      ModUnique(v, LeValue(s[1..]), s[0] as int, 256);
      LeValueBytes(s[1..]);
    }
  }

  lemma {:induction false} BeValueBytes(s: seq<byte>)
    ensures BeBytes(BeValue(s), |s|) == s
    decreases |s|
  {
    if |s| > 0 {
      var v := BeValue(s);
      ModUnique(v, BeValue(s[..|s| - 1]), s[|s| - 1] as int, 256);
      BeValueBytes(s[..|s| - 1]);
    }
  }

  /** Equal values of equal-length strings mean equal strings. */
  lemma {:induction false} LeValueInjective(a: seq<byte>, b: seq<byte>)
    requires |a| == |b| && LeValue(a) == LeValue(b)
    ensures a == b
  {
    LeValueBytes(a);
    LeValueBytes(b);
  }

  /**
   * Big-endian increment with wrap-around: bytes are incremented from the
   * last one towards the first while they overflow to zero.
   */
  function Increment(s: seq<byte>): (r: seq<byte>)
    ensures |r| == |s|
  {
    if |s| == 0 then []
    else if s[|s| - 1] == 0xff then Increment(s[..|s| - 1]) + [0]
    else s[..|s| - 1] + [s[|s| - 1] + 1]
  }

  lemma {:induction false} IncrementValue(s: seq<byte>)
    ensures BeValue(Increment(s)) == (BeValue(s) + 1) % Pow256(|s|)
    decreases |s|, 1
  {
    if |s| > 0 {
      IncrementStep(s);
    }
  }

  /** The inductive step of IncrementValue: a carry out of the last byte, or none. */
  lemma {:induction false} IncrementStep(s: seq<byte>)
    requires |s| > 0
    ensures BeValue(Increment(s)) == (BeValue(s) + 1) % Pow256(|s|)
    decreases |s|, 0
  {
    var init := s[..|s| - 1];
    if s[|s| - 1] == 0xff {
      IncrementValue(init);
      IncrementWraps(s);
    } else {
      IncrementBumps(s);
    }
  }

  /** A last byte of 0xff becomes 0 and carries into the rest. */
  lemma {:induction false} IncrementWraps(s: seq<byte>)
    requires |s| > 0 && s[|s| - 1] == 0xff
    requires var init := s[..|s| - 1];
      BeValue(Increment(init)) == (BeValue(init) + 1) % Pow256(|init|)
    ensures BeValue(Increment(s)) == (BeValue(s) + 1) % Pow256(|s|)
  {
    var init := s[..|s| - 1];
    var p, v := Pow256(|s| - 1), BeValue(init);
    var w := BeValue(Increment(init));
    assert Pow256(|s|) == 256 * p;
    assert BeValue(s) + 1 == 256 * (v + 1);
    assert BeValue(Increment(s)) == 256 * w by {
      assert Increment(s)[..|s| - 1] == Increment(init);
    }
    ModScale(v + 1, 256, p);
  }

  /** A last byte below 0xff is incremented and the rest kept. */
  lemma {:induction false} IncrementBumps(s: seq<byte>)
    requires |s| > 0 && s[|s| - 1] != 0xff
    ensures BeValue(Increment(s)) == (BeValue(s) + 1) % Pow256(|s|)
  {
    var init, last := s[..|s| - 1], s[|s| - 1];
    var p, v := Pow256(|s| - 1), BeValue(init);
    assert Pow256(|s|) == 256 * p;
    ByteSucc(last);
    assert Increment(s)[..|s| - 1] == init;
    assert BeValue(Increment(s)) == BeValue(s) + 1;
    MulMono(v + 1, p, 256);
    ModSmall(BeValue(s) + 1, Pow256(|s|));
  }

  /** The counter reached after j increments of c0. */
  function CounterAt(c0: seq<byte>, j: nat): (c: seq<byte>)
    ensures |c| == |c0|
  {
    if j == 0 then c0 else Increment(CounterAt(c0, j - 1))
  }

  lemma {:induction false} CounterAtValue(c0: seq<byte>, j: nat)
    ensures BeValue(CounterAt(c0, j)) == (BeValue(c0) + j) % Pow256(|c0|)
    decreases j
  {
    hide BeValue, Increment, Pow256;
    if j == 0 {
      ModSmall(BeValue(c0), Pow256(|c0|));
    } else {
      var m, prev := Pow256(|c0|), CounterAt(c0, j - 1);
      CounterAtValue(c0, j - 1);
      IncrementValue(prev);
      assert BeValue(CounterAt(c0, j)) == (BeValue(prev) + 1) % m;
      assert BeValue(prev) == (BeValue(c0) + j - 1) % m;
      ModAddLeft(BeValue(c0) + j - 1, 1, m);
    }
  }

  lemma {:induction false} CounterAtAdd(c0: seq<byte>, i: nat, j: nat)
    ensures CounterAt(CounterAt(c0, i), j) == CounterAt(c0, i + j)
    decreases j
  {
    hide Increment;
    if j > 0 {
      CounterAtAdd(c0, i, j - 1);
    }
  }

  /** The bytes after the last whole 16-byte block. */
  function Tail(s: seq<byte>): (t: seq<byte>)
    ensures |t| < 16
  {
    s[|s| - |s| % 16..]
  }

  lemma {:induction false} TailDrop(s: seq<byte>)
    requires |s| >= 16
    ensures Tail(s[16..]) == Tail(s)
  {
    ModAddMultiple(|s| - 16, 1, 16);
  }

  /** A string of whole blocks has no tail. */
  lemma {:induction false} TailWhole(s: seq<byte>)
    requires |s| % 16 == 0
    ensures Tail(s) == []
  {}
}
