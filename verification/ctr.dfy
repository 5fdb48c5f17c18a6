/**
 * Counter mode (section 6.5 of NIST SP 800-38A) as ctr-serpent.c runs it:
 * the counter block is encrypted and then advanced as a 128-bit big-endian
 * integer, and the unused tail of the last encrypted counter carries over
 * to the next call. The block cipher under the expanded key is the
 * parameter E.
 *
 * The reference is the keystream E(c0) || E(c0 + 1) || ...; every call is
 * the XOR of its input with the keystream at the running offset, so the
 * way the data is split over calls does not matter.
 */
module Ctr {
  import opened Arith
  import opened Bytes
  import Serpent

  /** Byte i of the keystream from the initial counter c0: byte i mod 16 of E(c0 + i / 16). */
  function KeyByte(E: BlockCipher, c0: Block, i: nat): byte
  {
    E(CounterAt(c0, i / 16))[i % 16]
  }

  /** The n keystream bytes starting at offset p. */
  function Keystream(E: BlockCipher, c0: Block, p: nat, n: nat): (k: seq<byte>)
    ensures |k| == n
  {
    seq(n, i requires 0 <= i < n => KeyByte(E, c0, p + i))
  }

  lemma {:induction false} KeystreamSplit(E: BlockCipher, c0: Block, p: nat, n1: nat, n2: nat)
    ensures Keystream(E, c0, p, n1 + n2) == Keystream(E, c0, p, n1) + Keystream(E, c0, p + n1, n2)
  {
    var k := Keystream(E, c0, p, n1 + n2);
    var k1 := Keystream(E, c0, p, n1);
    var k2 := Keystream(E, c0, p + n1, n2);
    forall i | 0 <= i < n1 + n2
      ensures k[i] == (k1 + k2)[i]
    {
      if i >= n1 {
        assert k2[i - n1] == KeyByte(E, c0, p + n1 + (i - n1));
      }
    }
  }

  /** Offsets 16 j + a, for a < 16, lie in block j at position a. */
  lemma {:induction false} BlockOffset(j: nat, a: nat)
    requires a < 16
    ensures (16 * j + a) / 16 == j && (16 * j + a) % 16 == a
  {
    ModUnique(16 * j + a, j, a, 16);
  }

  /** Inside one block the keystream is a slice of that block's encrypted counter. */
  lemma {:induction false} KeystreamInBlock(E: BlockCipher, c0: Block, j: nat, a: nat, n: nat)
    requires a + n <= 16
    ensures Keystream(E, c0, 16 * j + a, n) == E(CounterAt(c0, j))[a..a + n]
  {
    var ks := Keystream(E, c0, 16 * j + a, n);
    var blk := E(CounterAt(c0, j))[a..a + n];
    forall i | 0 <= i < n
      ensures ks[i] == blk[i]
    {
      assert KeyByte(E, c0, 16 * j + a + i) == E(CounterAt(c0, j))[a + i] by {
        BlockOffset(j, a + i);
      }
    }
  }

  /** Keystream block j is the encryption of counter c0 + j. */
  lemma {:induction false} KeystreamBlock(E: BlockCipher, c0: Block, j: nat)
    ensures Keystream(E, c0, 16 * j, 16) == E(CounterAt(c0, j))
  {
    hide Keystream, KeyByte, Increment, CounterAt;
    var e := E(CounterAt(c0, j));
    KeystreamInBlock(E, c0, j, 0, 16);
    assert 16 * j + 0 == 16 * j;
    assert e[0..16] == e;
  }

  /** struct ctr_serpent without the expanded key: counter, encrypted counter and its used bytes. */
  datatype State = State(ctr: Block, ctrenc: Block, used: nat)

  predicate Valid(s: State)
  {
    s.used < 16
  }

  datatype Output = Output(state: State, data: seq<byte>)

  /** ctr_serpent_init: the key is always expanded as a 32-byte key. */
  function Init(key: seq<byte>): (ks: Serpent.RoundKeys)
    requires |key| == 32
    ensures Serpent.ScheduleOf(key, ks)
  {
    var r := Serpent.SetKey(key);
    assert r.Success?;
    r.value
  }

  /** ctr_serpent_nonce: the counter is nonce[0..8] followed by eight zero bytes. */
  function Nonce(s: State, nonce: Block): (s': State)
    ensures Valid(s')
  {
    State(nonce[..8] + Zeros(8), s.ctrenc, 0)
  }

  /** The initial counter block for a nonce. */
  function Counter0(nonce: Block): Block
  {
    nonce[..8] + Zeros(8)
  }

  /**
   * The main loop and the tail of ctr_serpent_crypt from a block boundary:
   * each block of input encrypts the counter, advances it, and is XORed
   * with the result; a final partial block leaves its unused bytes for the
   * next call.
   */
  function Stream(E: BlockCipher, ctr: Block, enc: Block, rest: seq<byte>): (r: Output)
    ensures Valid(r.state) && |r.data| == |rest|
    decreases |rest|
  {
    if |rest| >= 16 then
      var e := E(ctr);
      var r := Stream(E, Increment(ctr), e, rest[16..]);
      Output(r.state, Xor(rest[..16], e) + r.data)
    else if |rest| > 0 then
      var e := E(ctr);
      Output(State(Increment(ctr), e, |rest|), Xor(rest, e[..|rest|]))
    else
      Output(State(ctr, enc, 0), [])
  }

  /** ctr_serpent_crypt: first the carried-over encrypted counter bytes, then whole blocks and a tail. */
  function Crypt(E: BlockCipher, s: State, src: seq<byte>): (r: Output)
    requires Valid(s)
    ensures Valid(r.state) && |r.data| == |src|
  {
    if s.used == 0 then
      Stream(E, s.ctr, s.ctrenc, src)
    else if s.used + |src| < 16 then
      Output(s.(used := s.used + |src|), Xor(src, s.ctrenc[s.used..s.used + |src|]))
    else
      var k := 16 - s.used;
      var r := Stream(E, s.ctr, s.ctrenc, src[k..]);
      Output(r.state, Xor(src[..k], s.ctrenc[s.used..]) + r.data)
  }

  /**
   * The state after p keystream bytes from c0: at a block boundary the
   * counter is the next block's; inside block j the counter has already
   * moved on to j + 1 and the encrypted counter holds block j.
   */
  ghost predicate At(E: BlockCipher, c0: Block, s: State, p: nat)
  {
    && s.used == p % 16
    && if p % 16 == 0 then s.ctr == CounterAt(c0, p / 16)
       else s.ctr == CounterAt(c0, p / 16 + 1) && s.ctrenc == E(CounterAt(c0, p / 16))
  }

  lemma {:induction false} AtBoundary(E: BlockCipher, c0: Block, s: State, j: nat)
    requires s.used == 0 && s.ctr == CounterAt(c0, j)
    ensures At(E, c0, s, 16 * j)
  {
    BlockOffset(j, 0);
  }

  lemma {:induction false} AtInside(E: BlockCipher, c0: Block, s: State, j: nat, a: nat)
    requires 0 < a < 16 && s.used == a
    requires s.ctr == CounterAt(c0, j + 1) && s.ctrenc == E(CounterAt(c0, j))
    ensures At(E, c0, s, 16 * j + a)
  {
    BlockOffset(j, a);
  }

  /** A freshly set nonce is at offset 0 of the keystream from nonce[0..8] || 0^8. */
  lemma {:induction false} NonceStarts(E: BlockCipher, s: State, nonce: Block)
    ensures At(E, Counter0(nonce), Nonce(s, nonce), 0)
  {}

  /** Nonce bytes 8 to 15 are ignored. */
  lemma {:induction false} NonceIgnoresTail(s: State, n1: Block, n2: Block)
    requires n1[..8] == n2[..8]
    ensures Nonce(s, n1) == Nonce(s, n2)
  {}

  /** One step of Stream on a whole block. */
  lemma {:induction false} StreamBlock(E: BlockCipher, ctr: Block, enc: Block, rest: seq<byte>)
    requires |rest| >= 16
    ensures Stream(E, ctr, enc, rest)
         == Output(Stream(E, Increment(ctr), E(ctr), rest[16..]).state,
                   Xor(rest[..16], E(ctr)) + Stream(E, Increment(ctr), E(ctr), rest[16..]).data)
  {
    hide Increment, Xor;
  }

  /** Stream on a final partial block, and on nothing. */
  lemma {:induction false} StreamTail(E: BlockCipher, ctr: Block, enc: Block, rest: seq<byte>)
    requires |rest| < 16
    ensures Stream(E, ctr, enc, rest)
         == if |rest| > 0 then Output(State(Increment(ctr), E(ctr), |rest|), Xor(rest, E(ctr)[..|rest|]))
            else Output(State(ctr, enc, 0), [])
  {
    hide Increment, Xor;
  }

  /** The output of a whole block followed by the rest, given the rest's output. */
  lemma {:induction false} StreamBlockMatches(E: BlockCipher, c0: Block, j: nat, enc: Block, rest: seq<byte>)
    requires |rest| >= 16
    requires Stream(E, CounterAt(c0, j + 1), E(CounterAt(c0, j)), rest[16..]).data
          == Xor(rest[16..], Keystream(E, c0, 16 * j + 16, |rest| - 16))
    ensures Stream(E, CounterAt(c0, j), enc, rest).data == Xor(rest, Keystream(E, c0, 16 * j, |rest|))
  {
    hide Increment, Keystream, KeyByte, Xor, Stream;
    var ctr := CounterAt(c0, j);
    var e := E(ctr);
    var k2 := Keystream(E, c0, 16 * j + 16, |rest| - 16);
    assert Increment(ctr) == CounterAt(c0, j + 1);
    StreamBlock(E, ctr, enc, rest);
    KeystreamSplit(E, c0, 16 * j, 16, |rest| - 16);
    KeystreamBlock(E, c0, j);
    XorAppend(rest[..16], rest[16..], e, k2);
    assert rest[..16] + rest[16..] == rest;
  }

  lemma {:induction false} StreamMatches(E: BlockCipher, c0: Block, j: nat, enc: Block, rest: seq<byte>)
    ensures Stream(E, CounterAt(c0, j), enc, rest).data == Xor(rest, Keystream(E, c0, 16 * j, |rest|))
    ensures At(E, c0, Stream(E, CounterAt(c0, j), enc, rest).state, 16 * j + |rest|)
    decreases |rest|
  {
    hide Increment, Keystream, KeyByte, Xor, Stream, At;
    var ctr := CounterAt(c0, j);
    var r := Stream(E, ctr, enc, rest);
    var n := |rest|;
    if n >= 16 {
      var e := E(ctr);
      assert Increment(ctr) == CounterAt(c0, j + 1);
      StreamBlock(E, ctr, enc, rest);
      StreamMatches(E, c0, j + 1, e, rest[16..]);
      assert 16 * (j + 1) == 16 * j + 16;
      StreamBlockMatches(E, c0, j, enc, rest);
      assert 16 * (j + 1) + (n - 16) == 16 * j + n;
    } else if n > 0 {
      StreamTail(E, ctr, enc, rest);
      var e := E(ctr);
      assert Increment(ctr) == CounterAt(c0, j + 1);
      KeystreamInBlock(E, c0, j, 0, n);
      assert 16 * j + 0 == 16 * j;
      AtInside(E, c0, r.state, j, n);
    } else {
      StreamTail(E, ctr, enc, rest);
      AtBoundary(E, c0, r.state, j);
    }
  }

  /** A call that stays inside the carried-over encrypted counter. */
  lemma {:induction false} CryptWithin(E: BlockCipher, c0: Block, s: State, p: nat, src: seq<byte>)
    requires Valid(s) && At(E, c0, s, p) && 0 < s.used && s.used + |src| < 16
    ensures Crypt(E, s, src).data == Xor(src, Keystream(E, c0, p, |src|))
    ensures At(E, c0, Crypt(E, s, src).state, p + |src|)
  {
    hide Increment, Keystream, KeyByte, Xor, CounterAt, Stream;
    var j := p / 16;
    var a := p % 16;
    var n := |src|;
    assert p == 16 * j + a;
    KeystreamInBlock(E, c0, j, a, n);
    assert p + n == 16 * j + (a + n);
    if n > 0 {
      AtInside(E, c0, Crypt(E, s, src).state, j, a + n);
    }
  }

  /** ctr_serpent_crypt when the carried-over bytes run out: their XOR, then Stream from the next block. */
  lemma {:induction false} CryptAcrossStep(E: BlockCipher, s: State, src: seq<byte>)
    requires Valid(s) && 0 < s.used && s.used + |src| >= 16
    ensures Crypt(E, s, src)
         == Output(Stream(E, s.ctr, s.ctrenc, src[16 - s.used..]).state,
                   Xor(src[..16 - s.used], s.ctrenc[s.used..]) + Stream(E, s.ctr, s.ctrenc, src[16 - s.used..]).data)
  {
    hide Stream, Xor;
  }

  /** The output of a call that uses up the carried-over encrypted counter and continues from the next block. */
  lemma {:induction false} CryptAcrossData(E: BlockCipher, c0: Block, s: State, p: nat, src: seq<byte>)
    requires Valid(s) && At(E, c0, s, p) && 0 < s.used && s.used + |src| >= 16
    ensures Crypt(E, s, src).data == Xor(src, Keystream(E, c0, p, |src|))
  {
    hide Increment, Keystream, KeyByte, Xor, CounterAt, Stream, Crypt;
    var j := p / 16;
    var a := p % 16;
    var n := |src|;
    var k := 16 - a;
    assert p == 16 * j + a;
    CryptAcrossStep(E, s, src);
    KeystreamInBlock(E, c0, j, a, k);
    assert s.ctrenc[s.used..] == s.ctrenc[a..a + k];
    StreamMatches(E, c0, j + 1, s.ctrenc, src[k..]);
    assert 16 * (j + 1) == p + k;
    KeystreamSplit(E, c0, p, k, n - k);
    assert src == src[..k] + src[k..];
    XorAppend(src[..k], src[k..], Keystream(E, c0, p, k), Keystream(E, c0, p + k, n - k));
  }

  /** The state after such a call. */
  lemma {:induction false} CryptAcrossAt(E: BlockCipher, c0: Block, s: State, p: nat, src: seq<byte>)
    requires Valid(s) && At(E, c0, s, p) && 0 < s.used && s.used + |src| >= 16
    ensures At(E, c0, Crypt(E, s, src).state, p + |src|)
  {
    hide Increment, Keystream, KeyByte, Xor, CounterAt, Stream, Crypt;
    var j := p / 16;
    var a := p % 16;
    var k := 16 - a;
    assert p == 16 * j + a;
    CryptAcrossStep(E, s, src);
    StreamMatches(E, c0, j + 1, s.ctrenc, src[k..]);
    assert 16 * (j + 1) + (|src| - k) == p + |src|;
  }

  /** ctr_serpent_crypt XORs its input with the keystream at the running offset and moves the offset on. */
  lemma {:induction false} CryptMatches(E: BlockCipher, c0: Block, s: State, p: nat, src: seq<byte>)
    requires Valid(s) && At(E, c0, s, p)
    ensures Crypt(E, s, src).data == Xor(src, Keystream(E, c0, p, |src|))
    ensures At(E, c0, Crypt(E, s, src).state, p + |src|)
  {
    hide Increment, Keystream, KeyByte, Xor, CounterAt, Stream;
    if s.used == 0 {
      assert p == 16 * (p / 16);
      StreamMatches(E, c0, p / 16, s.ctrenc, src);
    } else if s.used + |src| < 16 {
      CryptWithin(E, c0, s, p, src);
    } else {
      CryptAcrossData(E, c0, s, p, src);
      CryptAcrossAt(E, c0, s, p, src);
    }
  }

  /** Splitting the data over two calls gives the output and keystream position of one call. */
  lemma {:induction false} CryptSplit(E: BlockCipher, c0: Block, s: State, p: nat, a: seq<byte>, b: seq<byte>)
    requires Valid(s) && At(E, c0, s, p)
    ensures Crypt(E, s, a).data + Crypt(E, Crypt(E, s, a).state, b).data == Crypt(E, s, a + b).data
    ensures At(E, c0, Crypt(E, Crypt(E, s, a).state, b).state, p + |a + b|)
  {
    hide Increment, Keystream, KeyByte, Xor, CounterAt, Crypt, Stream;
    var s1 := Crypt(E, s, a).state;
    CryptMatches(E, c0, s, p, a);
    CryptMatches(E, c0, s1, p + |a|, b);
    CryptMatches(E, c0, s, p, a + b);
    KeystreamSplit(E, c0, p, |a|, |b|);
    XorAppend(a, b, Keystream(E, c0, p, |a|), Keystream(E, c0, p + |a|, |b|));
  }

  /** Running the mode again from the same state restores the input. */
  lemma {:induction false} CryptTwice(E: BlockCipher, c0: Block, s: State, p: nat, src: seq<byte>)
    requires Valid(s) && At(E, c0, s, p)
    ensures Crypt(E, s, Crypt(E, s, src).data).data == src
  {
    hide Increment, Keystream, KeyByte, Xor, CounterAt, Crypt, Stream;
    var ct := Crypt(E, s, src).data;
    CryptMatches(E, c0, s, p, src);
    CryptMatches(E, c0, s, p, ct);
    XorTwice(src, Keystream(E, c0, p, |src|));
  }

  /** A zero-length call changes nothing. */
  lemma {:induction false} CryptEmpty(E: BlockCipher, s: State)
    requires Valid(s)
    ensures Crypt(E, s, []) == Output(s, [])
  {}

  /** Where the mode ends up depends only on how many bytes went through it, not on their values. */
  lemma {:induction false} StreamSameState(E: BlockCipher, ctr: Block, enc: Block, a: seq<byte>, b: seq<byte>)
    requires |a| == |b|
    ensures Stream(E, ctr, enc, a).state == Stream(E, ctr, enc, b).state
    decreases |a|
  {
    if |a| >= 16 {
      StreamBlock(E, ctr, enc, a);
      StreamBlock(E, ctr, enc, b);
      StreamSameState(E, Increment(ctr), E(ctr), a[16..], b[16..]);
    } else {
      StreamTail(E, ctr, enc, a);
      StreamTail(E, ctr, enc, b);
    }
  }

  lemma {:induction false} CryptSameState(E: BlockCipher, s: State, a: seq<byte>, b: seq<byte>)
    requires Valid(s) && |a| == |b|
    ensures Crypt(E, s, a).state == Crypt(E, s, b).state
  {
    if s.used == 0 {
      StreamSameState(E, s.ctr, s.ctrenc, a, b);
    } else if s.used + |a| >= 16 {
      var k := 16 - s.used;
      StreamSameState(E, s.ctr, s.ctrenc, a[k..], b[k..]);
    }
  }
}
