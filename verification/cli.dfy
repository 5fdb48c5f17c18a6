/**
 * The command line of sfet.c and venom.c: strtoll as parse_chunklen and
 * atoll use it, parse_chunklen itself, the settings main() collects from
 * its options, the checks it makes on them before any file is opened, and
 * next_nonce.
 *
 * Arguments are C strings: a character past the end reads as the
 * terminating NUL, and an embedded NUL ends the string just the same.
 * long long is 64 bits wide, so LONG_MAX and LLONG_MAX coincide.
 */
module Cli {
  import opened Bytes
  import opened Arith
  import opened Wrappers
  import opened FileHeader

  const LongMax: int := 0x7fff_ffff_ffff_ffff
  const LongMin: int := -0x8000_0000_0000_0000

  /** Character i of a C string; past the end the terminating NUL. */
  function Char(s: seq<char>, i: nat): char
  {
    if i < |s| then s[i] else '\0'
  }

  /** isspace in the C locale: space, \t, \n, \v, \f and \r. */
  predicate IsSpace(c: char)
  {
    c == ' ' || '\t' <= c <= '\r'
  }

  predicate IsDigit(c: char)
  {
    '0' <= c <= '9'
  }

  /** The first index at or after i that does not hold white space. */
  function SkipSpace(s: seq<char>, i: nat): (j: nat)
    ensures i <= j && !IsSpace(Char(s, j))
    ensures forall k | i <= k < j :: IsSpace(Char(s, k))
    ensures i <= |s| ==> j <= |s|
    decreases |s| - i
  {
    if IsSpace(Char(s, i)) then SkipSpace(s, i + 1) else i
  }

  /** The end of the run of decimal digits that starts at i. */
  function DigitEnd(s: seq<char>, i: nat): (j: nat)
    ensures i <= j && !IsDigit(Char(s, j))
    ensures forall k | i <= k < j :: IsDigit(Char(s, k))
    ensures i <= |s| ==> j <= |s|
    decreases |s| - i
  {
    if IsDigit(Char(s, i)) then DigitEnd(s, i + 1) else i
  }

  function DigitValue(c: char): (d: nat)
    requires IsDigit(c)
    ensures d < 10
  {
    c as int - '0' as int
  }

  function ValueDigit(d: nat): (c: char)
    requires d < 10
    ensures IsDigit(c) && DigitValue(c) == d
  {
    ('0' as int + d) as char
  }

  predicate AllDigits(d: seq<char>)
  {
    forall k | 0 <= k < |d| :: IsDigit(d[k])
  }

  /** The number a string of decimal digits denotes, most significant first. */
  function Decimal(d: seq<char>): nat
    requires AllDigits(d)
    decreases |d|
  {
    if |d| == 0 then 0 else 10 * Decimal(d[..|d| - 1]) + DigitValue(d[|d| - 1])
  }

  /** The decimal numeral of v, without leading zeros. */
  function Render(v: nat): (d: seq<char>)
    ensures |d| > 0 && AllDigits(d)
    ensures Decimal(d) == v
  {
    if v < 10 then [ValueDigit(v)]
    else
      var d := Render(v / 10) + [ValueDigit(v % 10)];
      assert d[..|d| - 1] == Render(v / 10);
      d
  }

  /** What strtoll(str, &endp, 10) yields: the value and the index endp points at. */
  datatype Conversion = Conversion(n: int, end: nat)

  /**
   * strtoll in base 10: white space, an optional sign, then digits. With no
   * digits the value is 0 and endp is str itself; a value out of range is
   * clamped to LLONG_MIN or LLONG_MAX, endp still past all the digits.
   */
  function Strtoll(s: seq<char>): (c: Conversion)
    ensures LongMin <= c.n <= LongMax && c.end <= |s|
  {
    var i := SkipSpace(s, 0);
    var sign := Char(s, i);
    var j := if sign == '-' || sign == '+' then i + 1 else i;
    var e := DigitEnd(s, j);
    if e == j then Conversion(0, 0)
    else
      var d := s[j..e];
      assert AllDigits(d) by {
        forall k | 0 <= k < |d| ensures IsDigit(d[k]) {
          assert Char(s, j + k) == d[k];
        }
      }
      var v: int := Decimal(d);
      if sign == '-' then Conversion(if v > -LongMin then LongMin else -v, e)
      else Conversion(if v > LongMax then LongMax else v, e)
  }

  /** One multiplication by 1024 in uint64_t arithmetic. */
  function Kilo(x: nat): (y: nat)
    ensures y < U64
  {
    (x * 1024) % U64
  }

  /**
   * parse_chunklen: a decimal count above 0 and below LONG_MAX, then the
   * terminating NUL or one of k, K, m, M, g, G for 2^10, 2^20 or 2^30; only
   * the first character after the digits is looked at. The products are
   * taken in uint64_t without an overflow check. None stands for the -1
   * return.
   */
  function ParseChunklen(s: seq<char>): (r: Option<nat>)
    ensures r.Some? ==> r.value < U64
  {
    var c := Strtoll(s);
    if c.n <= 0 || c.n == LongMax then None
    else
      var u := Char(s, c.end);
      if u == '\0' then Some(c.n)
      else if u == 'k' || u == 'K' then Some(Kilo(c.n))
      else if u == 'm' || u == 'M' then Some(Kilo(Kilo(c.n)))
      else if u == 'g' || u == 'G' then Some(Kilo(Kilo(Kilo(c.n))))
      else None
  }

  /** The factor a character after the digits stands for, if it is allowed there. */
  function Unit(u: char): (m: Option<nat>)
    ensures m.Some? ==> m.value in {1, 0x400, 0x10_0000, 0x4000_0000}
  {
    match u
    case '\0' => Some(1)
    case 'k' => Some(0x400)
    case 'K' => Some(0x400)
    case 'm' => Some(0x10_0000)
    case 'M' => Some(0x10_0000)
    case 'g' => Some(0x4000_0000)
    case 'G' => Some(0x4000_0000)
    case _ => None
  }

  /** Repeated uint64_t multiplications by 1024 are one multiplication by the power, modulo 2^64. */
  lemma {:induction false} KiloPowers(n: nat)
    ensures Kilo(n) == (n * 0x400) % U64
    ensures Kilo(Kilo(n)) == (n * 0x10_0000) % U64
    ensures Kilo(Kilo(Kilo(n))) == (n * 0x4000_0000) % U64
  {
    ModMulLeft(n * 0x400, 0x400, U64);
    MulAssoc(n, 0x400, 0x400);
    ModMulLeft(n * 0x10_0000, 0x400, U64);
    MulAssoc(n, 0x10_0000, 0x400);
  }

  /** A run of digits from i up to a non-digit at j ends at j. */
  lemma {:induction false} DigitRun(s: seq<char>, i: nat, j: nat)
    requires i <= j && !IsDigit(Char(s, j))
    requires forall k | i <= k < j :: IsDigit(Char(s, k))
    ensures DigitEnd(s, i) == j
    decreases j - i
  {
    if i < j {
      DigitRun(s, i + 1, j);
    }
  }

  /** strtoll reads a numeral followed by a non-digit as its value, and stops right after it. */
  lemma {:induction false} StrtollRendered(v: nat, rest: seq<char>)
    requires v <= LongMax
    requires !IsDigit(Char(rest, 0))
    ensures Strtoll(Render(v) + rest) == Conversion(v, |Render(v)|)
  {
    var d := Render(v);
    var s := d + rest;
    assert Char(s, 0) == d[0];
    assert SkipSpace(s, 0) == 0;
    forall k | 0 <= k < |d|
      ensures IsDigit(Char(s, k))
    {
      assert Char(s, k) == d[k];
    }
    assert Char(s, |d|) == Char(rest, 0);
    DigitRun(s, 0, |d|);
    assert s[0..|d|] == d;
  }

  /**
   * parse_chunklen of a positive count below LONG_MAX followed by any text
   * that does not start with a digit: the count times the factor of the
   * character after it, modulo 2^64, or -1 when that character is not
   * allowed.
   */
  lemma {:induction false} ParseRendered(v: nat, rest: seq<char>)
    requires 0 < v < LongMax
    requires !IsDigit(Char(rest, 0))
    ensures ParseChunklen(Render(v) + rest) == match Unit(Char(rest, 0))
      case None => None
      case Some(m) => Some((v * m) % U64)
  {
    StrtollRendered(v, rest);
    var s := Render(v) + rest;
    assert Char(s, |Render(v)|) == Char(rest, 0);
    KiloPowers(v);
    ModSmall(v, U64);
  }

  /** A count written with a leading minus sign is refused, whatever follows it. */
  lemma {:induction false} ParseNegative(s: seq<char>)
    requires Char(s, SkipSpace(s, 0)) == '-'
    ensures ParseChunklen(s) == None
  {
  }

  /** A suffix of 2^54 kilobytes wraps to a chunk length of 0, with no error from parse_chunklen. */
  lemma {:induction false} ParseWraps()
    ensures ParseChunklen(Render(0x40_0000_0000_0000) + ['k']) == Some(0)
  {
    hide Render, ParseChunklen;
    ParseRendered(0x40_0000_0000_0000, ['k']);
  }

  /** atoll: strtoll without the end index; main stores it in a uint64_t, so a negative count wraps. */
  function Atoll(s: seq<char>): (n: int)
    ensures LongMin <= n <= LongMax
  {
    Strtoll(s).n
  }

  /** The two programs: venom has no -c option, its chunk length is always CHUNKLEN. */
  datatype Program = SfetProgram | VenomProgram

  function FormatOf(p: Program): Format
  {
    match p
    case SfetProgram => Sfet
    case VenomProgram => Venom
  }

  /** ITERATIONS and CHUNKLEN, the defaults of both programs. */
  const Iterations: nat := 256000
  const ChunkLen: nat := 0x200_0000

  /** The options that set a number: -i and, in sfet, -c. */
  datatype Opt = IterOpt(arg: seq<char>) | ChunkOpt(arg: seq<char>)

  datatype Config = Config(iterations: nat, chunklen: nat)

  datatype Complaint =
    | IllegalChunkLength // parse_chunklen returned -1
    | UnknownOption      // -c given to venom
    | TooFewIterations   // fewer than 1024 PBKDF2 iterations
    | ChunkTooSmall      // a chunk shorter than the header

  datatype Settings = Accepted(conf: Config) | Rejected(why: Complaint)

  /** The getopt loop over the numeric options, in order: the last of each kind wins, an illegal -c stops at once. */
  function Apply(p: Program, c: Config, opts: seq<Opt>): (r: Settings)
    requires c.iterations < U64 && c.chunklen < U64
    ensures r.Accepted? ==> r.conf.iterations < U64 && r.conf.chunklen < U64
    ensures r.Accepted? && p == VenomProgram ==> r.conf.chunklen == c.chunklen
    ensures r.Rejected? ==> r.why == IllegalChunkLength || r.why == UnknownOption
    decreases |opts|
  {
    if |opts| == 0 then Accepted(c)
    else match opts[0]
      case IterOpt(a) => Apply(p, c.(iterations := Atoll(a) % U64), opts[1..])
      case ChunkOpt(a) =>
        if p == VenomProgram then Rejected(UnknownOption)
        else match ParseChunklen(a)
          case None => Rejected(IllegalChunkLength)
          case Some(n) => Apply(p, c.(chunklen := n), opts[1..])
  }

  /** main: the defaults, the options, then the iteration count and the chunk length are checked, in that order. */
  function Configure(p: Program, opts: seq<Opt>): (r: Settings)
    ensures r.Accepted? ==> 1024 <= r.conf.iterations < U64 && Size(FormatOf(p)) <= r.conf.chunklen < U64
    ensures r.Accepted? && p == VenomProgram ==> r.conf.chunklen == ChunkLen
  {
    match Apply(p, Config(Iterations, ChunkLen), opts)
    case Rejected(why) => Rejected(why)
    case Accepted(c) =>
      if c.iterations < 1024 then Rejected(TooFewIterations)
      else if c.chunklen < Size(FormatOf(p)) then Rejected(ChunkTooSmall)
      else Accepted(c)
  }

  /** One uint64_t product with 1024 is a multiple of 1024, so it is at most 2^64 - 1024. */
  lemma {:induction false} KiloBound(x: nat)
    ensures Kilo(x) <= U64 - 0x400
  {
    ModScale(x, 0x400, 0x40_0000_0000_0000);
    assert 0x400 * 0x40_0000_0000_0000 == U64;
  }

  /** A chunk length that parse_chunklen accepts leaves room for the 16-byte MAC: chunklen + 16 does not wrap. */
  lemma {:induction false} ParsedRoom(s: seq<char>)
    requires ParseChunklen(s).Some?
    ensures ParseChunklen(s).value + 16 < U64
  {
    var n := Strtoll(s).n;
    if n > 0 {
      KiloBound(n);
      KiloBound(Kilo(n));
      KiloBound(Kilo(Kilo(n)));
    }
  }

  /** The option loop keeps room for the MAC after the chunk length. */
  lemma {:induction false} ApplyRoom(p: Program, c: Config, opts: seq<Opt>)
    requires c.iterations < U64 && c.chunklen + 16 < U64
    ensures Apply(p, c, opts).Accepted? ==> Apply(p, c, opts).conf.chunklen + 16 < U64
    decreases |opts|
  {
    if |opts| > 0 {
      match opts[0]
      case IterOpt(a) =>
        ApplyRoom(p, c.(iterations := Atoll(a) % U64), opts[1..]);
      case ChunkOpt(a) =>
        if p == SfetProgram && ParseChunklen(a).Some? {
          ParsedRoom(a);
          ApplyRoom(p, c.(chunklen := ParseChunklen(a).value), opts[1..]);
        }
    }
  }

  /** Every accepted command line gives a chunk length for which chunklen + 16 does not wrap in uint64_t. */
  lemma {:induction false} ConfigureRoom(p: Program, opts: seq<Opt>)
    ensures Configure(p, opts).Accepted? ==> Configure(p, opts).conf.chunklen + 16 < U64
  {
    ApplyRoom(p, Config(Iterations, ChunkLen), opts);
  }

  /** A later -i overrides every earlier one and changes nothing else. */
  lemma {:induction false} LastIterationsWin(p: Program, c: Config, opts: seq<Opt>, a: seq<char>)
    requires c.iterations < U64 && c.chunklen < U64
    ensures var r := Apply(p, c, opts + [IterOpt(a)]);
      && r.Accepted? == Apply(p, c, opts).Accepted?
      && (r.Accepted? ==> r.conf == Apply(p, c, opts).conf.(iterations := Atoll(a) % U64))
    decreases |opts|
  {
    if |opts| == 0 {
      assert (opts + [IterOpt(a)])[1..] == [];
    } else {
      assert (opts + [IterOpt(a)])[0] == opts[0];
      assert (opts + [IterOpt(a)])[1..] == opts[1..] + [IterOpt(a)];
      match opts[0]
      case IterOpt(b) =>
        LastIterationsWin(p, c.(iterations := Atoll(b) % U64), opts[1..], a);
      case ChunkOpt(b) =>
        if p == SfetProgram && ParseChunklen(b).Some? {
          LastIterationsWin(p, c.(chunklen := ParseChunklen(b).value), opts[1..], a);
        }
    }
  }

  /** -i with a negative count is not refused: it wraps to a count near 2^64. */
  lemma {:induction false} NegativeIterations(v: nat)
    requires 0 < v <= U64 - 1024 && v <= -LongMin
    ensures Configure(VenomProgram, [IterOpt(['-'] + Render(v))]) == Accepted(Config(U64 - v, ChunkLen))
  {
    var s := ['-'] + Render(v);
    var d := Render(v);
    assert Char(s, 0) == '-' && !IsSpace('-');
    assert SkipSpace(s, 0) == 0;
    forall k | 1 <= k < |s|
      ensures IsDigit(Char(s, k))
    {
      assert Char(s, k) == d[k - 1];
    }
    DigitRun(s, 1, |s|);
    assert s[1..|s|] == d;
    assert Atoll(s) == -(v as int);
    ModUnique(-(v as int), -1, U64 - v, U64);
    var c := Config(U64 - v, ChunkLen);
    assert [IterOpt(s)][1..] == [];
    assert Apply(VenomProgram, Config(Iterations, ChunkLen), [IterOpt(s)]) == Apply(VenomProgram, c, []);
  }

  /**
   * next_nonce: from the last byte backwards, add one and stop at the
   * first byte that did not wrap to zero.
   */
  method NextNonce(nonce: Block) returns (r: Block)
    ensures r == Increment(nonce)
    ensures BeValue(r) == (BeValue(nonce) + 1) % Pow256(16)
  {
    r := nonce;
    assert nonce[..16] == nonce;
    var i: int := 15;
    var done := false;
    while i >= 0 && !done
      invariant -1 <= i <= 15
      invariant !done ==> r == nonce[..i + 1] + Zeros(15 - i)
      invariant !done ==> Increment(nonce) == Increment(nonce[..i + 1]) + Zeros(15 - i)
      invariant done ==> r == Increment(nonce)
      decreases i + 1, if done then 0 else 1
    {
      r := r[i := r[i] + 1];
      if r[i] == 0 {
        IncrementCarry(nonce, i);
        assert r == nonce[..i] + Zeros(16 - i);
        i := i - 1;
      } else {
        IncrementNoCarry(nonce, i);
        done := true;
      }
    }
    if !done {
      assert Increment(nonce[..0]) == [];
    }
    IncrementValue(nonce);
  }

  /** A byte 0xff at i becomes 0 and carries into the bytes before it. */
  lemma {:induction false} IncrementCarry(s: seq<byte>, i: nat)
    requires i < |s| && s[i] == 0xff
    ensures Increment(s[..i + 1]) == Increment(s[..i]) + [0]
  {
    assert s[..i + 1][..i] == s[..i];
  }

  /** A byte below 0xff at i takes the increment, and the bytes before it stay. */
  lemma {:induction false} IncrementNoCarry(s: seq<byte>, i: nat)
    requires i < |s| && s[i] != 0xff
    ensures Increment(s[..i + 1]) == s[..i] + [s[i] + 1]
  {
    assert s[..i + 1][..i] == s[..i];
  }
}
