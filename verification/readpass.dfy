/**
 * Password input: read_line and the decisions of read_pass (readpass.c)
 * and read_pass_tty (src/readpass.c), which make the same ones.
 *
 * A stream is the bytes still to come and how it ends: at end of file, or
 * with a read error, which fgetc reports as EOF and ferror then sees. The
 * terminal handling, the prompts and the choice between /dev/tty and
 * stdin are not modelled; whether the input is a terminal is the
 * parameter tty.
 */
module ReadPass {
  import opened Bytes

  const Newline: byte := 0x0a

  /** The bytes still to come, and whether the stream ends with a read error rather than at end of file. */
  datatype Input = Input(data: seq<byte>, err: bool)

  /** The length of the first line: the index of the first newline, or all the data. */
  function LineEnd(d: seq<byte>): (k: nat)
    ensures k <= |d|
    decreases |d|
  {
    if |d| == 0 || d[0] == Newline then 0 else 1 + LineEnd(d[1..])
  }

  /** LineEnd is where the first newline is, or the end when there is none. */
  lemma {:induction false} LineEndIs(d: seq<byte>, k: nat)
    requires k <= |d| && (k < |d| ==> d[k] == Newline)
    requires forall i | 0 <= i < k :: d[i] != Newline
    ensures LineEnd(d) == k
    decreases k
  {
    if k > 0 {
      LineEndIs(d[1..], k - 1);
    }
  }

  /** The first line holds no newline, and a newline ends it unless the data does. */
  lemma {:induction false} LineEndSpec(d: seq<byte>)
    ensures var k := LineEnd(d);
      (k < |d| ==> d[k] == Newline) && forall i | 0 <= i < k :: d[i] != Newline
    decreases |d|
  {
    if |d| > 0 && d[0] != Newline {
      LineEndSpec(d[1..]);
      var k := LineEnd(d);
      assert forall i | 1 <= i < k :: d[i] == d[1..][i - 1];
    }
  }

  /**
   * The line buffer: the first max bytes of the line; a shorter line is
   * followed by 0x80 and zeros up to max bytes.
   */
  function Pad(line: seq<byte>, max: nat): (out: seq<byte>)
    ensures |out| == max
  {
    if |line| >= max then line[..max] else line + [0x80] + Zeros(max - |line| - 1)
  }

  datatype LineResult = Line(count: nat, out: seq<byte>, rest: Input) | LineError

  /**
   * read_line: the length of the whole line, including what did not fit,
   * the padded buffer, and the stream after the newline; -1 when the
   * stream failed before a newline.
   */
  function ReadLine(s: Input, max: nat): (r: LineResult)
    ensures r.Line? ==> |r.out| == max && |r.rest.data| <= |s.data| && r.rest.err == s.err
    ensures r.Line? && |s.data| > 0 ==> |r.rest.data| < |s.data|
    ensures r.Line? && |s.data| == 0 ==> r.count == 0 && r.out == Pad([], max)
  {
    var k := LineEnd(s.data);
    if k == |s.data| && s.err then LineError
    else Line(k, Pad(s.data[..k], max), Input(if k < |s.data| then s.data[k + 1..] else [], s.err))
  }

  /** The fgetc loop of read_line, storing into the caller's buffer of max bytes. */
  method ReadLineLoop(s: Input, buf: seq<byte>) returns (r: LineResult)
    ensures r == ReadLine(s, |buf|)
  {
    var max := |buf|;
    var out := buf;
    var count := 0;
    var pos := 0;
    var newline := false;
    while pos < |s.data| && !newline
      invariant pos <= |s.data| && |out| == max
      invariant newline ==> pos > 0 && s.data[pos - 1] == Newline && count == pos - 1
      invariant !newline ==> count == pos
      invariant forall i | 0 <= i < count :: s.data[i] != Newline
      invariant forall i | 0 <= i < count && i < max :: out[i] == s.data[i]
      decreases |s.data| - pos
    {
      var ch := s.data[pos];
      pos := pos + 1;
      if ch == Newline {
        newline := true;
      } else {
        if count < max {
          out := out[count := ch];
        }
        count := count + 1;
      }
    }
    LineEndIs(s.data, count);
    if !newline && s.err {
      return LineError;
    }
    var line := s.data[..count];
    if count < max {
      assert out[..count] == line;
      out := out[..count] + [0x80] + Zeros(max - count - 1);
    } else {
      assert out == line[..max];
    }
    assert out == Pad(line, max);
    var rest := if newline then s.data[pos..] else [];
    assert rest == if count < |s.data| then s.data[count + 1..] else [];
    r := Line(count, out, Input(rest, s.err));
  }

  /** A line that fits comes back whole from the front of the buffer. */
  lemma {:induction false} PadPrefix(line: seq<byte>, max: nat)
    requires |line| <= max
    ensures Pad(line, max)[..|line|] == line
  {
  }

  /** Lines shorter than the buffer have different buffers. */
  lemma {:induction false} PadInjective(a: seq<byte>, b: seq<byte>, max: nat)
    requires |a| < max && |b| < max
    requires Pad(a, max) == Pad(b, max)
    ensures a == b
  {
    var p, q := Pad(a, max), Pad(b, max);
    assert p[|a|] == 0x80 && q[|b|] == 0x80;
    assert forall j | |a| < j < max :: p[j] == 0;
    assert forall j | |b| < j < max :: q[j] == 0;
    assert |a| == |b|;
    assert a == p[..|a|] && b == q[..|b|];
  }

  /** A line of exactly max bytes is not padded, so it can equal the buffer of a shorter line. */
  lemma {:induction false} PadCollision(b: seq<byte>, max: nat)
    requires |b| < max
    ensures Pad(Pad(b, max), max) == Pad(b, max) && Pad(b, max) != b
  {
  }

  /** read_line's answer is the first line's length, and the buffer and what is left follow from it. */
  lemma {:induction false} ReadLineSpec(s: Input, max: nat)
    requires ReadLine(s, max).Line?
    ensures var r := ReadLine(s, max);
      && r.count <= |s.data|
      && (forall i | 0 <= i < r.count :: s.data[i] != Newline)
      && (r.count < |s.data| ==> s.data[r.count] == Newline && r.rest.data == s.data[r.count + 1..])
      && (r.count <= max ==> r.out[..r.count] == s.data[..r.count])
      && (r.count > max ==> r.out == s.data[..max])
  {
    LineEndSpec(s.data);
  }

  /** The result of read_pass: the length and the padded buffer, and the stream after it; or -1. */
  datatype Pass = Pass(len: nat, passwd: seq<byte>, rest: Input) | NoPass

  /**
   * The loops of read_pass. A line longer than max is refused: fatally
   * without a terminal, by asking again with one. With a terminal and a
   * second prompt, a confirmation line is read and the two max-byte
   * buffers compared; on a mismatch the whole exchange starts over.
   */
  function ReadPass(s: Input, max: nat, tty: bool, confirm: bool): (r: Pass)
    ensures r.Pass? ==> r.len <= max && |r.passwd| == max
    decreases |s.data|
  {
    match ReadLine(s, max)
    case LineError => NoPass
    case Line(n, pw, s1) =>
      if n > max then
        if !tty then NoPass else ReadPass(s1, max, tty, confirm)
      else if !confirm || !tty then Pass(n, pw, s1)
      else
        match ReadLine(s1, max)
        case LineError => NoPass
        case Line(_, c, s2) =>
          if pw == c then Pass(n, pw, s2) else ReadPass(s2, max, tty, confirm)
  }

  /** Without a terminal the password is one line, and a line that does not fit is an error. */
  lemma {:induction false} NoTerminalReadsOnce(s: Input, max: nat, confirm: bool)
    ensures var r := ReadPass(s, max, false, confirm);
      match ReadLine(s, max)
      case LineError => r == NoPass
      case Line(n, pw, s1) => r == if n > max then NoPass else Pass(n, pw, s1)
  {
  }

  /** A password line followed by the same confirmation is taken, and both lines are consumed. */
  lemma {:induction false} ConfirmedPassword(line: seq<byte>, more: seq<byte>, err: bool, max: nat)
    requires |line| <= max && forall i | 0 <= i < |line| :: line[i] != Newline
    ensures ReadPass(Input(line + [Newline] + line + [Newline] + more, err), max, true, true)
         == Pass(|line|, Pad(line, max), Input(more, err))
  {
    var d := line + [Newline] + line + [Newline] + more;
    var d1 := line + [Newline] + more;
    LineEndIs(d, |line|);
    assert d[..|line|] == line && d[|line| + 1..] == d1;
    LineEndIs(d1, |line|);
    assert d1[..|line|] == line && d1[|line| + 1..] == more;
  }

  /** At a terminal, a line too long to fit is dropped and the password read again. */
  lemma {:induction false} TooLongAsksAgain(long: seq<byte>, more: seq<byte>, err: bool, max: nat, confirm: bool)
    requires |long| > max && forall i | 0 <= i < |long| :: long[i] != Newline
    ensures ReadPass(Input(long + [Newline] + more, err), max, true, confirm)
         == ReadPass(Input(more, err), max, true, confirm)
  {
    var d := long + [Newline] + more;
    LineEndIs(d, |long|);
    assert d[|long| + 1..] == more;
  }

  /**
   * From s0, a password line of n bytes with buffer pw, then a confirmation
   * line with the same buffer, leaving rest.
   */
  predicate ConfirmedAt(s0: Input, max: nat, n: nat, pw: seq<byte>, rest: Input)
  {
    match ReadLine(s0, max)
    case LineError => false
    case Line(n1, pw1, s1) =>
      n1 == n && pw1 == pw &&
      match ReadLine(s1, max)
      case LineError => false
      case Line(_, c, s2) => c == pw && s2 == rest
  }

  /** What read_line leaves is a suffix of the stream. */
  lemma {:induction false} ReadLineRest(s: Input, max: nat)
    requires ReadLine(s, max).Line?
    ensures exists m | 0 <= m <= |s.data| :: ReadLine(s, max).rest == Input(s.data[m..], s.err)
  {
    var k := LineEnd(s.data);
    if k < |s.data| {
      assert ReadLine(s, max).rest == Input(s.data[k + 1..], s.err);
    } else {
      assert ReadLine(s, max).rest == Input(s.data[|s.data|..], s.err);
    }
  }

  /**
   * At offset k of s starts a password line of n bytes whose buffer is pw,
   * followed by a confirmation line with the same buffer, leaving rest.
   */
  predicate FoundAt(s: Input, k: nat, max: nat, n: nat, pw: seq<byte>, rest: Input)
  {
    k + n <= |s.data| && pw == Pad(s.data[k..k + n], max) && ConfirmedAt(Input(s.data[k..], s.err), max, n, pw, rest)
  }

  /** An exchange found in a suffix of the stream is found in the stream. */
  lemma {:induction false} FoundInSuffix(s: Input, m: nat, k: nat, max: nat, n: nat, pw: seq<byte>, rest: Input)
    requires m <= |s.data| && FoundAt(Input(s.data[m..], s.err), k, max, n, pw, rest)
    ensures FoundAt(s, m + k, max, n, pw, rest)
  {
    hide Pad, ConfirmedAt;
    var t := s.data[m..];
    assert t[k..] == s.data[m + k..] && t[k..k + n] == s.data[m + k..m + k + n];
  }

  /** The first exchange of the stream, when its buffers agree. */
  lemma {:induction false} FoundFirst(s: Input, max: nat)
    requires ReadLine(s, max).Line?
    requires var s1 := ReadLine(s, max).rest; ReadLine(s1, max).Line? && ReadLine(s1, max).out == ReadLine(s, max).out
    ensures var r := ReadLine(s, max);
      FoundAt(s, 0, max, r.count, r.out, ReadLine(r.rest, max).rest)
  {
    assert s.data[0..] == s.data;
    assert s.data[0..LineEnd(s.data)] == s.data[..LineEnd(s.data)];
  }

  /** An exchange found after the first line is found in the stream. */
  lemma {:induction false} FoundAfterLine(s: Input, max: nat, k: nat, n: nat, pw: seq<byte>, rest: Input)
    requires ReadLine(s, max).Line? && FoundAt(ReadLine(s, max).rest, k, max, n, pw, rest)
    ensures exists j :: FoundAt(s, j, max, n, pw, rest)
  {
    hide FoundAt, ReadLine;
    ReadLineRest(s, max);
    var m :| 0 <= m <= |s.data| && ReadLine(s, max).rest == Input(s.data[m..], s.err);
    FoundInSuffix(s, m, k, max, n, pw, rest);
  }

  /**
   * A password accepted at a terminal with a confirmation prompt fits the
   * buffer, and somewhere in the stream it is a line of n bytes whose
   * buffer is pw, followed right away by a confirmation line with the same
   * max-byte buffer, after which the stream is rest.
   */
  lemma {:induction false} ConfirmedAccepted(s: Input, max: nat, n: nat, pw: seq<byte>, rest: Input)
    requires ReadPass(s, max, true, true) == Pass(n, pw, rest)
    ensures n <= max
    ensures exists k :: FoundAt(s, k, max, n, pw, rest)
    decreases |s.data|
  {
    hide Pad, FoundAt, ConfirmedAt, LineEnd, ReadLine;
    var r := ReadLine(s, max);
    if r.LineError? {
      assert false;
    } else if r.count > max {
      ConfirmedAccepted(r.rest, max, n, pw, rest);
      var k :| FoundAt(r.rest, k, max, n, pw, rest);
      FoundAfterLine(s, max, k, n, pw, rest);
    } else {
      var r2 := ReadLine(r.rest, max);
      if r2.LineError? {
        assert false;
      } else if r.out == r2.out {
        FoundFirst(s, max);
      } else {
        ConfirmedAccepted(r2.rest, max, n, pw, rest);
        var k :| FoundAt(r2.rest, k, max, n, pw, rest);
        FoundAfterLine(r.rest, max, k, n, pw, rest);
        var k2 :| FoundAt(r.rest, k2, max, n, pw, rest);
        FoundAfterLine(s, max, k2, n, pw, rest);
      }
    }
  }
}
