/**
 * Properties of `RespCommandParser::parse` against the request encoding:
 * an array header followed by one bulk string per element. The same bulk
 * string encoding is what `RespReplyBuilder::append_bulk_string` writes.
 */
module RespFraming {
  import opened Decimal
  import opened RespReply
  import opened RespParser

  function EncodeArgs(args: seq<seq<char>>): seq<char> {
    if |args| == 0 then [] else BulkString(args[0]) + EncodeArgs(args[1..])
  }

  /** `*<1 + |args|>\r\n`, then the name and each argument as bulk strings. */
  function EncodeCommand(c: Command): seq<char> {
    ArrayHeader(1 + |c.args|) + BulkString(c.name) + EncodeArgs(c.args)
  }

  function EncodeAll(cs: seq<Command>): seq<char> {
    if |cs| == 0 then [] else EncodeCommand(cs[0]) + EncodeAll(cs[1..])
  }

  // ---------------------------------------------------------------------
  // Round trips: the parser reads back exactly what the encoder wrote,
  // whatever follows it.

  lemma {:induction false} NumRoundTrip(c: char, n: nat, rest: seq<char>)
    ensures ParseNum(c, Framed(c, NatToString(n)) + rest) == Done(n, rest)
  {
    var digits := NatToString(n);
    var d := Framed(c, digits) + rest;
    var k := |digits|;
    assert d == [c] + (digits + (CRLF + rest));
    assert d[1..] == digits + (CRLF + rest);
    DecimalRoundTrip(n, CRLF + rest);
    assert d[k + 1] == '\r' && d[k + 2] == '\n';
    assert d[1..k + 1] == digits;
    assert d[k + 3..] == rest;
  }

  /** The request's argument frame is a bulk string; its payload may hold
      any bytes, CR and LF included. */
  lemma {:induction false} ArgvRoundTrip(s: seq<char>, rest: seq<char>)
    ensures ParseArgv(BulkString(s) + rest) == Done(s, rest)
  {
    var header := Framed('$', NatToString(|s|));
    var tail := s + CRLF + rest;
    assert BulkString(s) + rest == header + tail;
    NumRoundTrip('$', |s|, tail);
    assert tail[..|s|] == s;
    assert tail[|s| + 2..] == rest;
  }

  /** The arguments already read stay in front; the encoded ones follow. */
  lemma {:induction false} ArgsRoundTrip(acc: seq<seq<char>>, args: seq<seq<char>>, rest: seq<char>)
    ensures ParseArgs(acc, |args|, EncodeArgs(args) + rest) == Done(acc + args, rest)
    decreases |args|
  {
    if |args| == 0 {
      assert acc + args == acc;
    } else {
      var tail := EncodeArgs(args[1..]) + rest;
      assert EncodeArgs(args) + rest == BulkString(args[0]) + tail;
      ArgvRoundTrip(args[0], tail);
      ArgsStep(acc, |args[1..]|, EncodeArgs(args) + rest, args[0], tail);
      ArgsRoundTrip(acc + [args[0]], args[1..], rest);
      ConsAppend(acc, args);
    }
  }

  lemma {:induction false} CommandRoundTrip(c: Command, rest: seq<char>)
    ensures ParseCommand(EncodeCommand(c) + rest) == Done(c, rest)
  {
    var n := 1 + |c.args|;
    var afterName := EncodeArgs(c.args) + rest;
    var afterCount := BulkString(c.name) + afterName;
    assert EncodeCommand(c) + rest == Framed('*', NatToString(n)) + afterCount;
    NumRoundTrip('*', n, afterCount);
    ArgvRoundTrip(c.name, afterName);
    ArgsRoundTrip([], c.args, rest);
    assert [] + c.args == c.args;
    CommandOfParts(EncodeCommand(c) + rest, n, afterCount, c.name, afterName, Done(c.args, rest));
  }

  /** Complete commands in front of any input are read one by one, and the
      loop then goes on with whatever follows them. */
  lemma {:induction false} StreamAfterEncoded(acc: seq<Command>, cs: seq<Command>, d: seq<char>)
    ensures ParseStream(acc, EncodeAll(cs) + d) == ParseStream(acc + cs, d)
    decreases |cs|
  {
    if |cs| == 0 {
      assert EncodeAll(cs) + d == d;
      assert acc + cs == acc;
    } else {
      var tail := EncodeAll(cs[1..]) + d;
      assert EncodeAll(cs) + d == EncodeCommand(cs[0]) + tail;
      CommandRoundTrip(cs[0], tail);
      StreamStep(acc, EncodeAll(cs) + d, cs[0], tail);
      StreamAfterEncoded(acc + [cs[0]], cs[1..], d);
      ConsAppend(acc, cs);
    }
  }

  /** Framing round trip: parsing the encoding of any commands yields those
      commands and consumes every byte. */
  lemma {:induction false} RoundTrip(cs: seq<Command>)
    ensures ParseAll(EncodeAll(cs)) == Success(Parsed(cs, |EncodeAll(cs)|))
  {
    StreamAfterEncoded([], cs, []);
    AppendEmpty(EncodeAll(cs));
    AppendEmpty(cs);
    StreamStop(cs, []);
    AllOfScan(EncodeAll(cs), cs, []);
  }

  /** A framing fault right after complete commands makes the whole call
      throw: the commands before it are not returned. */
  lemma {:induction false} FaultDiscardsEarlierCommands(cs: seq<Command>, d: seq<char>)
    requires ParseCommand(d).Fail?
    ensures ParseAll(EncodeAll(cs) + d) == Failure(ParseCommand(d).error)
  {
    StreamAfterEncoded([], cs, d);
    AppendEmpty(cs);
    StreamFault(cs, d);
    AllOfFault(EncodeAll(cs) + d, ParseCommand(d).error);
  }

  // ---------------------------------------------------------------------
  // Truncation: a cut anywhere inside an encoded command is "incomplete",
  // never a fault.

  lemma {:induction false} NumPrefix(c: char, n: nat, j: nat)
    requires j < |Framed(c, NatToString(n))|
    ensures ParseNum(c, Framed(c, NatToString(n))[..j]).Incomplete?
  {
    var digits := NatToString(n);
    var e := Framed(c, digits);
    var p := e[..j];
    if j >= 2 {
      assert p[0] == c;
      if j - 1 <= |digits| {
        assert p[1..] == digits[..j - 1] + [];
        DigitRunOfDigitsThen(digits[..j - 1], []);
      } else {
        assert p[1..] == digits + ['\r'];
        DigitRunOfDigitsThen(digits, ['\r']);
      }
    }
  }

  lemma {:induction false} ArgvPrefix(s: seq<char>, j: nat)
    requires j < |BulkString(s)|
    ensures ParseArgv(BulkString(s)[..j]).Incomplete?
  {
    var header := Framed('$', NatToString(|s|));
    if j < |header| {
      assert BulkString(s)[..j] == header[..j];
      NumPrefix('$', |s|, j);
    } else {
      var tail := (s + CRLF)[..j - |header|];
      assert BulkString(s)[..j] == header + tail;
      NumRoundTrip('$', |s|, tail);
    }
  }

  lemma {:induction false} ArgsPrefix(acc: seq<seq<char>>, args: seq<seq<char>>, j: nat)
    requires j < |EncodeArgs(args)|
    ensures ParseArgs(acc, |args|, EncodeArgs(args)[..j]).Incomplete?
    decreases |args|
  {
    var first := BulkString(args[0]);
    if j < |first| {
      assert EncodeArgs(args)[..j] == first[..j];
      ArgvPrefix(args[0], j);
    } else {
      var tail := EncodeArgs(args[1..])[..j - |first|];
      assert EncodeArgs(args)[..j] == first + tail;
      ArgvRoundTrip(args[0], tail);
      ArgsStep(acc, |args[1..]|, EncodeArgs(args)[..j], args[0], tail);
      ArgsPrefix(acc + [args[0]], args[1..], j - |first|);
    }
  }

  lemma {:induction false} CommandPrefix(c: Command, j: nat)
    requires j < |EncodeCommand(c)|
    ensures ParseCommand(EncodeCommand(c)[..j]).Incomplete?
  {
    var header := Framed('*', NatToString(1 + |c.args|));
    var name := BulkString(c.name);
    if j < |header| {
      CutInCount(c, j);
    } else if j < |header| + |name| {
      CutInName(c, j);
    } else {
      CutInArgs(c, j);
    }
  }

  /** The encoding of a command: its header, its name, its other arguments. */
  lemma {:induction false} CommandParts(c: Command)
    ensures EncodeCommand(c)
      == Framed('*', NatToString(1 + |c.args|)) + (BulkString(c.name) + EncodeArgs(c.args))
  {
  }

  lemma {:induction false} CutInCount(c: Command, j: nat)
    requires j < |Framed('*', NatToString(1 + |c.args|))|
    ensures ParseCommand(EncodeCommand(c)[..j]).Incomplete?
  {
    var header := Framed('*', NatToString(1 + |c.args|));
    CommandParts(c);
    assert EncodeCommand(c)[..j] == header[..j];
    NumPrefix('*', 1 + |c.args|, j);
    CommandAtCount(EncodeCommand(c)[..j]);
  }

  lemma {:induction false} CutInName(c: Command, j: nat)
    requires var h := |Framed('*', NatToString(1 + |c.args|))|;
      h <= j < h + |BulkString(c.name)|
    ensures ParseCommand(EncodeCommand(c)[..j]).Incomplete?
  {
    var n := 1 + |c.args|;
    var header := Framed('*', NatToString(n));
    var tail := BulkString(c.name)[..j - |header|];
    CommandParts(c);
    assert EncodeCommand(c)[..j] == header + tail;
    NumRoundTrip('*', n, tail);
    ArgvPrefix(c.name, j - |header|);
    CommandStopsAtName(EncodeCommand(c)[..j], n, tail);
  }

  lemma {:induction false} CutInArgs(c: Command, j: nat)
    requires var h := |Framed('*', NatToString(1 + |c.args|))|;
      h + |BulkString(c.name)| <= j < |EncodeCommand(c)|
    ensures ParseCommand(EncodeCommand(c)[..j]).Incomplete?
  {
    var n := 1 + |c.args|;
    var header := Framed('*', NatToString(n));
    var name := BulkString(c.name);
    var cut := j - |header| - |name|;
    var tail := EncodeArgs(c.args)[..cut];
    CommandParts(c);
    assert EncodeCommand(c)[..j] == header + (name + tail);
    NumRoundTrip('*', n, name + tail);
    ArgvRoundTrip(c.name, tail);
    ArgsPrefix([], c.args, cut);
    CommandOfParts(EncodeCommand(c)[..j], n, name + tail, c.name, tail, ParseArgs([], |c.args|, tail));
  }

  /** How many of the commands are encoded whole within the first `j` bytes. */
  function Fitting(cs: seq<Command>, j: nat): (m: nat)
    ensures m <= |cs|
  {
    if |cs| == 0 || j < |EncodeCommand(cs[0])| then 0
    else 1 + Fitting(cs[1..], j - |EncodeCommand(cs[0])|)
  }

  /** How many bytes those whole commands span. */
  function FittingBytes(cs: seq<Command>, j: nat): (k: nat)
    ensures k <= j
  {
    if |cs| == 0 || j < |EncodeCommand(cs[0])| then 0
    else |EncodeCommand(cs[0])| + FittingBytes(cs[1..], j - |EncodeCommand(cs[0])|)
  }

  /** The bytes after the whole commands encode the commands after them. */
  lemma {:induction false} FittingSplit(cs: seq<Command>, j: nat)
    ensures FittingBytes(cs, j) <= |EncodeAll(cs)|
    ensures EncodeAll(cs)[FittingBytes(cs, j)..] == EncodeAll(cs[Fitting(cs, j)..])
    decreases |cs|
  {
    if |cs| == 0 || j < |EncodeCommand(cs[0])| {
      assert cs[0..] == cs;
    } else {
      var e := EncodeCommand(cs[0]);
      var jj := j - |e|;
      FittingSplit(cs[1..], jj);
      var m := Fitting(cs[1..], jj);
      var k := FittingBytes(cs[1..], jj);
      EncodeAllCons(cs);
      FittingCons(cs, j);
      DropOfAppend(e, EncodeAll(cs[1..]), k);
      DropOfTail(cs, m);
    }
  }

  /** The loop over a prefix of a valid stream stops, without a fault, right
      after the last command wholly inside the prefix. */
  lemma {:induction false} StreamPrefix(acc: seq<Command>, cs: seq<Command>, j: nat)
    requires j <= |EncodeAll(cs)|
    ensures ParseStream(acc, EncodeAll(cs)[..j])
      == Scanned(acc + cs[..Fitting(cs, j)], EncodeAll(cs)[FittingBytes(cs, j)..j])
    decreases |cs|
  {
    if |cs| == 0 || j < |EncodeCommand(cs[0])| {
      StreamPrefixCut(acc, cs, j);
    } else {
      var jj := j - |EncodeCommand(cs[0])|;
      StreamPrefix(acc + [cs[0]], cs[1..], jj);
      StreamPrefixStep(acc, cs, j);
    }
  }

  /** The prefix ends inside the first command (or there is none). */
  lemma {:induction false} StreamPrefixCut(acc: seq<Command>, cs: seq<Command>, j: nat)
    requires j <= |EncodeAll(cs)|
    requires |cs| == 0 || j < |EncodeCommand(cs[0])|
    ensures ParseStream(acc, EncodeAll(cs)[..j])
      == Scanned(acc + cs[..Fitting(cs, j)], EncodeAll(cs)[FittingBytes(cs, j)..j])
  {
    var d := EncodeAll(cs)[..j];
    if |cs| == 0 {
      assert d == [];
    } else {
      assert EncodeAll(cs) == EncodeCommand(cs[0]) + EncodeAll(cs[1..]);
      assert d == EncodeCommand(cs[0])[..j];
      CommandPrefix(cs[0], j);
    }
    StreamStop(acc, d);
    assert acc + cs[..0] == acc;
    assert EncodeAll(cs)[0..j] == d;
  }

  /** The first command lies wholly inside the prefix: it is read, and the
      loop goes on with the prefix of the others. */
  lemma {:induction false} StreamPrefixStep(acc: seq<Command>, cs: seq<Command>, j: nat)
    requires |cs| > 0 && |EncodeCommand(cs[0])| <= j <= |EncodeAll(cs)|
    requires var jj := j - |EncodeCommand(cs[0])|;
      ParseStream(acc + [cs[0]], EncodeAll(cs[1..])[..jj])
      == Scanned(acc + [cs[0]] + cs[1..][..Fitting(cs[1..], jj)],
                 EncodeAll(cs[1..])[FittingBytes(cs[1..], jj)..jj])
    ensures ParseStream(acc, EncodeAll(cs)[..j])
      == Scanned(acc + cs[..Fitting(cs, j)], EncodeAll(cs)[FittingBytes(cs, j)..j])
  {
    var jj := j - |EncodeCommand(cs[0])|;
    var tail := EncodeAll(cs[1..])[..jj];
    PrefixParts(acc, cs, j);
    StreamAfterCommand(acc, cs[0], tail, EncodeAll(cs)[..j]);
  }

  /** A whole command in front is read, and the loop goes on after it. */
  lemma {:induction false} StreamAfterCommand(acc: seq<Command>, c: Command, tail: seq<char>, d: seq<char>)
    requires d == EncodeCommand(c) + tail
    ensures ParseStream(acc, d) == ParseStream(acc + [c], tail)
  {
    CommandRoundTrip(c, tail);
    StreamStep(acc, d, c, tail);
  }

  /** How a prefix that holds the first command whole splits up. */
  lemma {:induction false} PrefixParts(acc: seq<Command>, cs: seq<Command>, j: nat)
    requires |cs| > 0 && |EncodeCommand(cs[0])| <= j <= |EncodeAll(cs)|
    ensures var jj := j - |EncodeCommand(cs[0])|;
      && EncodeAll(cs)[..j] == EncodeCommand(cs[0]) + EncodeAll(cs[1..])[..jj]
      && acc + [cs[0]] + cs[1..][..Fitting(cs[1..], jj)] == acc + cs[..Fitting(cs, j)]
      && EncodeAll(cs[1..])[FittingBytes(cs[1..], jj)..jj] == EncodeAll(cs)[FittingBytes(cs, j)..j]
  {
    PrefixHead(cs, j);
    FittingCons(cs, j);
    ConsAppendTake(acc, cs, Fitting(cs[1..], j - |EncodeCommand(cs[0])|));
    PrefixLeftover(cs, j);
  }

  lemma {:induction false} PrefixHead(cs: seq<Command>, j: nat)
    requires |cs| > 0 && |EncodeCommand(cs[0])| <= j <= |EncodeAll(cs)|
    ensures EncodeAll(cs)[..j] == EncodeCommand(cs[0]) + EncodeAll(cs[1..])[..j - |EncodeCommand(cs[0])|]
  {
    EncodeAllCons(cs);
    TakeOfAppend(EncodeCommand(cs[0]), EncodeAll(cs[1..]), j);
  }

  lemma {:induction false} PrefixLeftover(cs: seq<Command>, j: nat)
    requires |cs| > 0 && |EncodeCommand(cs[0])| <= j <= |EncodeAll(cs)|
    ensures var jj := j - |EncodeCommand(cs[0])|;
      EncodeAll(cs[1..])[FittingBytes(cs[1..], jj)..jj] == EncodeAll(cs)[FittingBytes(cs, j)..j]
  {
    var e := EncodeCommand(cs[0]);
    var jj := j - |e|;
    EncodeAllCons(cs);
    FittingCons(cs, j);
    SliceOfAppend(e, EncodeAll(cs[1..]), FittingBytes(cs[1..], jj), j);
  }

  /** Resumability, one read: whatever prefix of a valid stream has arrived,
      `parse` does not throw; it returns the commands wholly inside it and
      the bytes they span. */
  lemma {:induction false} ParsePrefix(cs: seq<Command>, j: nat)
    requires j <= |EncodeAll(cs)|
    ensures ParseAll(EncodeAll(cs)[..j])
      == Success(Parsed(cs[..Fitting(cs, j)], FittingBytes(cs, j)))
  {
    StreamPrefix([], cs, j);
    AppendEmpty(cs[..Fitting(cs, j)]);
    AllOfScan(EncodeAll(cs)[..j], cs[..Fitting(cs, j)], EncodeAll(cs)[FittingBytes(cs, j)..j]);
  }

  /** Resumability, two reads: a valid stream split at any byte. The first
      read returns the commands wholly inside it (`ParsePrefix`); the bytes
      it did not consume, followed by the second chunk, return exactly the
      remaining commands and consume the rest of the stream. */
  lemma {:induction false} Resumable(cs: seq<Command>, j: nat)
    requires j <= |EncodeAll(cs)|
    ensures var e := EncodeAll(cs);
      var k := FittingBytes(cs, j);
      ParseAll(e[..j][k..] + e[j..]) == Success(Parsed(cs[Fitting(cs, j)..], |e| - k))
  {
    PendingThenRest(cs, j);
    RoundTrip(cs[Fitting(cs, j)..]);
  }

  /** The unconsumed bytes of the first read, then the second chunk, are
      the encoding of the commands not yet returned. */
  lemma {:induction false} PendingThenRest(cs: seq<Command>, j: nat)
    requires j <= |EncodeAll(cs)|
    ensures var e := EncodeAll(cs);
      var k := FittingBytes(cs, j);
      e[..j][k..] + e[j..] == EncodeAll(cs[Fitting(cs, j)..]) && |e| - k == |EncodeAll(cs[Fitting(cs, j)..])|
  {
    FittingSplit(cs, j);
    Rejoin(EncodeAll(cs), FittingBytes(cs, j), j);
  }

  // ---------------------------------------------------------------------
  // The consumed count is the end of the last complete command.

  /** Where the loop stops without a fault, what is left holds no complete
      command and no fault: the next read starts right there. */
  lemma {:induction false} StreamLeftover(acc: seq<Command>, d: seq<char>)
    requires ParseStream(acc, d).Scanned?
    ensures ParseCommand(ParseStream(acc, d).leftover).Incomplete?
    decreases |d|
  {
    match ParseCommand(d)
    case Incomplete =>
    case Done(cmd, rest) =>
      StreamLeftover(acc + [cmd], rest);
  }

  /** The consumed count is the end of the last complete command: the bytes
      after it hold no complete command. */
  lemma {:induction false} LeftoverIncomplete(d: seq<char>)
    requires ParseAll(d).Success?
    ensures ParseCommand(d[ParseAll(d).value.consumed..]).Incomplete?
  {
    StreamLeftover([], d);
    StreamSuffix([], d);
    var left := ParseStream([], d).leftover;
    assert ParseAll(d).value.consumed == |d| - |left|;
    SuffixIsDrop(left, d);
  }

  // ---------------------------------------------------------------------
  // Framing faults.

  /** A count of zero throws, whatever follows. */
  lemma {:induction false} ZeroArgumentThrows(rest: seq<char>)
    ensures ParseAll(Framed('*', NatToString(0)) + rest) == Failure(ZeroArgument)
  {
    NumRoundTrip('*', 0, rest);
  }

  /** The faults `_parse_num` throws: a wrong leading byte, no digit where
      the number starts, and anything but CRLF after the digits once two
      bytes are there to look at. */
  lemma {:induction false} NumFaults(c: char, d: seq<char>)
    ensures |d| > 0 && d[0] != c ==> ParseNum(c, d) == Fail(ExpectSentinel(c))
    ensures |d| > 1 && d[0] == c && !IsDigit(d[1]) ==> ParseNum(c, d) == Fail(ExpectInteger)
    ensures |d| > 1 && d[0] == c ==>
      var k := DigitRun(d[1..]);
      (k > 0 && |d| >= k + 3 && d[k + 1..k + 3] != CRLF ==> ParseNum(c, d) == Fail(ExpectCrlf))
  {
    if |d| > 1 {
      var k := DigitRun(d[1..]);
      if k > 0 && |d| >= k + 3 && d[k + 1..k + 3] != CRLF {
        assert d[k + 1..k + 3] == [d[k + 1], d[k + 2]];
      }
    }
  }

  /** `_parse_argv` throws when the `len` payload bytes are not followed by CRLF. */
  lemma {:induction false} PayloadFault(d: seq<char>)
    requires ParseNum('$', d).Done?
    ensures var len := ParseNum('$', d).value;
      var r := ParseNum('$', d).rest;
      |r| >= len + 2 && r[len..len + 2] != CRLF ==> ParseArgv(d) == Fail(ExpectCrlf)
  {
    var len := ParseNum('$', d).value;
    var r := ParseNum('$', d).rest;
    if |r| >= len + 2 && r[len..len + 2] != CRLF {
      assert r[len..len + 2] == [r[len], r[len + 1]];
    }
  }

  // ---------------------------------------------------------------------
  // Sequence helpers.

  lemma {:induction false} ConsAppend<T>(acc: seq<T>, s: seq<T>)
    requires |s| > 0
    ensures acc + [s[0]] + s[1..] == acc + s
  {
    assert s == [s[0]] + s[1..];
  }

  lemma {:induction false} ConsAppendTake<T>(acc: seq<T>, s: seq<T>, m: nat)
    requires m < |s|
    ensures acc + [s[0]] + s[1..][..m] == acc + s[..m + 1]
  {
    assert s[..m + 1] == [s[0]] + s[1..][..m];
  }

  lemma {:induction false} AppendEmpty<T>(s: seq<T>)
    ensures s + [] == s && [] + s == s
  {
  }

  lemma {:induction false} TakeOfAppend<T>(a: seq<T>, b: seq<T>, j: nat)
    requires |a| <= j <= |a| + |b|
    ensures (a + b)[..j] == a + b[..j - |a|]
  {
  }

  lemma {:induction false} SliceOfAppend<T>(a: seq<T>, b: seq<T>, k: nat, j: nat)
    requires |a| <= j <= |a| + |b| && k <= j - |a|
    ensures (a + b)[|a| + k..j] == b[k..j - |a|]
  {
  }

  lemma {:induction false} DropOfAppend<T>(a: seq<T>, b: seq<T>, k: nat)
    requires k <= |b|
    ensures (a + b)[|a| + k..] == b[k..]
  {
  }

  lemma {:induction false} DropOfTail<T>(s: seq<T>, m: nat)
    requires m < |s|
    ensures s[1..][m..] == s[1 + m..]
  {
  }

  lemma {:induction false} Rejoin<T>(s: seq<T>, k: nat, j: nat)
    requires k <= j <= |s|
    ensures s[..j][k..] + s[j..] == s[k..]
  {
    assert s[..j][k..] == s[k..j];
  }

  // ---------------------------------------------------------------------
  // One step of the encodings.

  lemma {:induction false} EncodeAllCons(cs: seq<Command>)
    requires |cs| > 0
    ensures EncodeAll(cs) == EncodeCommand(cs[0]) + EncodeAll(cs[1..])
  {
  }

  lemma {:induction false} FittingCons(cs: seq<Command>, j: nat)
    requires |cs| > 0 && |EncodeCommand(cs[0])| <= j
    ensures Fitting(cs, j) == 1 + Fitting(cs[1..], j - |EncodeCommand(cs[0])|)
    ensures FittingBytes(cs, j) == |EncodeCommand(cs[0])| + FittingBytes(cs[1..], j - |EncodeCommand(cs[0])|)
  {
  }
}
