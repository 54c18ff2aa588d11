/**
 * `RespCommandParser`: incremental parsing of RESP 2 requests, each an
 * array of bulk strings `*<argc>\r\n` followed by `argc` times
 * `$<len>\r\n<len bytes>\r\n`.
 *
 * The C++ parser moves a `string_view` cursor forward with `remove_prefix`;
 * here the cursor is the remaining suffix of the input, so every step
 * returns what is left of the view. A step can finish, run out of input
 * (the request is incomplete and will be re-read later), or throw.
 */
module RespParser {
  import opened Decimal
  import opened RespReply

  /** `RespCommand`: the first bulk string and the ones after it. */
  datatype Command = Command(name: seq<char>, args: seq<seq<char>>)

  /** The exceptions the parser throws. */
  datatype ParseError =
    | ExpectSentinel(sentinel: char)  // "expect *" / "expect $"
    | ExpectInteger                   // "expect a positive integer"
    | ExpectCrlf                      // "expect '\r\n'"
    | ZeroArgument                    // "invalid request: zero argument"

  /** The outcome of one parsing step; `rest` is what is left of the view. */
  datatype Step<T> = Incomplete | Fail(error: ParseError) | Done(value: T, rest: seq<char>)

  /** What `parse` returns: the complete commands and the bytes they span. */
  datatype Parsed = Parsed(commands: seq<Command>, consumed: nat)

  datatype Result = Success(value: Parsed) | Failure(error: ParseError)

  /** `r` is what is left of `d` after some prefix was removed. */
  predicate IsSuffix(r: seq<char>, d: seq<char>)
    decreases |d|
  {
    r == d || (|d| > 0 && IsSuffix(r, d[1..]))
  }

  /** `_parse_num(c, view)`: the sentinel byte, a decimal number, CRLF. */
  function ParseNum(c: char, d: seq<char>): (s: Step<nat>)
    ensures s.Done? ==> |s.rest| + 4 <= |d|
  {
    if |d| == 0 then Incomplete
    else if d[0] != c then Fail(ExpectSentinel(c))
    else if |d| == 1 then Incomplete
    else
      var k := DigitRun(d[1..]);
      if k == 0 then Fail(ExpectInteger)
      else if |d| < k + 3 then Incomplete
      else if d[k + 1] != '\r' || d[k + 2] != '\n' then Fail(ExpectCrlf)
      else
        assert d[1..k + 1] == d[1..][..k];
        Done(Value(d[1..k + 1]), d[k + 3..])
  }

  /** `_parse_argc`: a number line introduced by '*'. */
  function ParseArgc(d: seq<char>): Step<nat> {
    ParseNum('*', d)
  }

  /** `_parse_argv`: a number line introduced by '$', then exactly that many
      bytes (which may themselves hold CR or LF), then CRLF. */
  function ParseArgv(d: seq<char>): (s: Step<seq<char>>)
    ensures s.Done? ==> |s.rest| < |d|
  {
    match ParseNum('$', d)
    case Incomplete => Incomplete
    case Fail(e) => Fail(e)
    case Done(len, r) =>
      if |r| < len + 2 then Incomplete
      else if r[len] != '\r' || r[len + 1] != '\n' then Fail(ExpectCrlf)
      else Done(r[..len], r[len + 2..])
  }

  /** The inner loop of `parse`: after the arguments `acc` already read,
      `n` more arguments one after another. */
  function ParseArgs(acc: seq<seq<char>>, n: nat, d: seq<char>): (s: Step<seq<seq<char>>>)
    ensures s.Done? ==> |s.rest| <= |d| && |s.value| == |acc| + n
    ensures s.Done? && n > 0 ==> |s.rest| < |d|
    decreases n
  {
    if n == 0 then Done(acc, d)
    else
      match ParseArgv(d)
      case Incomplete => Incomplete
      case Fail(e) => Fail(e)
      case Done(a, r) => ParseArgs(acc + [a], n - 1, r)
  }

  /** A command named `name` whose remaining arguments came out as `s`. */
  function WithName(name: seq<char>, s: Step<seq<seq<char>>>): Step<Command> {
    match s
    case Incomplete => Incomplete
    case Fail(e) => Fail(e)
    case Done(args, r) => Done(Command(name, args), r)
  }

  /** One iteration of the loop of `parse`: a whole command. */
  function ParseCommand(d: seq<char>): (s: Step<Command>)
    ensures s.Done? ==> |s.rest| < |d|
  {
    match ParseArgc(d)
    case Incomplete => Incomplete
    case Fail(e) => Fail(e)
    case Done(argc, r1) =>
      if argc == 0 then Fail(ZeroArgument)
      else
        match ParseArgv(r1)
        case Incomplete => Incomplete
        case Fail(e) => Fail(e)
        case Done(name, r2) => WithName(name, ParseArgs([], argc - 1, r2))
  }

  /** Where the loop of `parse` ends: the commands read, and the view left
      after the last of them; or the fault that was thrown. */
  datatype Scan = Scanned(commands: seq<Command>, leftover: seq<char>) | Faulted(error: ParseError)

  /**
   * The loop of `parse` after the commands `acc` were read: one complete
   * command per iteration until the view holds no complete command, and a
   * framing fault anywhere among the complete bytes, or at the start of the
   * first incomplete command, is thrown. What is left is a suffix of the
   * view; it is the whole view exactly when no command was read.
   */
  function ParseStream(acc: seq<Command>, d: seq<char>): (r: Scan)
    ensures r.Scanned? ==> |r.leftover| <= |d|
    ensures r.Scanned? ==> |r.commands| >= |acc|
    ensures r.Scanned? ==> (|r.leftover| == |d| <==> r.commands == acc)
    decreases |d|
  {
    match ParseCommand(d)
    case Incomplete => Scanned(acc, d)
    case Fail(e) => Faulted(e)
    case Done(cmd, rest) => ParseStream(acc + [cmd], rest)
  }

  /** What `RespCommandParser::parse` returns: the complete commands, in
      order, and the offset just past the last of them. */
  function ParseAll(d: seq<char>): (r: Result)
    ensures r.Success? ==> r.value.consumed <= |d|
    ensures r.Success? ==> (r.value.consumed == 0 <==> |r.value.commands| == 0)
  {
    match ParseStream([], d)
    case Scanned(cmds, left) => Success(Parsed(cmds, |d| - |left|))
    case Faulted(e) => Failure(e)
  }

  /** `RespCommandParser::parse`: the `while (true)` loop, one command per
      iteration, recording the offset just past the last complete one. */
  method Parse(data: seq<char>) returns (r: Result)
    ensures r == ParseAll(data)
  {
    var buffer := data;
    var cmds: seq<Command> := [];
    var bytesParsed := 0;
    while true
      invariant |buffer| <= |data| && bytesParsed == |data| - |buffer|
      invariant ParseStream([], data) == ParseStream(cmds, buffer)
      decreases |buffer|
    {
      var cmd := ParseNextCommand(buffer);
      if cmd.Incomplete? {
        // Incomplete request.
        break;
      }
      if cmd.Fail? {
        return Failure(cmd.error);
      }
      cmds := cmds + [cmd.value];
      buffer := cmd.rest;
      bytesParsed := |data| - |buffer|;
    }
    return Success(Parsed(cmds, bytesParsed));
  }

  /** The body of the loop of `parse`: the count, the name, then the `for`
      loop over the remaining arguments, each step stopping when the input
      runs out and throwing on a framing fault. */
  method ParseNextCommand(view: seq<char>) returns (s: Step<Command>)
    ensures s == ParseCommand(view)
  {
    var argc := ParseArgc(view);
    CommandAtCount(view);
    if argc.Incomplete? {
      return Incomplete;
    }
    if argc.Fail? {
      return Fail(argc.error);
    }
    if argc.value == 0 {
      return Fail(ZeroArgument);
    }
    s := ParseCountedCommand(view, argc.value, argc.rest);
  }

  /** The rest of one iteration once the count `n` is read: the name, then
      the `for` loop over the other `n - 1` arguments. */
  method ParseCountedCommand(view: seq<char>, n: nat, buffer: seq<char>) returns (s: Step<Command>)
    requires ParseArgc(view) == Done(n, buffer) && n > 0
    ensures s == ParseCommand(view)
  {
    var name := ParseArgv(buffer);
    CommandAtName(view);
    if name.Incomplete? {
      return Incomplete;
    }
    if name.Fail? {
      return Fail(name.error);
    }
    var others := n - 1;
    var args := ParseRemainingArgs(others, name.rest);
    CommandOfParts(view, n, buffer, name.value, name.rest, args);
    if args.Incomplete? {
      return Incomplete;
    }
    if args.Fail? {
      return Fail(args.error);
    }
    return Done(Command(name.value, args.value), args.rest);
  }

  /** The `for` loop of `parse` that reads the `n` arguments after the
      name; it stops early when the input runs out. */
  method ParseRemainingArgs(n: nat, view: seq<char>) returns (s: Step<seq<seq<char>>>)
    ensures s == ParseArgs([], n, view)
  {
    var buffer := view;
    var args: seq<seq<char>> := [];
    var idx := 0;
    ghost var left := n;
    while idx != n
      invariant idx <= n && left == n - idx
      invariant ParseArgs([], n, view) == ParseArgs(args, left, buffer)
      decreases left
    {
      var argv := ParseArgv(buffer);
      if argv.Incomplete? {
        // Incomplete request.
        return Incomplete;
      }
      if argv.Fail? {
        return Fail(argv.error);
      }
      args := args + [argv.value];
      buffer := argv.rest;
      idx := idx + 1;
      left := left - 1;
    }
    return Done(args, buffer);
  }

  /** Where reading the count of a command stops it. */
  lemma {:induction false} CommandAtCount(d: seq<char>)
    ensures ParseArgc(d).Incomplete? ==> ParseCommand(d) == Incomplete
    ensures ParseArgc(d).Fail? ==> ParseCommand(d) == Fail(ParseArgc(d).error)
    ensures ParseArgc(d).Done? && ParseArgc(d).value == 0 ==> ParseCommand(d) == Fail(ZeroArgument)
  {
  }

  /** Where reading the name of a command stops it. */
  lemma {:induction false} CommandAtName(d: seq<char>)
    requires ParseArgc(d).Done? && ParseArgc(d).value > 0
    ensures ParseArgv(ParseArgc(d).rest).Incomplete? ==> ParseCommand(d) == Incomplete
    ensures ParseArgv(ParseArgc(d).rest).Fail? ==> ParseCommand(d) == Fail(ParseArgv(ParseArgc(d).rest).error)
  {
  }

  /** A command assembled from its count, its name and its other arguments. */
  lemma {:induction false} CommandOfParts(d: seq<char>, n: nat, r1: seq<char>, name: seq<char>, r2: seq<char>, args: Step<seq<seq<char>>>)
    requires ParseArgc(d) == Done(n, r1) && n > 0
    requires ParseArgv(r1) == Done(name, r2)
    requires args == ParseArgs([], n - 1, r2)
    ensures ParseCommand(d) == WithName(name, args)
  {
  }

  /** One more argument read: the loop goes on with one fewer to read. */
  lemma {:induction false} ArgsStep(acc: seq<seq<char>>, m: nat, d: seq<char>, a: seq<char>, r: seq<char>)
    requires ParseArgv(d) == Done(a, r)
    ensures ParseArgs(acc, m + 1, d) == ParseArgs(acc + [a], m, r)
  {
  }

  /** One more command read: the loop goes on after it. */
  lemma {:induction false} StreamStep(acc: seq<Command>, d: seq<char>, cmd: Command, rest: seq<char>)
    requires ParseCommand(d) == Done(cmd, rest)
    ensures ParseStream(acc, d) == ParseStream(acc + [cmd], rest)
  {
  }

  /** No complete command in front: the loop stops there, without a fault. */
  lemma {:induction false} StreamStop(acc: seq<Command>, d: seq<char>)
    requires ParseCommand(d).Incomplete?
    ensures ParseStream(acc, d) == Scanned(acc, d)
  {
  }

  /** A fault in front: the loop throws it, whatever was read before. */
  lemma {:induction false} StreamFault(acc: seq<Command>, d: seq<char>)
    requires ParseCommand(d).Fail?
    ensures ParseStream(acc, d) == Faulted(ParseCommand(d).error)
  {
  }

  /** `parse` returns what its loop read, and the offset where it stopped. */
  lemma {:induction false} AllOfScan(d: seq<char>, cmds: seq<Command>, left: seq<char>)
    requires ParseStream([], d) == Scanned(cmds, left)
    ensures ParseAll(d) == Success(Parsed(cmds, |d| - |left|))
  {
  }

  /** `parse` throws what its loop threw. */
  lemma {:induction false} AllOfFault(d: seq<char>, e: ParseError)
    requires ParseStream([], d) == Faulted(e)
    ensures ParseAll(d) == Failure(e)
  {
  }

  // ---------------------------------------------------------------------
  // Every step removes a prefix of the view and keeps the rest as it was.

  /** Removing the first `k` elements leaves a suffix. */
  lemma {:induction false} DropIsSuffix(d: seq<char>, k: nat)
    requires k <= |d|
    ensures IsSuffix(d[k..], d)
    decreases k
  {
    if k == 0 {
      assert d[0..] == d;
    } else {
      assert d[1..][k - 1..] == d[k..];
      DropIsSuffix(d[1..], k - 1);
    }
  }

  /** A suffix is exactly the last elements of the sequence it ends. */
  lemma {:induction false} SuffixIsDrop(r: seq<char>, d: seq<char>)
    requires IsSuffix(r, d)
    ensures |r| <= |d| && d[|d| - |r|..] == r
    decreases |d|
  {
    if r != d {
      SuffixIsDrop(r, d[1..]);
      assert d[1..][|d| - 1 - |r|..] == d[|d| - |r|..];
    }
  }

  lemma {:induction false} SuffixOfSuffix(r: seq<char>, m: seq<char>, d: seq<char>)
    requires IsSuffix(r, m) && IsSuffix(m, d)
    ensures IsSuffix(r, d)
    decreases |d|
  {
    if m != d {
      SuffixOfSuffix(r, m, d[1..]);
    }
  }

  lemma {:induction false} NumSuffix(c: char, d: seq<char>)
    requires ParseNum(c, d).Done?
    ensures IsSuffix(ParseNum(c, d).rest, d)
  {
    var k := DigitRun(d[1..]);
    assert ParseNum(c, d).rest == d[k + 3..];
    DropIsSuffix(d, k + 3);
  }

  lemma {:induction false} ArgvSuffix(d: seq<char>)
    requires ParseArgv(d).Done?
    ensures IsSuffix(ParseArgv(d).rest, d)
  {
    var num := ParseNum('$', d);
    NumSuffix('$', d);
    var len := num.value;
    assert ParseArgv(d).rest == num.rest[len + 2..];
    DropIsSuffix(num.rest, len + 2);
    SuffixOfSuffix(ParseArgv(d).rest, num.rest, d);
  }

  /** The first of `n > 0` arguments read whole, and where the rest start. */
  lemma {:induction false} ArgsHead(acc: seq<seq<char>>, n: nat, d: seq<char>) returns (a: seq<char>, r: seq<char>)
    requires n > 0 && ParseArgs(acc, n, d).Done?
    ensures ParseArgv(d) == Done(a, r)
    ensures ParseArgs(acc + [a], n - 1, r) == ParseArgs(acc, n, d)
  {
    a, r := ParseArgv(d).value, ParseArgv(d).rest;
  }

  lemma {:induction false} ArgsSuffix(acc: seq<seq<char>>, n: nat, d: seq<char>)
    requires ParseArgs(acc, n, d).Done?
    ensures IsSuffix(ParseArgs(acc, n, d).rest, d)
    decreases n
  {
    if n == 0 {
      assert IsSuffix(d, d);
    } else {
      var a, r := ArgsHead(acc, n, d);
      ArgvSuffix(d);
      ArgsSuffix(acc + [a], n - 1, r);
      SuffixOfSuffix(ParseArgs(acc, n, d).rest, r, d);
    }
  }

  lemma {:induction false} PartsSuffix(d: seq<char>, n: nat, r1: seq<char>, name: seq<char>, r2: seq<char>, args: seq<seq<char>>, r3: seq<char>)
    requires ParseArgc(d) == Done(n, r1) && n > 0
    requires ParseArgv(r1) == Done(name, r2)
    requires ParseArgs([], n - 1, r2) == Done(args, r3)
    ensures IsSuffix(r3, d)
  {
    NumSuffix('*', d);
    ArgvSuffix(r1);
    ArgsSuffix([], n - 1, r2);
    SuffixOfSuffix(r3, r2, r1);
    SuffixOfSuffix(r3, r1, d);
  }

  /** The count, the name and the other arguments of a command read whole. */
  lemma {:induction false} PartsOfCommand(d: seq<char>)
    returns (n: nat, r1: seq<char>, name: seq<char>, r2: seq<char>, args: seq<seq<char>>)
    requires ParseCommand(d).Done?
    ensures ParseArgc(d) == Done(n, r1) && n > 0
    ensures ParseArgv(r1) == Done(name, r2)
    ensures ParseArgs([], n - 1, r2) == Done(args, ParseCommand(d).rest)
  {
    CommandAtCount(d);
    n, r1 := ParseArgc(d).value, ParseArgc(d).rest;
    CommandAtName(d);
    name, r2 := ParseArgv(r1).value, ParseArgv(r1).rest;
    CommandOfParts(d, n, r1, name, r2, ParseArgs([], n - 1, r2));
    args := ParseArgs([], n - 1, r2).value;
  }

  lemma {:induction false} CommandSuffix(d: seq<char>)
    requires ParseCommand(d).Done?
    ensures IsSuffix(ParseCommand(d).rest, d)
  {
    var n, r1, name, r2, args := PartsOfCommand(d);
    PartsSuffix(d, n, r1, name, r2, args, ParseCommand(d).rest);
  }

  /** The loop of `parse` stops on a suffix of the view: the bytes before it
      are exactly the ones the commands it read span. */
  lemma {:induction false} StreamSuffix(acc: seq<Command>, d: seq<char>)
    requires ParseStream(acc, d).Scanned?
    ensures IsSuffix(ParseStream(acc, d).leftover, d)
    decreases |d|
  {
    match ParseCommand(d)
    case Incomplete =>
      assert IsSuffix(d, d);
    case Done(cmd, rest) =>
      CommandSuffix(d);
      StreamStep(acc, d, cmd, rest);
      StreamSuffix(acc + [cmd], rest);
      SuffixOfSuffix(ParseStream(acc, d).leftover, rest, d);
  }

  /** A command whose count is read but whose name is cut short is incomplete. */
  lemma {:induction false} CommandStopsAtName(d: seq<char>, n: nat, r: seq<char>)
    requires ParseArgc(d) == Done(n, r) && n > 0 && ParseArgv(r).Incomplete?
    ensures ParseCommand(d).Incomplete?
  {
  }
}
