/**
 * Commands as tasks: `RespTaskCreator` maps a parsed command to a task by
 * its lower-cased name, a task runs to an output, and `RespResponseBuilder`
 * turns an output into reply bytes. `"ping"` is the only registered name;
 * everything else becomes an unknown-command task carrying the command.
 */
module Tasks {
  import opened Decimal
  import opened RespReply
  import opened RespParser
  import opened RespFraming
  import opened StrUtils

  /** `PingTask`, or the fallback `UnknownTask` built from the command. */
  datatype Task = Ping | Unknown(cmd: Command)

  /** `PingTaskOutput`, or the output of an `UnknownTask`. */
  datatype TaskOutput = Pong | UnknownOutput(cmd: Command)

  const PongReply: seq<char> := "+PONG\r\n"

  /** `Task::run`. `PingTask::run` always yields a `PingTaskOutput`; what an
      `UnknownTask` yields is carried along as its command. */
  function Run(t: Task): TaskOutput {
    match t
    case Ping => Pong
    case Unknown(cmd) => UnknownOutput(cmd)
  }

  /** `RespResponseBuilder::build`: the output's own RESP reply. The reply
      of an unknown command is given by `unknownReply`. */
  function Build(o: TaskOutput, unknownReply: Command -> seq<char>): seq<char> {
    match o
    case Pong => SimpleString("PONG")
    case UnknownOutput(cmd) => unknownReply(cmd)
  }

  /** `PingTaskOutput::to_resp_reply`: a builder with one simple string. */
  method PingReply() returns (reply: seq<char>)
    ensures reply == PongReply
    ensures reply == Build(Pong, _ => [])
  {
    var builder := new ReplyBuilder();
    builder.AppendSimpleString("PONG");
    reply := builder.Data();
  }

  /** The reply a ping task's output builds to. */
  lemma {:induction false} PongBuilds(unknownReply: Command -> seq<char>)
    ensures Build(Pong, unknownReply) == PongReply
  {
    assert SimpleString("PONG") == ['+'] + "PONG" + CRLF;
  }

  /** `RespTaskCreator::create`: look the lower-cased name up among the
      registered creators; `_make_unknown_task` otherwise. */
  function Create(cmd: Command): Task {
    if Lower(cmd.name) == "ping" then Ping else Unknown(cmd)
  }

  /** The spellings of "ping" that `create` accepts: every mix of cases. */
  lemma {:induction false} PingSpellings(name: seq<char>)
    ensures Lower(name) == "ping" <==>
      |name| == 4 && name[0] in "pP" && name[1] in "iI" && name[2] in "nN" && name[3] in "gG"
  {
    if Lower(name) == "ping" {
      assert LowerChar(name[0]) == 'p' && LowerChar(name[1]) == 'i';
      assert LowerChar(name[2]) == 'n' && LowerChar(name[3]) == 'g';
    }
  }

  /** A command becomes a ping task exactly when its name is "ping" in some
      mix of cases, whatever its arguments; any other command becomes an
      unknown-command task carrying that same command. */
  lemma {:induction false} CreateDispatch(cmd: Command)
    ensures Create(cmd) == Ping <==> Lower(cmd.name) == "ping"
    ensures Create(cmd) != Ping ==> Create(cmd) == Unknown(cmd)
    ensures forall args :: Create(Command(cmd.name, args)).Ping? == Create(cmd).Ping?
  {
  }

  /** Names that differ only in case dispatch alike. */
  lemma {:induction false} CreateIgnoresCase(a: Command, b: Command)
    requires |a.name| == |b.name|
    requires forall i :: 0 <= i < |a.name| ==> LowerChar(a.name[i]) == LowerChar(b.name[i])
    ensures Create(a).Ping? == Create(b).Ping?
  {
    LowerCaseInsensitive(a.name, b.name);
  }

  /** `tasks` holds one task per command, created in order. */
  predicate CreatedFrom(tasks: seq<Task>, cmds: seq<Command>) {
    |tasks| == |cmds| && forall i :: 0 <= i < |tasks| ==> tasks[i] == Create(cmds[i])
  }

  /** What `RespRequestParser::parse` returns: one task per command, and the
      bytes consumed; or the fault the command parser threw. */
  datatype Requests = Requests(tasks: seq<Task>, consumed: nat) | Rejected(error: ParseError)

  /** `RespRequestParser::parse`: parse the commands, then create one task
      per command, in order. */
  method ParseRequests(buffer: seq<char>) returns (r: Requests)
    ensures ParseAll(buffer).Failure? ==> r == Rejected(ParseAll(buffer).error)
    ensures ParseAll(buffer).Success? ==> r.Requests? && r.consumed == ParseAll(buffer).value.consumed
    ensures ParseAll(buffer).Success? ==> r.Requests? && CreatedFrom(r.tasks, ParseAll(buffer).value.commands)
  {
    var parsed := Parse(buffer);
    if parsed.Failure? {
      return Rejected(parsed.error);
    }
    var cmds := parsed.value.commands;
    var tasks: seq<Task> := [];
    for i := 0 to |cmds|
      invariant |tasks| == i
      invariant forall k :: 0 <= k < i ==> tasks[k] == Create(cmds[k])
    {
      var task := Create(cmds[i]);
      tasks := tasks + [task];
    }
    return Requests(tasks, parsed.value.consumed);
  }

  /** The request `*1\r\n$4\r\n<name>\r\n`. */
  function PingRequest(name: seq<char>): seq<char> {
    "*1\r\n$4\r\n" + name + "\r\n"
  }

  lemma {:induction false} PingRequestEncodes(name: seq<char>)
    requires |name| == 4
    ensures PingRequest(name) == EncodeAll([Command(name, [])])
  {
    var c := Command(name, []);
    assert NatToString(1) == "1" && NatToString(4) == "4";
    assert EncodeCommand(c) == "*1\r\n" + ("$4\r\n" + name + "\r\n") + [];
    assert EncodeAll([c]) == EncodeCommand(c) + EncodeAll([]);
  }

  /** `*1\r\n$4\r\n<name>\r\n` with a four-byte name is one command
      spanning all 14 bytes. */
  lemma {:induction false} PingRequestParses(name: seq<char>)
    requires |name| == 4
    ensures ParseAll(PingRequest(name)) == Success(Parsed([Command(name, [])], 14))
  {
    PingRequestEncodes(name);
    RoundTrip([Command(name, [])]);
  }

  /** End to end: `*1\r\n$4\r\nPING\r\n` in any mix of cases is one ping
      task, and its reply is `+PONG\r\n`. */
  lemma {:induction false} PingEndToEnd(name: seq<char>, unknownReply: Command -> seq<char>)
    requires Lower(name) == "ping"
    ensures ParseAll(PingRequest(name)) == Success(Parsed([Command(name, [])], 14))
    ensures Create(Command(name, [])) == Ping
    ensures Build(Run(Create(Command(name, []))), unknownReply) == PongReply
  {
    assert |name| == |Lower(name)| == 4;
    PingRequestParses(name);
    PongBuilds(unknownReply);
  }
}
