/**
 * `Connection`: one client socket's read buffer and its three event-loop
 * callbacks. `on_alloc` lends the loop room in the read buffer, `on_read`
 * commits what was read, parses every whole command in the buffer, drops
 * their bytes and dispatches them to the reactor, and `on_close` takes the
 * connection out of the reactor's table.
 */
module Connections {
  import opened RespParser
  import opened RespFraming
  import opened ReadBuffers

  /** One `Reactor::dispatch` call: the connection and its commands, in order. */
  datatype Dispatched = Dispatched(connectionId: nat, commands: seq<Command>)

  /** The reactor, as far as connections reach it: the calls it received. */
  class Reactor {
    var dispatched: seq<Dispatched>
    /** Ids passed to `remove_connection`, in order. */
    var removed: seq<nat>

    constructor ()
      ensures |dispatched| == 0 && |removed| == 0
    {
      dispatched := [];
      removed := [];
    }

    method Dispatch(connectionId: nat, commands: seq<Command>)
      modifies this
      ensures dispatched == old(dispatched) + [Dispatched(connectionId, commands)]
      ensures removed == old(removed)
    {
      dispatched := dispatched + [Dispatched(connectionId, commands)];
    }

    method RemoveConnection(connectionId: nat)
      modifies this
      ensures removed == old(removed) + [connectionId]
      ensures dispatched == old(dispatched)
    {
      removed := removed + [connectionId];
    }
  }

  /** What one `on_read` call does with the bytes in the buffer. */
  datatype ReadOutcome =
    | Retain                                        // keep every byte, dispatch nothing
    | Consume(consumed: nat, commands: seq<Command>) // drop `consumed` bytes, dispatch `commands`
    | Close                                         // close the connection

  /**
   * The decision `on_read` takes, given `nread` and the buffer's unparsed
   * bytes after the read was committed: close on a read error or end of
   * stream, close on a malformed command, keep everything while no command
   * is complete, and otherwise consume the complete commands.
   */
  function ReadStep(nread: int, data: seq<char>): (o: ReadOutcome)
    ensures nread < 0 ==> o == Close
    ensures nread == 0 ==> o == Retain
    ensures nread > 0 ==> (o == Close <==> ParseAll(data).Failure?)
    ensures o.Consume? ==> 0 < o.consumed <= |data| && |o.commands| > 0
    ensures o.Consume? ==> ParseAll(data) == Success(Parsed(o.commands, o.consumed))
    ensures o.Retain? && nread > 0 ==> ParseAll(data) == Success(Parsed([], 0))
  {
    if nread < 0 then Close
    else if nread == 0 then Retain
    else
      match ParseAll(data)
      case Failure(_) => Close
      case Success(p) => if |p.commands| == 0 then Retain else Consume(p.consumed, p.commands)
  }

  class Connection {
    const id: nat
    const readBuf: ReadBuffer
    const reactor: Reactor
    /** `uv::handle_close` has been called; `on_close` follows. */
    var closing: bool

    ghost predicate Valid()
      reads this, readBuf
    {
      readBuf.Valid()
    }

    /** The unparsed bytes once a read of `nread` bytes is committed. */
    ghost function Received(nread: int): seq<char>
      reads this, readBuf, readBuf.buf
      requires readBuf.Valid()
    {
      if 0 < nread && readBuf.size + nread <= readBuf.buf.Length then readBuf.buf[..readBuf.size + nread]
      else readBuf.Data()
    }

    /** The constructor: a read buffer of the configured sizes. */
    constructor (id: nat, minSize: nat, maxSize: nat, reactor: Reactor)
      requires 0 < minSize <= maxSize
      ensures Valid() && !closing && fresh(readBuf) && fresh(readBuf.buf)
      ensures this.id == id && this.reactor == reactor
      ensures readBuf.size == 0 && readBuf.buf.Length == minSize
      ensures readBuf.minSize == minSize && readBuf.maxSize == maxSize
    {
      this.id := id;
      this.reactor := reactor;
      readBuf := new ReadBuffer(minSize, maxSize);
      closing := false;
    }

    /** `on_alloc`: hand the loop the buffer's free room, grown if needed. */
    method OnAlloc(suggested: nat) returns (offset: nat, len: nat)
      requires Valid()
      modifies readBuf
      ensures Valid() && readBuf.size == old(readBuf.size) && readBuf.Data() == old(readBuf.Data())
      ensures readBuf.buf.Length == Grown(old(readBuf.buf.Length), readBuf.size, suggested, readBuf.maxSize)
      ensures readBuf.buf == old(readBuf.buf) || fresh(readBuf.buf)
      ensures offset == readBuf.size && len == readBuf.buf.Length - readBuf.size
    {
      offset, len := readBuf.Alloc(suggested);
    }

    /**
     * `on_read`. The loop has written `nread` bytes into the room `on_alloc`
     * lent (so they fit). Returns, as a ghost, the decision taken; the
     * buffer keeps the bytes not consumed, and the reactor has received the
     * complete commands when there were any.
     */
    method OnRead(nread: int) returns (ghost outcome: ReadOutcome)
      requires Valid()
      requires nread > 0 ==> readBuf.size + nread <= readBuf.buf.Length
      modifies this, readBuf, readBuf.buf, reactor
      ensures Valid() && reactor.removed == old(reactor.removed)
      ensures readBuf.buf == old(readBuf.buf) || fresh(readBuf.buf)
      ensures !outcome.Consume? ==> readBuf.buf == old(readBuf.buf)
      ensures outcome.Consume? && |old(Received(nread))| - outcome.consumed < readBuf.minSize / 2 ==>
        readBuf.buf.Length == readBuf.minSize && fresh(readBuf.buf)
      ensures outcome.Consume? && |old(Received(nread))| - outcome.consumed >= readBuf.minSize / 2 ==>
        readBuf.buf == old(readBuf.buf)
      ensures outcome == ReadStep(nread, old(Received(nread)))
      ensures outcome.Close? ==> closing && readBuf.Data() == old(Received(nread))
      ensures !outcome.Close? ==> closing == old(closing)
      ensures outcome.Retain? ==> readBuf.Data() == old(Received(nread))
      ensures outcome.Consume? ==> readBuf.Data() == old(Received(nread))[outcome.consumed..]
      ensures outcome.Consume? ==>
        reactor.dispatched == old(reactor.dispatched) + [Dispatched(id, outcome.commands)]
      ensures !outcome.Consume? ==> reactor.dispatched == old(reactor.dispatched)
    {
      ghost var received := Received(nread);
      outcome := ReadStep(nread, received);
      if nread > 0 {
        readBuf.Occupy(nread as nat);
        assert readBuf.Data() == received;
        var parsed := Parse(readBuf.Data());
        if parsed.Failure? {
          // A thrown parse error: close, keep the bytes, dispatch nothing.
          closing := true;
          return;
        }
        if |parsed.value.commands| > 0 {
          var len := parsed.value.consumed;
          readBuf.Dealloc(len);
          reactor.Dispatch(id, parsed.value.commands);
        }
      }
      if nread < 0 {
        closing := true;
      }
    }

    /** `on_close`: remove this connection from the reactor's table. */
    method OnClose()
      modifies reactor
      ensures reactor.removed == old(reactor.removed) + [id]
      ensures reactor.dispatched == old(reactor.dispatched)
    {
      reactor.RemoveConnection(id);
    }
  }

  /**
   * A well-formed request stream arriving cut at any byte `j`: the read
   * never closes the connection; it dispatches exactly the commands wholly
   * inside the first `j` bytes and consumes exactly their bytes, or keeps
   * everything when none is complete yet.
   */
  lemma {:induction false} ReadOfPrefix(cs: seq<Command>, j: nat, nread: int)
    requires j <= |EncodeAll(cs)| && nread > 0
    ensures ReadStep(nread, EncodeAll(cs)[..j]) != Close
    ensures Fitting(cs, j) == 0 ==> ReadStep(nread, EncodeAll(cs)[..j]) == Retain
    ensures Fitting(cs, j) > 0 ==>
      ReadStep(nread, EncodeAll(cs)[..j]) == Consume(FittingBytes(cs, j), cs[..Fitting(cs, j)])
  {
    ParsePrefix(cs, j);
  }

  /**
   * Two reads in a row: the first ends at any byte `j` of a well-formed
   * stream, the second brings the rest. The bytes the first read kept,
   * followed by the second chunk, make the second read dispatch exactly the
   * commands the first did not, and consume every remaining byte.
   */
  lemma {:induction false} ReadResumes(cs: seq<Command>, j: nat, nread: int)
    requires j <= |EncodeAll(cs)| && nread > 0
    ensures var e := EncodeAll(cs);
      var k := FittingBytes(cs, j);
      ReadStep(nread, e[..j][k..] + e[j..]) ==
        if Fitting(cs, j) < |cs| then Consume(|e| - k, cs[Fitting(cs, j)..]) else Retain
  {
    Resumable(cs, j);
  }

  /** A malformed command closes the connection, and the complete commands
      before it in the same buffer are dropped with it, never dispatched. */
  lemma {:induction false} FaultDropsBatch(cs: seq<Command>, d: seq<char>, nread: int)
    requires ParseCommand(d).Fail? && nread > 0
    ensures ReadStep(nread, EncodeAll(cs) + d) == Close
  {
    FaultDiscardsEarlierCommands(cs, d);
  }
}
