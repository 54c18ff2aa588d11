/**
 * `Worker` and `WorkerPool`, run one step at a time. A worker owns a FIFO
 * queue of batch tasks; a round of its run loop drains the whole queue,
 * runs every batch in it and hands one reply per batch to the batch's
 * reactor. A pool owns a fixed number of worker slots, picks a slot by
 * `id % n`, and stops every worker by enqueueing a sentinel and emptying
 * the slot.
 */
module Workers {
  import opened RespParser
  import opened Tasks

  /**
   * `BatchTask`: the commands one connection sent in one read, with the
   * reactor to answer through and the response builder to render replies
   * with. A batch whose reactor is null is the stop sentinel.
   */
  datatype BatchTask =
    | Sentinel
    | Batch(reactor: nat, connectionId: nat, tasks: seq<Task>, unknownReply: Command -> seq<char>)

  /** `Reply`: a connection id and the reply bytes for it. */
  datatype Reply = Reply(connectionId: nat, reply: seq<char>)

  /** One `reactor->send` call: the reactor it went to and the reply it carried. */
  datatype Sent = Sent(reactor: nat, reply: Reply)

  /** The reply text of a batch: the task replies, in order. */
  function BatchText(tasks: seq<Task>, unknownReply: Command -> seq<char>): seq<char>
    decreases |tasks|
  {
    if |tasks| == 0 then []
    else BatchText(tasks[..|tasks| - 1], unknownReply) + Build(Run(tasks[|tasks| - 1]), unknownReply)
  }

  /** `_run_batch_task`'s result for a (non-sentinel) batch. */
  function BatchReply(b: BatchTask): Reply
    requires b.Batch?
  {
    Reply(b.connectionId, BatchText(b.tasks, b.unknownReply))
  }

  /** What one round of the run loop sends for a drained group: one reply
      per batch, in queue order, sentinels skipped. */
  function Outgoing(group: seq<BatchTask>): seq<Sent>
    decreases |group|
  {
    if |group| == 0 then []
    else
      var last := group[|group| - 1];
      Outgoing(group[..|group| - 1]) + (if last.Sentinel? then [] else [Sent(last.reactor, BatchReply(last))])
  }

  predicate HasSentinel(group: seq<BatchTask>) {
    exists i :: 0 <= i < |group| && group[i].Sentinel?
  }

  /** `n` copies of `s`, back to back. */
  function Repeat(s: seq<char>, n: nat): seq<char> {
    if n == 0 then [] else Repeat(s, n - 1) + s
  }

  /** The reply text of two task lists back to back is the two texts back to back. */
  lemma {:induction false} BatchTextAppend(a: seq<Task>, b: seq<Task>, unknownReply: Command -> seq<char>)
    ensures BatchText(a + b, unknownReply) == BatchText(a, unknownReply) + BatchText(b, unknownReply)
    decreases |b|
  {
    if |b| == 0 {
      assert a + b == a;
    } else {
      var b' := b[..|b| - 1];
      var ab := a + b;
      var last := Build(Run(b[|b| - 1]), unknownReply);
      assert ab[..|ab| - 1] == a + b';
      assert ab[|ab| - 1] == b[|b| - 1];
      assert BatchText(ab, unknownReply) == BatchText(a + b', unknownReply) + last;
      assert BatchText(b, unknownReply) == BatchText(b', unknownReply) + last;
      BatchTextAppend(a, b', unknownReply);
      AppendAssoc(BatchText(a, unknownReply), BatchText(b', unknownReply), last);
    }
  }

  /** A batch of `n` pings answers `+PONG\r\n` `n` times. */
  lemma {:induction false} AllPingBatch(tasks: seq<Task>, unknownReply: Command -> seq<char>)
    requires forall i :: 0 <= i < |tasks| ==> tasks[i] == Ping
    ensures BatchText(tasks, unknownReply) == Repeat(PongReply, |tasks|)
    decreases |tasks|
  {
    if |tasks| > 0 {
      AllPingBatch(tasks[..|tasks| - 1], unknownReply);
      PongBuilds(unknownReply);
    }
  }

  /** The sends of two groups back to back are the two groups' sends back to back. */
  lemma {:induction false} OutgoingAppend(a: seq<BatchTask>, b: seq<BatchTask>)
    ensures Outgoing(a + b) == Outgoing(a) + Outgoing(b)
    decreases |b|
  {
    if |b| == 0 {
      assert a + b == a;
    } else {
      var b' := b[..|b| - 1];
      assert (a + b)[..|a + b| - 1] == a + b';
      assert (a + b)[|a + b| - 1] == b[|b| - 1];
      OutgoingAppend(a, b');
    }
  }

  /** A sentinel sends nothing and does not stop the batches queued after
      it in the same group from being run and answered. */
  lemma {:induction false} SentinelSkipped(a: seq<BatchTask>, b: seq<BatchTask>)
    ensures Outgoing(a + [Sentinel] + b) == Outgoing(a) + Outgoing(b)
  {
    OutgoingAppend(a + [Sentinel], b);
    assert (a + [Sentinel])[..|a|] == a;
  }

  /** A group without sentinels sends exactly one reply per batch, each to
      its own reactor and carrying its own connection id. */
  lemma {:induction false} OutgoingOfBatches(group: seq<BatchTask>)
    requires forall i :: 0 <= i < |group| ==> group[i].Batch?
    ensures |Outgoing(group)| == |group|
    ensures forall i :: 0 <= i < |group| ==>
      Outgoing(group)[i] == Sent(group[i].reactor, BatchReply(group[i]))
    ensures forall i :: 0 <= i < |group| ==> Outgoing(group)[i].reply.connectionId == group[i].connectionId
    decreases |group|
  {
    if |group| > 0 {
      OutgoingOfBatches(group[..|group| - 1]);
    }
  }

  class Worker {
    /** `_tasks`: batches submitted and not yet fetched, oldest first. */
    var queue: seq<BatchTask>
    /** Every `reactor->send` this worker has made, in order. */
    var outbox: seq<Sent>

    /** A new worker: nothing queued, nothing sent. */
    constructor ()
      ensures |queue| == 0 && |outbox| == 0
    {
      queue := [];
      outbox := [];
    }

    /** `submit`: append the batch to the end of the queue. */
    method Submit(batch: BatchTask)
      modifies this
      ensures queue == old(queue) + [batch]
      ensures outbox == old(outbox)
    {
      queue := queue + [batch];
    }

    /** `stop`: submit the sentinel (a batch whose reactor is null). */
    method Stop()
      modifies this
      ensures queue == old(queue) + [Sentinel]
      ensures outbox == old(outbox)
      ensures HasSentinel(queue)
    {
      Submit(Sentinel);
      assert queue[|queue| - 1].Sentinel?;
    }

    /** `_fetch_tasks`: take the whole queue, leaving it empty. The source
        blocks until the queue is non-empty; here a round starts only then. */
    method FetchTasks() returns (group: seq<BatchTask>)
      requires |queue| > 0
      modifies this
      ensures group == old(queue) && |queue| == 0
      ensures outbox == old(outbox)
    {
      group := queue;
      queue := [];
    }

    /** `_run_batch_task`: run the tasks in order and concatenate their replies. */
    static method RunBatchTask(batch: BatchTask) returns (reply: Reply)
      requires batch.Batch?
      ensures reply == BatchReply(batch)
    {
      var text: seq<char> := [];
      for i := 0 to |batch.tasks|
        invariant text == BatchText(batch.tasks[..i], batch.unknownReply)
      {
        var output := Run(batch.tasks[i]);
        text := text + Build(output, batch.unknownReply);
        assert batch.tasks[..i + 1][..i] == batch.tasks[..i];
      }
      assert batch.tasks[..|batch.tasks|] == batch.tasks;
      reply := Reply(batch.connectionId, text);
    }

    /**
     * One pass of the `_run` loop: drain the queue, run every batch that is
     * not a sentinel and send its reply to its reactor; report whether the
     * group held a sentinel, in which case the thread leaves the loop.
     */
    method RunRound() returns (stopThread: bool)
      requires |queue| > 0
      modifies this
      ensures outbox == old(outbox) + Outgoing(old(queue))
      ensures |queue| == 0
      ensures stopThread <==> HasSentinel(old(queue))
    {
      var group := FetchTasks();
      stopThread := false;
      for i := 0 to |group|
        invariant |queue| == 0
        invariant outbox == old(outbox) + Outgoing(group[..i])
        invariant stopThread <==> HasSentinel(group[..i])
      {
        assert group[..i + 1][..i] == group[..i];
        if group[i].Sentinel? {
          stopThread := true;
          assert group[..i + 1][i].Sentinel?;
        } else {
          var reply := RunBatchTask(group[i]);
          outbox := outbox + [Sent(group[i].reactor, reply)];
          assert HasSentinel(group[..i + 1]) ==> HasSentinel(group[..i]);
        }
      }
      assert group[..|group|] == group;
    }
  }

  /** What `fetch` gives back: the worker in the slot, or the
      "worker has been stopped" error. */
  datatype Fetched = Found(worker: Worker) | Stopped

  class WorkerPool {
    /** `_workers`: one slot per worker; a null slot has been stopped. */
    var workers: seq<Worker?>

    /** At least one slot, and no worker in two slots. */
    ghost predicate Valid()
      reads this
    {
      |workers| > 0 &&
      forall a, b :: 0 <= a < b < |workers| && workers[a] != null ==> workers[a] != workers[b]
    }

    ghost function Members(): set<Worker>
      reads this
    {
      set k | 0 <= k < |workers| && workers[k] != null :: workers[k]
    }

    /** The constructor: `num` fresh, idle workers. */
    constructor (num: nat)
      requires num > 0
      ensures Valid() && |workers| == num
      ensures forall k :: 0 <= k < num ==> workers[k] != null && fresh(workers[k])
      ensures forall k :: 0 <= k < num ==> workers[k] != null && |workers[k].queue| == 0
    {
      var slots: seq<Worker?> := [];
      for idx := 0 to num
        invariant |slots| == idx
        invariant forall k :: 0 <= k < idx ==> slots[k] != null && fresh(slots[k]) && |slots[k].queue| == 0
        invariant forall a, b :: 0 <= a < b < idx ==> slots[a] != slots[b]
      {
        var w := new Worker();
        slots := slots + [w];
      }
      workers := slots;
    }

    /** Construction with a size: no pool (the "must larger than 0" error)
        for 0, otherwise a pool of exactly that many workers. */
    static method Create(num: nat) returns (pool: WorkerPool?)
      ensures pool == null <==> num == 0
      ensures pool != null ==> fresh(pool) && pool.Valid() && |pool.workers| == num
    {
      if num == 0 {
        return null;
      }
      pool := new WorkerPool(num);
    }

    /** `fetch`: the worker in slot `id % n`, or the stopped error when that
        slot is empty. */
    function Fetch(id: nat): (r: Fetched)
      reads this
      requires |workers| > 0
      ensures r.Stopped? <==> workers[id % |workers|] == null
      ensures r.Found? ==> r.worker == workers[id % |workers|] && r.worker in Members()
      ensures (forall k :: 0 <= k < |workers| ==> workers[k] == null) ==> r.Stopped?
    {
      var w := workers[id % |workers|];
      if w != null then Found(w) else Stopped
    }

    /** The same id, or any id a whole number of laps away, always reaches
        the same slot. */
    lemma {:induction false} FetchPeriodic(id: nat, laps: nat)
      requires |workers| > 0
      ensures Fetch(id + laps * |workers|) == Fetch(id)
      decreases laps
    {
      if laps > 0 {
        var n := |workers|;
        FetchPeriodic(id, laps - 1);
        assert id + laps * n == (id + (laps - 1) * n) + n;
        LapMod(id + (laps - 1) * n, n);
      }
    }

    /**
     * `stop`: stop every worker still in a slot and empty the slot. Each
     * of those workers gets exactly one sentinel; afterwards every `fetch`
     * fails, and calling `stop` again changes nothing.
     */
    method Stop()
      requires Valid()
      modifies this, Members()
      ensures Valid() && |workers| == old(|workers|)
      ensures forall k :: 0 <= k < |workers| ==> workers[k] == null
      ensures forall k :: 0 <= k < |old(workers)| && old(workers[k]) != null ==>
        old(workers[k]).queue == old(workers[k].queue) + [Sentinel]
      ensures forall k :: 0 <= k < |old(workers)| && old(workers[k]) != null ==>
        old(workers[k]).outbox == old(workers[k].outbox)
      ensures forall id: nat :: Fetch(id).Stopped?
      ensures (forall k :: 0 <= k < |old(workers)| ==> old(workers[k]) == null) ==> workers == old(workers)
    {
      ghost var slots := workers;
      var i := 0;
      while i < |workers|
        invariant |workers| == |slots| && i <= |workers|
        invariant forall k :: 0 <= k < i ==> workers[k] == null
        invariant forall k :: i <= k < |workers| ==> workers[k] == slots[k]
        invariant forall k :: 0 <= k < i && slots[k] != null ==>
          slots[k].queue == old(slots[k].queue) + [Sentinel] && slots[k].outbox == old(slots[k].outbox)
        invariant forall k :: i <= k < |slots| && slots[k] != null ==>
          slots[k].queue == old(slots[k].queue) && slots[k].outbox == old(slots[k].outbox)
        invariant (forall k :: 0 <= k < |slots| ==> slots[k] == null) ==> workers == slots
      {
        var w := workers[i];
        if w != null {
          assert w in old(Members());
          w.Stop();
          workers := workers[i := null];
        }
        i := i + 1;
      }
    }
  }

  lemma {:induction false} AppendAssoc<T>(x: seq<T>, y: seq<T>, z: seq<T>)
    ensures (x + y) + z == x + (y + z)
  {
  }

  /** Adding one lap to an id leaves its slot unchanged. */
  lemma {:induction false} LapMod(id: nat, n: nat)
    requires n > 0
    ensures (id + n) % n == id % n
  {
    var q, r := id / n, id % n;
    var q2, r2 := (id + n) / n, (id + n) % n;
    var d := q2 - q - 1;
    assert d * n == r - r2 by {
      assert id == q * n + r;
      assert id + n == q2 * n + r2;
      assert d * n == q2 * n - q * n - n;
    }
    MultipleSign(d, n);
  }

  /** A non-zero multiple of `n` is at least `n` away from 0. */
  lemma {:induction false} MultipleSign(d: int, n: int)
    requires n > 0
    ensures d > 0 ==> d * n >= n
    ensures d < 0 ==> d * n <= -n
  {
    if d > 0 {
      assert (d - 1) * n >= 0;
    } else if d < 0 {
      assert (-d - 1) * n >= 0;
    }
  }
}
