/** aiocontext.c and the reaper of blockdevice.c: request contexts updated in place. */
module AioContexts {
  import opened AioSpec
  import opened AioSubmit

  const BITSTORE_OK: int := 0
  const BITSTORE_ERR_AIO_CONTEXT_LIST_FULL: int := -1002000
  const BITSTORE_ERR_AIO_EIO: int := -1002001

  // One request; its iocb is its first member, so the request stands for the iocb too.
  class Aio {
    var fd: int
    var priv: AioContext?
    var rval: int
    var offset: nat
    var length: nat

    constructor ()
      ensures priv == null && length == 0
    {
      fd, priv, rval, offset, length := 0, null, 0, 0, 0;
    }
  }

  class AioContext {
    var rval: int
    var length: nat
    var numRunning: nat
    var numPending: nat
    var aios: seq<Aio>           // the malloc'ed list of requests
    ghost var signals: nat       // thread_cond_signal calls on `cond`

    ghost predicate Valid()
      reads this, aios
    {
      && numPending <= length == |aios| == CAPACITY
      && (forall i, j :: 0 <= i < j < |aios| ==> aios[i] != aios[j])
      && (forall i :: 0 <= i < numPending ==> aios[i].priv == this)
    }

    ghost function State(): Counters
      reads this
    {
      Counters(numPending, numRunning, rval, signals)
    }

    // The lengths of the requests added so far.
    ghost function Lengths(): (r: seq<nat>)
      requires Valid()
      reads this, aios
      ensures |r| == numPending
    {
      seq(numPending, i requires 0 <= i < numPending && numPending <= |aios| reads this, aios => aios[i].length)
    }

    /** aio_context_init */
    constructor ()
      ensures Valid() && State() == FRESH && State() == Counters(0, 0, -1000, 0) && length == 100
      ensures forall a :: a in aios ==> fresh(a)
    {
      var list: seq<Aio> := [];
      for i := 0 to CAPACITY
        invariant |list| == i && forall a :: a in list ==> fresh(a)
        invariant forall p, q :: 0 <= p < q < i ==> list[p] != list[q]
      {
        var a := new Aio();
        list := list + [a];
      }
      rval, length, numRunning, numPending, aios, signals := -1000, CAPACITY, 0, 0, list, 0;
    }

    /** aio_context_add followed by the preparation of the new request, as block_device_aio_read
        and block_device_aio_write do it. A full list is reported and nothing changes. */
    method Add(fd: int, offset: nat, len: nat) returns (ret: int)
      requires Valid()
      modifies this`numPending, aios
      ensures Valid()
      ensures ret == if old(numPending) < length then BITSTORE_OK else BITSTORE_ERR_AIO_CONTEXT_LIST_FULL
      ensures ret == BITSTORE_OK ==>
                Lengths() == old(Lengths()) + [len] && State() == old(State()).(pending := old(numPending) + 1)
      ensures ret == BITSTORE_OK ==>
                var a := aios[old(numPending)]; a.fd == fd && a.priv == this && a.offset == offset
      ensures ret != BITSTORE_OK ==> Lengths() == old(Lengths()) && State() == old(State())
    {
      if numPending == length {
        return BITSTORE_ERR_AIO_CONTEXT_LIST_FULL;
      }
      aios[numPending].fd := fd;
      aios[numPending].priv := this;
      numPending := numPending + 1;
      aios[numPending - 1].offset := offset;
      aios[numPending - 1].length := len;
      return BITSTORE_OK;
    }

    /** aio_context_try_wake */
    method TryWake()
      modifies this`numRunning, this`signals
      ensures State() == old(State()).(running := old(numRunning) + 1,
                                       signals := old(signals) + (if old(numRunning) + 1 == numPending then 1 else 0))
    {
      numRunning := numRunning + 1;
      if numRunning == numPending {
        signals := signals + 1;
      }
    }
  }

  // What io_getevents reports for one completed iocb.
  datatype IoEvent = IoEvent(obj: Aio, res: int)

  /** aio_queue_getevents, after the kernel has filled the event array: event i names request i. */
  method GetEvents(paio: array<Aio>, events: seq<IoEvent>)
    requires |events| <= paio.Length
    requires forall i, j :: 0 <= i < j < |events| ==> events[i].obj != events[j].obj
    modifies paio, (set e | e in events :: e.obj)`rval
    ensures forall i :: 0 <= i < |events| ==> paio[i] == events[i].obj && events[i].obj.rval == events[i].res
    ensures forall i :: |events| <= i < paio.Length ==> paio[i] == old(paio[i])
  {
    for i := 0 to |events|
      invariant forall j :: 0 <= j < i ==> paio[j] == events[j].obj && events[j].obj.rval == events[j].res
      invariant forall j :: i <= j < paio.Length ==> paio[j] == old(paio[j])
    {
      paio[i] := events[i].obj;
      events[i].obj.rval := events[i].res;
    }
  }

  // A fetched request as the reaper finds it.
  datatype Fetched = Fetched(owner: AioContext?, completion: Completion)

  ghost function Snapshot(batch: seq<Aio>): (r: seq<Fetched>)
    reads batch
    ensures |r| == |batch|
    ensures forall i :: 0 <= i < |batch| ==> r[i] == Fetched(batch[i].priv, Completion(batch[i].length, batch[i].rval))
  {
    seq(|batch|, i requires 0 <= i < |batch| reads batch =>
      Fetched(batch[i].priv, Completion(batch[i].length, batch[i].rval)))
  }

  // The completions a batch holds for one context, in batch order.
  ghost function CompletionsFor(c: AioContext, batch: seq<Fetched>): seq<Completion> {
    if batch == [] then []
    else
      var f := batch[|batch| - 1];
      CompletionsFor(c, batch[..|batch| - 1]) + (if f.owner == c then [f.completion] else [])
  }

  lemma ProcessNext(c: AioContext, start: Counters, batch: seq<Fetched>, i: nat)
    requires i < |batch|
    ensures var past := ProcessAll(start, CompletionsFor(c, batch[..i]));
            ProcessAll(start, CompletionsFor(c, batch[..i + 1])) ==
            if batch[i].owner == c then Process(past, batch[i].completion.length, batch[i].completion.res) else past
  {
    assert batch[..i + 1][..i] == batch[..i];
    var past := CompletionsFor(c, batch[..i]);
    if batch[i].owner == c {
      ProcessAllSnoc(start, past, batch[i].completion);
    } else {
      assert past + [] == past;
    }
  }

  // What completions do to a context: all are counted, the last one gives the result, and one
  // signal is sent when the count passes the number of requests.
  predicate Reaped(before: Counters, done: seq<Completion>, after: Counters) {
    && after.pending == before.pending && after.running == before.running + |done|
    && after.signals == before.signals + (if before.running < before.pending <= after.running then 1 else 0)
    && (if done == [] then after.rval == before.rval else ResultOf(done[|done| - 1], after.rval))
  }

  // The reaper's loop body.
  method ReapOne(a: Aio)
    requires a.priv != null
    modifies a.priv`rval, a.priv`numRunning, a.priv`signals
    ensures a.priv.State() == Process(old(a.priv.State()), a.length, a.rval)
    ensures Reaped(old(a.priv.State()), [Completion(a.length, a.rval)], a.priv.State())
  {
    var aioctx := a.priv;
    var r := a.rval;
    if r < 0 {
      aioctx.rval := -EIO;
    } else if a.length != r {
      aioctx.rval := -EIO;
    } else {
      aioctx.rval := ToInt32(r);
    }
    aioctx.TryWake();
  }

  /** The reaper's loop over one batch: every context ends as its own completions make it, and no
      completion touches another context: its result is the length of its last request, or -5. */
  method ReapBatch(paio: array<Aio>, n: nat, ghost ctxs: set<AioContext>)
    requires n <= paio.Length && forall i :: 0 <= i < n ==> paio[i].priv != null && paio[i].priv in ctxs
    modifies ctxs`rval, ctxs`numRunning, ctxs`signals
    ensures forall c :: c in ctxs ==> c.State() == ProcessAll(old(c.State()), CompletionsFor(c, old(Snapshot(paio[..n]))))
    ensures forall c :: c in ctxs ==> Reaped(old(c.State()), CompletionsFor(c, old(Snapshot(paio[..n]))), c.State())
  {
    hide ProcessAll, CompletionsFor, Process;
    ghost var batch := Snapshot(paio[..n]);
    forall c | c in ctxs ensures ProcessAll(c.State(), CompletionsFor(c, batch[..0])) == c.State() {
      NothingReaped(c, c.State(), batch);
    }
    for i := 0 to n
      invariant forall c :: c in ctxs ==> c.State() == ProcessAll(old(c.State()), CompletionsFor(c, batch[..i]))
    {
      forall c | c in ctxs
        ensures ProcessAll(old(c.State()), CompletionsFor(c, batch[..i + 1])) ==
                if batch[i].owner == c
                then Process(c.State(), batch[i].completion.length, batch[i].completion.res) else c.State()
      {
        ProcessNext(c, old(c.State()), batch, i);
      }
      ReapOne(paio[i]);
    }
    assert batch[..n] == batch;
    forall c | c in ctxs ensures Reaped(old(c.State()), CompletionsFor(c, batch), c.State()) {
      ProcessAllFrom(old(c.State()), CompletionsFor(c, batch));
    }
  }

  lemma NothingReaped(c: AioContext, start: Counters, batch: seq<Fetched>)
    ensures ProcessAll(start, CompletionsFor(c, batch[..0])) == start
  {}

  /** block_device_aio_submit: every request of the context, in order, or the kernel's error. An
      aio_queue_submit that does not fail has submitted them all, so the code for a short count
      is never made up here. */
  method BlockDeviceSubmit(queue: IoQueue<Aio>, ctx: AioContext) returns (ret: int)
    requires ctx.Valid()
    requires queue.maxIodepth > 0 && AcceptsPrefix(queue.answer) && NeverZero(queue.answer)
    modifies queue
    ensures ret == BITSTORE_OK || (ret < 0 && Answered(queue.answer, ret))
    ensures ret == BITSTORE_OK ==> queue.accepted == old(queue.accepted) + ctx.aios[..ctx.numPending]
    ensures ret != BITSTORE_OK ==>
              exists k :: 0 <= k < ctx.numPending && queue.accepted == old(queue.accepted) + ctx.aios[..k]
  {
    hide Turns, Turn;
    if ctx.numPending == 0 {
      return BITSTORE_OK;
    }
    var n, aios := ctx.numPending, ctx.aios;
    var iocbs := new Aio[1000](_ => aios[0]);
    for i := 0 to n
      modifies iocbs
      invariant iocbs[..i] == aios[..i]
    {
      iocbs[i] := aios[i];
    }
    ghost var l;
    ghost var first := queue.calls;
    ret, l := queue.Submit(iocbs, n);
    ghost var k: nat :| l == Turns(queue.answer, queue.maxIodepth, first, Start(n), k);
    ErrorIsAnswer(queue.answer, queue.maxIodepth, first, n, k);
    assert iocbs[..l.done] == iocbs[..n][..l.done] == aios[..l.done];
    ret := if ret < 0 then ret else if ret < n then BITSTORE_ERR_AIO_EIO else BITSTORE_OK;
  }
}
