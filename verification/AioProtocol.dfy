/** Submit, reap and wake as a transition system: any number of request contexts, one kernel
    queue, one reaper, arbitrary interleaving. */
module AioProtocol {
  import opened AioSpec

  type Id = nat

  // Where a handler is: bitstore.cc adds requests, submits, waits without a predicate, then
  // reads the result and destroys the context. A failed submission is waited for as well.
  datatype Phase = Adding | Submitting | Submitted | Waiting | Released | Gone

  datatype Ctx = Ctx(lengths: seq<nat>, accepted: nat, phase: Phase, counters: Counters)

  datatype Req = Req(ctx: Id, index: nat)

  datatype Event = Event(req: Req, res: int)

  // kernel: accepted, not completed; completed: waiting for io_getevents; batch: fetched by the
  // reaper and not processed; reaped: the history of processed events.
  datatype State = State(ctxs: map<Id, Ctx>, kernel: seq<Req>, completed: seq<Event>, batch: seq<Event>, reaped: seq<Event>)

  const START: State := State(map[], [], [], [], [])

  datatype Step =
    | Create(id: Id)
    | Add(id: Id, length: nat)
    | Abort(id: Id)                   // a handler that gives up while adding
    | Submit(id: Id)                  // enters aio_queue_submit
    | Accept(id: Id, count: nat)      // one io_submit call accepting `count` requests
    | Fail(id: Id)                    // aio_queue_submit returns an error
    | EnterWait(id: Id)
    | Finish(id: Id)                  // reads the result, destroys the context
    | Complete(at: nat, res: int)     // the kernel completes one request, in any order
    | Fetch(count: nat)               // io_getevents returns `count` events
    | Reap                            // the reaper processes the next fetched event

  // ----- Steps -----

  predicate At(s: State, id: Id, phase: Phase) {
    id in s.ctxs && s.ctxs[id].phase == phase
  }

  predicate Enabled(s: State, step: Step) {
    match step
    case Create(id) => id !in s.ctxs
    case Add(id, _) => At(s, id, Adding) && |s.ctxs[id].lengths| < CAPACITY
    case Abort(id) => At(s, id, Adding)
    case Submit(id) => At(s, id, Adding)
    case Accept(id, count) => At(s, id, Submitting) && 1 <= count <= |s.ctxs[id].lengths| - s.ctxs[id].accepted
    case Fail(id) => At(s, id, Submitting)
    case EnterWait(id) => At(s, id, Submitted)
    case Finish(id) => At(s, id, Released)
    case Complete(at, _) => at < |s.kernel|
    case Fetch(count) => s.batch == [] && 1 <= count <= |s.completed|
    case Reap => s.batch != [] && s.batch[0].req.ctx in s.ctxs && s.batch[0].req.index < |s.ctxs[s.batch[0].req.ctx].lengths|
  }

  function Requests(id: Id, from: nat, count: nat): (r: seq<Req>)
    ensures |r| == count && forall i :: 0 <= i < count ==> r[i] == Req(id, from + i)
  {
    seq(count, i requires 0 <= i < count => Req(id, from + i))
  }

  function Move(s: State, id: Id, phase: Phase): State
    requires id in s.ctxs
  {
    s.(ctxs := s.ctxs[id := s.ctxs[id].(phase := phase)])
  }

  // What one processed event does to its context: a signal releases a handler that waits.
  function ReapOn(c: Ctx, index: nat, res: int): Ctx
    requires index < |c.lengths|
  {
    var counters := Process(c.counters, c.lengths[index], res);
    Ctx(c.lengths, c.accepted,
        if counters.signals > c.counters.signals && c.phase == Waiting then Released else c.phase,
        counters)
  }

  function Apply(s: State, step: Step): State
    requires Enabled(s, step)
  {
    match step
    case Create(id) => s.(ctxs := s.ctxs[id := Ctx([], 0, Adding, FRESH)])
    case Add(id, length) =>
      var c := s.ctxs[id];
      s.(ctxs := s.ctxs[id := c.(lengths := c.lengths + [length],
                                 counters := c.counters.(pending := c.counters.pending + 1))])
    case Abort(id) => Move(s, id, Gone)
    case Submit(id) => Move(s, id, if s.ctxs[id].lengths == [] then Submitted else Submitting)
    case Accept(id, count) =>
      var c := s.ctxs[id];
      s.(ctxs := s.ctxs[id := c.(accepted := c.accepted + count,
                                 phase := if c.accepted + count == |c.lengths| then Submitted else Submitting)],
         kernel := s.kernel + Requests(id, c.accepted, count))
    case Fail(id) => Move(s, id, Submitted)
    case EnterWait(id) => Move(s, id, Waiting)
    case Finish(id) => Move(s, id, Gone)
    case Complete(at, res) =>
      s.(kernel := s.kernel[..at] + s.kernel[at + 1..], completed := s.completed + [Event(s.kernel[at], res)])
    case Fetch(count) => s.(completed := s.completed[count..], batch := s.completed[..count])
    case Reap =>
      var e := s.batch[0];
      s.(ctxs := s.ctxs[e.req.ctx := ReapOn(s.ctxs[e.req.ctx], e.req.index, e.res)],
         batch := s.batch[1..], reaped := s.reaped + [e])
  }

  predicate IsRun(s: State, steps: seq<Step>)
    decreases |steps|
  {
    steps == [] || (Enabled(s, steps[0]) && IsRun(Apply(s, steps[0]), steps[1..]))
  }

  function After(s: State, steps: seq<Step>): State
    requires IsRun(s, steps)
    decreases |steps|
  {
    if steps == [] then s else After(Apply(s, steps[0]), steps[1..])
  }

  lemma {:induction false} RunAppend(s: State, a: seq<Step>, b: seq<Step>)
    requires IsRun(s, a) && IsRun(After(s, a), b)
    ensures IsRun(s, a + b) && After(s, a + b) == After(After(s, a), b)
    decreases |a|
  {
    hide Enabled, Apply;
    if a == [] {
      assert a + b == b;
    } else {
      assert (a + b)[1..] == a[1..] + b;
      RunAppend(Apply(s, a[0]), a[1..], b);
    }
  }

  // ----- Counting -----

  function Reqs(es: seq<Event>): (r: seq<Req>)
    ensures |r| == |es| && forall i :: 0 <= i < |es| ==> r[i] == es[i].req
  {
    seq(|es|, i requires 0 <= i < |es| => es[i].req)
  }

  // How many requests of a list satisfy a test.
  ghost function Count(rs: seq<Req>, test: Req -> bool): nat {
    if rs == [] then 0 else (if test(rs[0]) then 1 else 0) + Count(rs[1..], test)
  }

  ghost function Of(id: Id): Req -> bool { (r: Req) => r.ctx == id }

  ghost function Is(q: Req): Req -> bool { (r: Req) => r == q }

  lemma {:induction false} CountAppend(a: seq<Req>, b: seq<Req>, test: Req -> bool)
    ensures Count(a + b, test) == Count(a, test) + Count(b, test)
  {
    if a == [] {
      assert a + b == b;
    } else {
      assert (a + b)[1..] == a[1..] + b;
      CountAppend(a[1..], b, test);
    }
  }

  lemma CountRemove(rs: seq<Req>, at: nat, test: Req -> bool)
    requires at < |rs|
    ensures Count(rs, test) == Count(rs[..at] + rs[at + 1..], test) + (if test(rs[at]) then 1 else 0)
  {
    hide Count;
    var a, r, b := rs[..at], rs[at], rs[at + 1..];
    assert rs == a + ([r] + b);
    CountAppend(a, [r] + b, test);
    CountAppend([r], b, test);
    CountAppend(a, b, test);
    CountOne(r, test);
  }

  lemma CountSplit(rs: seq<Req>, k: nat, test: Req -> bool)
    requires k <= |rs|
    ensures Count(rs, test) == Count(rs[..k], test) + Count(rs[k..], test)
  {
    hide Count;
    assert rs == rs[..k] + rs[k..];
    CountAppend(rs[..k], rs[k..], test);
  }

  lemma CountOne(q: Req, test: Req -> bool)
    ensures Count([q], test) == if test(q) then 1 else 0
  {
    assert ([q])[1..] == [];
  }

  lemma CountNone(test: Req -> bool)
    ensures Count([], test) == 0
  {}

  // The requests matching a test, wherever they are.
  ghost function Everywhere(s: State, test: Req -> bool): nat {
    Count(s.kernel, test) + Count(Reqs(s.completed), test) + Count(Reqs(s.batch), test) + Count(Reqs(s.reaped), test)
  }

  // Only acceptance adds requests to the system; every other step moves them along.
  lemma StepConserves(s: State, step: Step, test: Req -> bool)
    requires Enabled(s, step)
    ensures Everywhere(Apply(s, step), test) ==
            Everywhere(s, test) +
            (if step.Accept? then Count(Requests(step.id, s.ctxs[step.id].accepted, step.count), test) else 0)
  {
    hide Count;
    var s' := Apply(s, step);
    match step
    case Accept(id, count) =>
      CountAppend(s.kernel, Requests(id, s.ctxs[id].accepted, count), test);
    case Complete(at, res) =>
      CountRemove(s.kernel, at, test);
      assert Reqs(s'.completed) == Reqs(s.completed) + [s.kernel[at]];
      CountAppend(Reqs(s.completed), [s.kernel[at]], test);
      CountOne(s.kernel[at], test);
    case Fetch(count) =>
      CountSplit(Reqs(s.completed), count, test);
      assert Reqs(s'.completed) == Reqs(s.completed)[count..] && Reqs(s'.batch) == Reqs(s.completed)[..count];
      assert Reqs(s.batch) == [];
      CountNone(test);
    case Reap =>
      CountSplit(Reqs(s.batch), 1, test);
      CountOne(s.batch[0].req, test);
      assert Reqs(s.batch)[..1] == [s.batch[0].req] && Reqs(s'.batch) == Reqs(s.batch)[1..];
      assert Reqs(s'.reaped) == Reqs(s.reaped) + [s.batch[0].req];
      CountAppend(Reqs(s.reaped), [s.batch[0].req], test);
    case _ =>
  }

  // ----- The invariant -----

  // The completions of a context in a history of events, in order.
  ghost function CompletionsOf(id: Id, lengths: seq<nat>, es: seq<Event>): seq<Completion> {
    if es == [] then []
    else
      var e := es[|es| - 1];
      CompletionsOf(id, lengths, es[..|es| - 1]) +
      (if e.req.ctx == id && e.req.index < |lengths| then [Completion(lengths[e.req.index], e.res)] else [])
  }

  // Every accepted request is in exactly one place, once; nothing else is anywhere.
  ghost predicate OnceEach(s: State) {
    forall q: Req {:trigger Is(q)} ::
      Everywhere(s, Is(q)) == if q.ctx in s.ctxs && q.index < s.ctxs[q.ctx].accepted then 1 else 0
  }

  // A context's counters are what its own reaped completions make of fresh ones.
  ghost predicate OwnHistory(s: State, id: Id)
    requires id in s.ctxs
  {
    var c := s.ctxs[id];
    c.counters == ProcessAll(FRESH.(pending := |c.lengths|), CompletionsOf(id, c.lengths, s.reaped))
  }

  ghost predicate Consistent(s: State, id: Id)
    requires id in s.ctxs
  {
    var c := s.ctxs[id];
    && c.accepted <= |c.lengths| <= CAPACITY
    && Everywhere(s, Of(id)) == c.accepted
    && c.counters.running == Count(Reqs(s.reaped), Of(id))
    && OwnHistory(s, id)
    && (c.phase == Adding ==> c.accepted == 0)
    && (c.phase == Submitting ==> c.accepted < |c.lengths|)
    && (c.phase == Released ==> c.counters.signals == 1)
    && (c.phase == Gone ==> c.counters.signals == 1 || c.accepted == 0)
  }

  ghost predicate Inv(s: State) {
    OnceEach(s) && forall id :: id in s.ctxs ==> Consistent(s, id)
  }

  lemma InvStart()
    ensures Inv(START)
  {}

  lemma {:induction false} CountRequests(id: Id, from: nat, count: nat, q: Req)
    ensures Count(Requests(id, from, count), Is(q)) == if q.ctx == id && from <= q.index < from + count then 1 else 0
    decreases count
  {
    if count > 0 {
      assert Requests(id, from, count)[1..] == Requests(id, from + 1, count - 1);
      CountRequests(id, from + 1, count - 1, q);
    }
  }

  lemma {:induction false} CountRequestsOf(id: Id, from: nat, count: nat, other: Id)
    ensures Count(Requests(id, from, count), Of(other)) == if id == other then count else 0
    decreases count
  {
    if count > 0 {
      assert Requests(id, from, count)[1..] == Requests(id, from + 1, count - 1);
      CountRequestsOf(id, from + 1, count - 1, other);
    }
  }

  lemma {:induction false} CountMember(rs: seq<Req>, test: Req -> bool, i: nat)
    requires i < |rs| && test(rs[i])
    ensures Count(rs, test) > 0
  {
    if i > 0 {
      CountMember(rs[1..], test, i - 1);
    }
  }

  lemma StepKeepsOnceEach(s: State, step: Step)
    requires OnceEach(s) && Enabled(s, step)
    ensures OnceEach(Apply(s, step))
  {
    var s' := Apply(s, step);
    forall q: Req {:trigger Is(q)}
      ensures Everywhere(s', Is(q)) == if q.ctx in s'.ctxs && q.index < s'.ctxs[q.ctx].accepted then 1 else 0
    {
      StepConserves(s, step, Is(q));
      hide Everywhere;
      assert Everywhere(s, Is(q)) == if q.ctx in s.ctxs && q.index < s.ctxs[q.ctx].accepted then 1 else 0;
      if step.Accept? {
        CountRequests(step.id, s.ctxs[step.id].accepted, step.count, q);
      }
    }
  }

  // Steps that leave a context's requests and counters alone.
  predicate Quiet(step: Step, id: Id) {
    !step.Reap? && (step.Create? || step.Add? || step.Accept? ==> step.id != id)
  }

  lemma QuietStepKeeps(s: State, step: Step, id: Id)
    requires Inv(s) && Enabled(s, step) && id in s.ctxs && Quiet(step, id)
    ensures Consistent(Apply(s, step), id)
  {
    hide Everywhere, OwnHistory, OnceEach, Count;
    StepConserves(s, step, Of(id));
    if step.Accept? {
      CountRequestsOf(step.id, s.ctxs[step.id].accepted, step.count, id);
    }
    assert Consistent(s, id);
    SameHistory(s, step, id);
  }

  lemma SameHistory(s: State, step: Step, id: Id)
    requires Enabled(s, step) && id in s.ctxs && Quiet(step, id)
    ensures OwnHistory(s, id) ==> OwnHistory(Apply(s, step), id)
  {}

  // No accepted request, no trace of the context anywhere.
  lemma {:induction false} NoTrace(s: State, id: Id, es: seq<Event>, lengths: seq<nat>)
    requires Count(Reqs(es), Of(id)) == 0
    ensures CompletionsOf(id, lengths, es) == []
    decreases |es|
  {
    if es != [] {
      var n := |es| - 1;
      assert Reqs(es) == Reqs(es[..n]) + [es[n].req];
      CountAppend(Reqs(es[..n]), [es[n].req], Of(id));
      CountOne(es[n].req, Of(id));
      NoTrace(s, id, es[..n], lengths);
    }
  }

  lemma {:induction false} NoneOf(s: State, rs: seq<Req>, id: Id)
    requires forall r :: r in rs ==> r.ctx in s.ctxs
    requires id !in s.ctxs
    ensures Count(rs, Of(id)) == 0
  {
    if rs != [] {
      assert rs[0] in rs;
      NoneOf(s, rs[1..], id);
    }
  }

  // Every request in the system was accepted.
  lemma InSystem(s: State, r: Req)
    requires OnceEach(s)
    requires r in s.kernel || r in Reqs(s.completed) || r in Reqs(s.batch) || r in Reqs(s.reaped)
    ensures r.ctx in s.ctxs && r.index < s.ctxs[r.ctx].accepted
  {
    var i;
    if r in s.kernel {
      i :| 0 <= i < |s.kernel| && s.kernel[i] == r;
      CountMember(s.kernel, Is(r), i);
    } else if r in Reqs(s.completed) {
      i :| 0 <= i < |s.completed| && Reqs(s.completed)[i] == r;
      CountMember(Reqs(s.completed), Is(r), i);
    } else if r in Reqs(s.batch) {
      i :| 0 <= i < |s.batch| && Reqs(s.batch)[i] == r;
      CountMember(Reqs(s.batch), Is(r), i);
    } else {
      i :| 0 <= i < |s.reaped| && Reqs(s.reaped)[i] == r;
      CountMember(Reqs(s.reaped), Is(r), i);
    }
    assert Everywhere(s, Is(r)) > 0;
  }

  lemma CreateKeeps(s: State, id: Id)
    requires Inv(s) && Enabled(s, Create(id))
    ensures Consistent(Apply(s, Create(id)), id)
  {
    forall r | r in s.kernel || r in Reqs(s.completed) || r in Reqs(s.batch) || r in Reqs(s.reaped)
      ensures r.ctx in s.ctxs
    {
      InSystem(s, r);
    }
    NoneOf(s, s.kernel, id);
    NoneOf(s, Reqs(s.completed), id);
    NoneOf(s, Reqs(s.batch), id);
    NoneOf(s, Reqs(s.reaped), id);
    NoTrace(s, id, s.reaped, []);
  }

  lemma AddKeeps(s: State, id: Id, length: nat)
    requires Inv(s) && Enabled(s, Add(id, length))
    ensures Consistent(Apply(s, Add(id, length)), id)
  {
    var s' := Apply(s, Add(id, length));
    assert Consistent(s, id) && Everywhere(s', Of(id)) == Everywhere(s, Of(id)) == 0;
    NoTrace(s, id, s.reaped, s.ctxs[id].lengths);
    NoTrace(s, id, s.reaped, s'.ctxs[id].lengths);
    assert OwnHistory(s, id);
  }

  lemma AcceptKeeps(s: State, id: Id, count: nat)
    requires Inv(s) && Enabled(s, Accept(id, count))
    ensures Consistent(Apply(s, Accept(id, count)), id)
  {
    StepConserves(s, Accept(id, count), Of(id));
    CountRequestsOf(id, s.ctxs[id].accepted, count, id);
    hide Everywhere;
    assert Consistent(s, id);
    assert OwnHistory(s, id) ==> OwnHistory(Apply(s, Accept(id, count)), id);
  }

  lemma ReapHistory(s: State, id: Id)
    requires Inv(s) && Enabled(s, Reap) && id in s.ctxs
    ensures OwnHistory(Apply(s, Reap), id)
  {
    var e := s.batch[0];
    var c := s.ctxs[id];
    var reaped' := s.reaped + [e];
    assert reaped'[..|reaped'| - 1] == s.reaped;
    assert Consistent(s, id) && OwnHistory(s, id);
    var past := CompletionsOf(id, c.lengths, s.reaped);
    if e.req.ctx == id {
      ProcessAllSnoc(FRESH.(pending := |c.lengths|), past, Completion(c.lengths[e.req.index], e.res));
    } else {
      assert past + [] == past;
    }
  }

  lemma ReapCounted(s: State, id: Id)
    requires Enabled(s, Reap) && id in s.ctxs && s.ctxs[id].counters.running == Count(Reqs(s.reaped), Of(id))
    ensures Apply(s, Reap).ctxs[id].counters.running == Count(Reqs(Apply(s, Reap).reaped), Of(id))
  {
    hide Count;
    var e := s.batch[0];
    assert Reqs(s.reaped + [e]) == Reqs(s.reaped) + [e.req];
    CountAppend(Reqs(s.reaped), [e.req], Of(id));
    CountOne(e.req, Of(id));
  }

  // The signals of a context with its own history.
  lemma OwnSignals(s: State, id: Id)
    requires id in s.ctxs && OwnHistory(s, id)
    ensures s.ctxs[id].counters.signals <= 1
  {
    hide CompletionsOf, ProcessAll;
    ProcessAllExact(FRESH.(pending := |s.ctxs[id].lengths|), CompletionsOf(id, s.ctxs[id].lengths, s.reaped));
  }

  lemma ReapKeeps(s: State, id: Id)
    requires Inv(s) && Enabled(s, Reap) && id in s.ctxs
    ensures Consistent(Apply(s, Reap), id)
  {
    ReapHistory(s, id);
    StepConserves(s, Reap, Of(id));
    hide Everywhere, Count, OwnHistory, OnceEach;
    assert Consistent(s, id);
    ReapCounted(s, id);
    OwnSignals(s, id);
    OwnSignals(Apply(s, Reap), id);
  }

  /** Every step keeps the invariant, whatever the interleaving. */
  lemma StepKeepsInv(s: State, step: Step)
    requires Inv(s) && Enabled(s, step)
    ensures Inv(Apply(s, step))
  {
    hide Consistent, OnceEach;
    StepKeepsOnceEach(s, step);
    var s' := Apply(s, step);
    forall id | id in s'.ctxs ensures Consistent(s', id) {
      if step == Reap {
        ReapKeeps(s, id);
      } else if id in s.ctxs && Quiet(step, id) {
        QuietStepKeeps(s, step, id);
      } else {
        match step
        case Create(_) => CreateKeeps(s, id);
        case Add(_, length) => AddKeeps(s, id, length);
        case Accept(_, count) => AcceptKeeps(s, id, count);
        case _ => assert false;
      }
    }
  }

  lemma {:induction false} RunKeepsInv(s: State, steps: seq<Step>)
    requires Inv(s) && IsRun(s, steps)
    ensures Inv(After(s, steps))
    decreases |steps|
  {
    hide Inv;
    if steps != [] {
      StepKeepsInv(s, steps[0]);
      RunKeepsInv(Apply(s, steps[0]), steps[1..]);
    }
  }
}
