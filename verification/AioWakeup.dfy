/** What the protocol guarantees over whole runs: conservation, one signal at the end, safe
    destruction, and exactly which waits can return. */
module AioWakeup {
  import opened AioSpec
  import opened AioProtocol

  ghost predicate Reachable(s: State) {
    exists steps :: IsRun(START, steps) && After(START, steps) == s
  }

  lemma ReachableInv(s: State)
    requires Reachable(s)
    ensures Inv(s)
  {
    var steps :| IsRun(START, steps) && After(START, steps) == s;
    InvStart();
    RunKeepsInv(START, steps);
  }

  // The requests of a context that are accepted and not yet reaped.
  ghost function Outstanding(s: State, id: Id): nat {
    Count(s.kernel, Of(id)) + Count(Reqs(s.completed), Of(id)) + Count(Reqs(s.batch), Of(id))
  }

  /** Conservation per context: accepted requests are in the kernel, fetched, or reaped, and
      num_running counts the reaped ones. */
  lemma Conservation(s: State, id: Id)
    requires Reachable(s) && id in s.ctxs
    ensures s.ctxs[id].accepted == Outstanding(s, id) + s.ctxs[id].counters.running
    ensures s.ctxs[id].counters.running == Count(Reqs(s.reaped), Of(id))
    ensures s.ctxs[id].accepted <= |s.ctxs[id].lengths| == s.ctxs[id].counters.pending
  {
    ReachableInv(s);
    assert Consistent(s, id);
    CountersExact(s, id);
  }

  /** A request is never duplicated or lost: each accepted one is in exactly one place, once. */
  lemma ExactlyOnce(s: State, q: Req)
    requires Reachable(s)
    ensures Everywhere(s, Is(q)) == if q.ctx in s.ctxs && q.index < s.ctxs[q.ctx].accepted then 1 else 0
  {
    ReachableInv(s);
  }

  lemma CountersExact(s: State, id: Id)
    requires Inv(s) && id in s.ctxs
    ensures var c := s.ctxs[id];
            && c.counters.pending == |c.lengths|
            && c.counters.signals == (if 1 <= |c.lengths| <= c.counters.running then 1 else 0)
            && c.accepted == Outstanding(s, id) + c.counters.running <= |c.lengths|
  {
    var c := s.ctxs[id];
    assert Consistent(s, id) && OwnHistory(s, id);
    ProcessAllExact(FRESH.(pending := |c.lengths|), CompletionsOf(id, c.lengths, s.reaped));
  }

  /** No early and no double signal: a context is signalled at most once, exactly when all of its
      n >= 1 requests were accepted and reaped; then none of them is left anywhere. */
  lemma SignalExact(s: State, id: Id)
    requires Reachable(s) && id in s.ctxs
    ensures var c := s.ctxs[id];
            && c.counters.signals <= 1
            && (c.counters.signals == 1 <==> 1 <= |c.lengths| == c.counters.running)
            && (c.counters.signals == 1 ==> c.accepted == |c.lengths| && Outstanding(s, id) == 0)
  {
    ReachableInv(s);
    CountersExact(s, id);
  }

  // What reaping does to a waiting context whose counters are exact.
  lemma ReapOnWaiting(c: Ctx, index: nat, res: int)
    requires index < |c.lengths| && c.phase == Waiting
    requires c.counters.pending == |c.lengths|
    requires c.counters.signals == if 1 <= |c.lengths| <= c.counters.running then 1 else 0
    ensures ReapOn(c, index, res).phase == if c.counters.running + 1 == |c.lengths| then Released else Waiting
  {}

  lemma OthersKeepWaiting(s: State, step: Step, id: Id)
    requires Enabled(s, step) && At(s, id, Waiting)
    requires step != Reap || s.batch[0].req.ctx != id
    ensures At(Apply(s, step), id, Waiting)
  {}

  /** A waiting handler is released only by reaping the last of its requests, with num_running
      equal to num_pending; and that step always releases it. */
  lemma ReleaseExact(s: State, step: Step, id: Id)
    requires Reachable(s) && Enabled(s, step) && At(s, id, Waiting)
    ensures var c, c' := s.ctxs[id], Apply(s, step).ctxs[id];
            && c'.phase == (if step == Reap && s.batch[0].req.ctx == id && c.counters.running + 1 == |c.lengths|
                            then Released else Waiting)
            && (c'.phase == Released ==> c'.counters.running == c'.counters.pending == c'.accepted == |c'.lengths| >= 1)
  {
    hide Inv, Reachable;
    ReachableInv(s);
    CountersExact(s, id);
    if step == Reap && s.batch[0].req.ctx == id {
      ReapOnWaiting(s.ctxs[id], s.batch[0].req.index, s.batch[0].res);
      StepKeepsInv(s, step);
      CountersExact(Apply(s, step), id);
      hide Outstanding;
    } else {
      OthersKeepWaiting(s, step, id);
      hide Apply;
    }
  }

  /** Isolation: the counters and the result of a context are what its own completions, in the
      order they were reaped, make of a fresh context; no other context enters into them. */
  lemma CountersAreOwn(s: State, id: Id)
    requires Reachable(s) && id in s.ctxs
    ensures var c := s.ctxs[id];
            c.counters == ProcessAll(FRESH.(pending := |c.lengths|), CompletionsOf(id, c.lengths, s.reaped))
  {
    ReachableInv(s);
    assert Consistent(s, id) && OwnHistory(s, id);
  }

  lemma {:induction false} CountZero(rs: seq<Req>, test: Req -> bool, r: Req)
    requires Count(rs, test) == 0 && r in rs
    ensures !test(r)
  {
    var i :| 0 <= i < |rs| && rs[i] == r;
    if test(r) {
      CountMember(rs, test, i);
    }
  }

  /** Destroying a context is safe: once a handler has been released or is gone, no request in
      the kernel or in a fetched batch refers to its context. */
  lemma DestroyedIsForgotten(s: State, id: Id, r: Req)
    requires Reachable(s) && id in s.ctxs && s.ctxs[id].phase in {Released, Gone}
    requires r in s.kernel || r in Reqs(s.completed) || r in Reqs(s.batch)
    ensures r.ctx != id
  {
    ReachableInv(s);
    CountersExact(s, id);
    assert Consistent(s, id);
    if r in s.kernel {
      CountZero(s.kernel, Of(id), r);
    } else if r in Reqs(s.completed) {
      CountZero(Reqs(s.completed), Of(id), r);
    } else {
      CountZero(Reqs(s.batch), Of(id), r);
    }
  }

  /** The reaper never follows a stale pointer: the next fetched event belongs to a live context
      and to a request of it. */
  lemma ReaperNeverStuck(s: State)
    requires Reachable(s) && s.batch != []
    ensures Enabled(s, Reap)
    ensures s.ctxs[s.batch[0].req.ctx].phase !in {Released, Gone}
  {
    ReachableInv(s);
    var r := s.batch[0].req;
    assert Reqs(s.batch)[0] == r;
    InSystem(s, r);
    assert Consistent(s, r.ctx);
    if s.ctxs[r.ctx].phase in {Released, Gone} {
      DestroyedIsForgotten(s, r.ctx, r);
    }
  }

  /** The result of a finished context is that of the last request reaped: its length, or -5 when
      it failed or was short. */
  lemma FinalVerdict(s: State, id: Id)
    requires Reachable(s) && id in s.ctxs && s.ctxs[id].counters.signals == 1
    requires forall i :: 0 <= i < |s.ctxs[id].lengths| ==> s.ctxs[id].lengths[i] < 0x8000_0000
    ensures var done := CompletionsOf(id, s.ctxs[id].lengths, s.reaped);
            && |done| == |s.ctxs[id].lengths| >= 1
            && s.ctxs[id].counters.rval == (if Succeeds(done[|done| - 1]) then done[|done| - 1].length else -5)
            && ((forall i :: 0 <= i < |done| ==> Succeeds(done[i])) ==> s.ctxs[id].counters.rval >= 0)
  {
    SignalExact(s, id);
    ReachableInv(s);
    hide Everywhere, Count, OnceEach, CompletionsOf, ProcessAll, Reachable;
    var c := s.ctxs[id];
    var done := CompletionsOf(id, c.lengths, s.reaped);
    assert Consistent(s, id) && OwnHistory(s, id);
    ProcessAllExact(FRESH.(pending := |c.lengths|), done);
    CompletionLengths(id, c.lengths, s.reaped);
    VerdictIff(FRESH.(pending := |c.lengths|), done);
  }

  lemma {:induction false} CompletionLengths(id: Id, lengths: seq<nat>, es: seq<Event>)
    ensures forall d :: d in CompletionsOf(id, lengths, es) ==> d.length in lengths
    decreases |es|
  {
    if es != [] {
      CompletionLengths(id, lengths, es[..|es| - 1]);
    }
  }

  // ----- Which waits can return -----

  // Past submission, with something still to be signalled.
  predicate Hopeful(c: Ctx) {
    c.accepted == |c.lengths| >= 1 && c.counters.signals == 0
  }

  // The signal was sent before the wait, or never will be.
  predicate Lost(s: State, id: Id) {
    id in s.ctxs && s.ctxs[id].phase in {Submitted, Waiting} && !Hopeful(s.ctxs[id])
  }

  lemma LostStays(s: State, step: Step, id: Id)
    requires Inv(s) && Lost(s, id) && Enabled(s, step)
    ensures Lost(Apply(s, step), id)
  {
    hide Inv, Outstanding;
    CountersExact(s, id);
    StepKeepsInv(s, step);
    CountersExact(Apply(s, step), id);
    if step == Reap {
      hide Enabled;
    }
  }

  lemma {:induction false} LostForever(s: State, steps: seq<Step>, id: Id)
    requires Inv(s) && Lost(s, id) && IsRun(s, steps)
    ensures Lost(After(s, steps), id)
    decreases |steps|
  {
    hide Inv, Lost;
    if steps != [] {
      LostStays(s, steps[0], id);
      StepKeepsInv(s, steps[0]);
      LostForever(Apply(s, steps[0]), steps[1..], id);
    }
  }

  function Work(s: State): nat {
    3 * |s.kernel| + 2 * |s.completed| + |s.batch|
  }

  /** The kernel or the reaper can take a step unless there is nothing left for them. */
  lemma KeepsGoing(s: State) returns (step: Step)
    requires Inv(s) && !Quiescent(s)
    ensures Background(step) && Enabled(s, step)
  {
    if s.batch != [] {
      var r := s.batch[0].req;
      assert Reqs(s.batch)[0] == r;
      InSystem(s, r);
      assert Consistent(s, r.ctx);
      step := Reap;
    } else if s.completed != [] {
      step := Fetch(|s.completed|);
    } else {
      step := Complete(0, 0);
    }
  }

  // The next step of a kernel and a reaper that keep going.
  lemma Advance(s: State, id: Id) returns (step: Step)
    requires Inv(s) && At(s, id, Waiting) && Hopeful(s.ctxs[id])
    ensures Enabled(s, step) && Work(Apply(s, step)) < Work(s)
    ensures var s' := Apply(s, step); At(s', id, Released) || (At(s', id, Waiting) && Hopeful(s'.ctxs[id]))
  {
    hide Inv, Hopeful, Work;
    if Quiescent(s) {
      QuietIsDone(s, id);
    }
    step := KeepsGoing(s);
    BackgroundUsesWork(s, step);
    StepKeepsInHand(s, step, id);
  }

  lemma {:induction false} Drive(s: State, id: Id) returns (steps: seq<Step>)
    requires Inv(s) && At(s, id, Waiting) && Hopeful(s.ctxs[id])
    ensures IsRun(s, steps) && At(After(s, steps), id, Released)
    decreases Work(s)
  {
    hide Inv, Hopeful;
    var step := Advance(s, id);
    var s' := Apply(s, step);
    if At(s', id, Released) {
      steps := [step];
      assert steps[1..] == [];
    } else {
      StepKeepsInv(s, step);
      var rest := Drive(s', id);
      steps := [step] + rest;
      assert steps[1..] == rest;
    }
  }

  ghost predicate CanBeReleased(s: State, id: Id) {
    exists steps :: IsRun(s, steps) && At(After(s, steps), id, Released)
  }

  lemma HopefulIsReleased(s: State, id: Id) returns (steps: seq<Step>)
    requires Inv(s) && id in s.ctxs && s.ctxs[id].phase in {Submitted, Waiting} && Hopeful(s.ctxs[id])
    ensures IsRun(s, steps) && At(After(s, steps), id, Released)
  {
    hide Inv, Outstanding;
    if s.ctxs[id].phase == Waiting {
      hide Hopeful;
      steps := Drive(s, id);
    } else {
      StepKeepsInv(s, EnterWait(id));
      var rest := Drive(Apply(s, EnterWait(id)), id);
      steps := [EnterWait(id)] + rest;
      assert steps[1..] == rest;
    }
  }

  /** A handler past its submission can still be released exactly when every one of its n >= 1
      requests was accepted and the signal is yet to come. A signal sent before the wait is lost
      for good, and so is the wait of an empty or a partly submitted context. */
  lemma ReleasableIff(s: State, id: Id)
    requires Reachable(s) && id in s.ctxs && s.ctxs[id].phase in {Submitted, Waiting}
    ensures CanBeReleased(s, id) <==> Hopeful(s.ctxs[id])
  {
    hide Inv, Reachable, Hopeful;
    ReachableInv(s);
    if Hopeful(s.ctxs[id]) {
      var steps := HopefulIsReleased(s, id);
    } else if CanBeReleased(s, id) {
      var steps :| IsRun(s, steps) && At(After(s, steps), id, Released);
      LostForever(s, steps, id);
    }
  }

  // ----- Every schedule -----

  // Steps of the kernel and the reaper.
  predicate Background(step: Step) { step.Complete? || step.Fetch? || step.Reap? }

  predicate Quiescent(s: State) { s.kernel == [] && s.completed == [] && s.batch == [] }

  // A handler that waits for a signal to come, or has got it.
  predicate InHand(s: State, id: Id) {
    id in s.ctxs && Held(s.ctxs[id])
  }

  predicate Held(c: Ctx) { c.phase in {Released, Gone} || (c.phase == Waiting && Hopeful(c)) }

  lemma ReapKeepsHeld(c: Ctx, index: nat, res: int)
    requires Held(c) && index < |c.lengths|
    ensures Held(ReapOn(c, index, res))
  {}

  // Another handler's step, the kernel's or a fetch.
  lemma OtherStepKeeps(s: State, step: Step, id: Id)
    requires Enabled(s, step) && InHand(s, id) && !step.Reap?
    ensures InHand(Apply(s, step), id)
  {}

  lemma StepKeepsInHand(s: State, step: Step, id: Id)
    requires Enabled(s, step) && InHand(s, id)
    ensures InHand(Apply(s, step), id)
  {
    if step == Reap {
      hide Held, ReapOn;
      var e := s.batch[0];
      if e.req.ctx == id {
        ReapKeepsHeld(s.ctxs[id], e.req.index, e.res);
      }
    } else {
      hide Apply;
      OtherStepKeeps(s, step, id);
    }
  }

  lemma QuietIsDone(s: State, id: Id)
    requires Inv(s) && Quiescent(s) && InHand(s, id)
    ensures s.ctxs[id].phase in {Released, Gone}
  {
    CountersExact(s, id);
  }

  lemma {:induction false} RunKeepsInHand(s: State, steps: seq<Step>, id: Id)
    requires Inv(s) && InHand(s, id) && IsRun(s, steps)
    ensures Inv(After(s, steps)) && InHand(After(s, steps), id)
    decreases |steps|
  {
    hide Inv, InHand;
    if steps != [] {
      StepKeepsInHand(s, steps[0], id);
      StepKeepsInv(s, steps[0]);
      RunKeepsInHand(Apply(s, steps[0]), steps[1..], id);
    }
  }

  /** Whatever else happens, and in whatever order, once kernel, queue and batch are empty a handler
      that waited for a signal to come has been released. */
  lemma EveryRunReleases(s: State, steps: seq<Step>, id: Id)
    requires Reachable(s) && At(s, id, Waiting) && Hopeful(s.ctxs[id]) && IsRun(s, steps)
    ensures Quiescent(After(s, steps)) ==> var s' := After(s, steps); At(s', id, Released) || At(s', id, Gone)
  {
    hide Inv, Hopeful, Reachable;
    ReachableInv(s);
    RunKeepsInHand(s, steps, id);
    if Quiescent(After(s, steps)) {
      QuietIsDone(After(s, steps), id);
    }
  }

  /** The kernel and the reaper get there: every step of theirs uses up work, so left to themselves
      they take no more steps than the work there is, in any order. */
  lemma {:induction false} BackgroundEnds(s: State, steps: seq<Step>)
    requires IsRun(s, steps) && forall i :: 0 <= i < |steps| ==> Background(steps[i])
    ensures |steps| + Work(After(s, steps)) <= Work(s)
    decreases |steps|
  {
    hide Work;
    if steps != [] {
      assert Background(steps[0]);
      BackgroundUsesWork(s, steps[0]);
      BackgroundEnds(Apply(s, steps[0]), steps[1..]);
    }
  }

  lemma BackgroundUsesWork(s: State, step: Step)
    requires Enabled(s, step) && Background(step)
    ensures Work(Apply(s, step)) < Work(s)
  {}

  // ----- Waits that never return do occur -----

  lemma ReachableStep(s: State, step: Step)
    requires Reachable(s) && Enabled(s, step)
    ensures Reachable(Apply(s, step))
  {
    hide Enabled, Apply;
    var steps :| IsRun(START, steps) && After(START, steps) == s;
    assert ([step])[1..] == [];
    assert IsRun(s, [step]) && After(s, [step]) == Apply(s, step);
    RunAppend(START, steps, [step]);
  }

  lemma StartReachable()
    ensures Reachable(START)
  {
    var none: seq<Step> := [];
    assert IsRun(START, none) && After(START, none) == START;
  }

  /** A handler without requests waits for ever. */
  lemma EmptyContextIsLost() returns (s: State)
    ensures Reachable(s) && Lost(s, 0) && s.ctxs[0].lengths == []
  {
    hide Reachable;
    StartReachable();
    var s1 := Apply(START, Create(0));
    ReachableStep(START, Create(0));
    s := Apply(s1, Submit(0));
    ReachableStep(s1, Submit(0));
  }

  // One request of one byte, accepted while its handler has not begun to wait.
  lemma OneAccepted() returns (s: State)
    ensures Reachable(s)
    ensures s == State(map[0 := Ctx([1], 1, Submitted, Counters(1, 0, -1000, 0))], [Req(0, 0)], [], [], [])
  {
    hide Reachable;
    StartReachable();
    var s1 := Apply(START, Create(0));
    ReachableStep(START, Create(0));
    var s2 := Apply(s1, Add(0, 1));
    ReachableStep(s1, Add(0, 1));
    var s3 := Apply(s2, Submit(0));
    ReachableStep(s2, Submit(0));
    s := Apply(s3, Accept(0, 1));
    ReachableStep(s3, Accept(0, 1));
    assert s.ctxs[0].lengths == [1];
    assert s.kernel == [Req(0, 0)] && s.ctxs == map[0 := Ctx([1], 1, Submitted, Counters(1, 0, -1000, 0))];
  }

  /** So does one whose only request, a good one, is reaped before it waits. */
  lemma EarlySignalIsLost() returns (s: State)
    ensures Reachable(s) && Lost(s, 0) && s.ctxs[0].counters == Counters(1, 1, 1, 1)
  {
    hide Reachable;
    var s4 := OneAccepted();
    var s5 := Apply(s4, Complete(0, 1));
    ReachableStep(s4, Complete(0, 1));
    assert s5.completed == [Event(Req(0, 0), 1)];
    var s6 := Apply(s5, Fetch(1));
    ReachableStep(s5, Fetch(1));
    assert s6.batch == [Event(Req(0, 0), 1)];
    s := Apply(s6, Reap);
    ReachableStep(s6, Reap);
  }
}
