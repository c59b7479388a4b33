/** The submission loop takes only steps the protocol allows, whatever happens between its turns. */
module AioRefinement {
  import opened AioSubmit
  import P = AioProtocol

  // A loop over the requests of a context, and the context in the protocol.
  ghost predicate Tracks(size: nat, l: Loop, s: P.State, id: P.Id) {
    && LoopInv(size, l)
    && id in s.ctxs && |s.ctxs[id].lengths| == size && s.ctxs[id].accepted == l.done
    && s.ctxs[id].phase == (if l.status == Running && l.left > 0 then P.Submitting else P.Submitted)
  }

  // What a turn of the loop is to the protocol.
  function TurnSteps(l: Loop, l': Loop, id: P.Id): seq<P.Step> {
    if l'.done > l.done then [P.Accept(id, l'.done - l.done)]
    else if l.status == Running && l.left > 0 && l'.status.Returned? then [P.Fail(id)]
    else []
  }

  lemma OneStep(s: P.State, step: P.Step)
    requires P.Enabled(s, step)
    ensures P.IsRun(s, [step]) && P.After(s, [step]) == P.Apply(s, step)
  {
    hide P.Enabled, P.Apply;
    var steps := [step];
    assert steps[1..] == [];
    assert P.IsRun(P.Apply(s, step), steps[1..]);
  }

  /** Every turn of the loop is at most one protocol step: an accepted batch, or the failure of
      the submission. A zero answer and an EAGAIN sleep change nothing. */
  lemma TurnIsStep(answer: Answers, depth: int, first: nat, size: nat, l: Loop, s: P.State, id: P.Id)
    requires AcceptsPrefix(answer) && depth > 0 && Tracks(size, l, s, id)
    ensures var l' := Turn(answer, depth, first, l);
            var steps := TurnSteps(l, l', id);
            && |steps| <= 1 && P.IsRun(s, steps)
            && Tracks(size, l', P.After(s, steps), id)
            && forall other :: other in s.ctxs && other != id ==>
                 other in P.After(s, steps).ctxs && P.After(s, steps).ctxs[other] == s.ctxs[other]
  {
    TurnKeeps(answer, depth, first, size, l);
    hide LoopInv;
    var l' := Turn(answer, depth, first, l);
    TurnBounds(size, l);
    TurnBounds(size, l');
    var steps := TurnSteps(l, l', id);
    if steps != [] {
      OneStep(s, steps[0]);
      assert steps == [steps[0]];
    }
  }

  lemma NoStep(s: P.State)
    ensures P.IsRun(s, []) && P.After(s, []) == s
  {}

  // A step that the handler of a context takes itself.
  predicate Own(step: P.Step, id: P.Id) {
    !(step.Complete? || step.Fetch? || step.Reap?) && step.id == id
  }

  /** Kernel, reaper and the other handlers do not disturb a submission, even when some of its
      requests are completed and reaped before the rest is accepted. */
  lemma OthersKeepTracks(size: nat, l: Loop, s: P.State, id: P.Id, step: P.Step)
    requires P.Enabled(s, step) && !Own(step, id) && Tracks(size, l, s, id)
    ensures Tracks(size, l, P.Apply(s, step), id)
  {
    hide LoopInv;
  }

  // ----- Interleavings -----

  // One turn of the loop, or a step of somebody else, which is passed over if it cannot be taken.
  datatype Move = Ours | Theirs(step: P.Step)

  function OurTurns(moves: seq<Move>): nat {
    if moves == [] then 0 else (if moves[0] == Ours then 1 else 0) + OurTurns(moves[1..])
  }

  // The protocol steps of an interleaving.
  ghost function Emitted(answer: Answers, depth: int, first: nat, l: Loop, s: P.State, id: P.Id, moves: seq<Move>): seq<P.Step>
    decreases |moves|
  {
    if moves == [] then []
    else
      match moves[0]
      case Ours =>
        var l' := Turn(answer, depth, first, l);
        var steps := TurnSteps(l, l', id);
        steps + Emitted(answer, depth, first, l', if P.IsRun(s, steps) then P.After(s, steps) else s, id, moves[1..])
      case Theirs(step) =>
        if P.Enabled(s, step) && !Own(step, id)
        then [step] + Emitted(answer, depth, first, l, P.Apply(s, step), id, moves[1..])
        else Emitted(answer, depth, first, l, s, id, moves[1..])
  }

  lemma {:induction false} TurnFirst(answer: Answers, depth: int, first: nat, l: Loop, k: nat)
    ensures Turns(answer, depth, first, Turn(answer, depth, first, l), k) == Turns(answer, depth, first, l, k + 1)
  {
    hide Turn;
    if k > 0 {
      TurnFirst(answer, depth, first, l, k - 1);
    }
  }

  // Some steps, and an interleaving from where they lead.
  lemma Onward(size: nat, l: Loop, s: P.State, id: P.Id, steps: seq<P.Step>, more: seq<P.Step>)
    requires P.IsRun(s, steps) && P.IsRun(P.After(s, steps), more)
    requires Tracks(size, l, P.After(P.After(s, steps), more), id)
    ensures P.IsRun(s, steps + more) && Tracks(size, l, P.After(s, steps + more), id)
  {
    hide Tracks, P.IsRun, P.After;
    P.RunAppend(s, steps, more);
  }

  lemma {:induction false} InterleavingIsRun(answer: Answers, depth: int, first: nat, size: nat, l: Loop, s: P.State, id: P.Id,
                                             moves: seq<Move>)
    requires AcceptsPrefix(answer) && depth > 0 && Tracks(size, l, s, id)
    ensures var steps := Emitted(answer, depth, first, l, s, id, moves);
            && P.IsRun(s, steps)
            && Tracks(size, Turns(answer, depth, first, l, OurTurns(moves)), P.After(s, steps), id)
    decreases |moves|
  {
    hide Tracks, TurnSteps, Turn, Own, P.Enabled, P.Apply, P.IsRun, P.After;
    if moves == [] {
      NoStep(s);
    } else {
      var rest := moves[1..];
      if moves[0] == Ours {
        var l' := Turn(answer, depth, first, l);
        var steps := TurnSteps(l, l', id);
        TurnIsStep(answer, depth, first, size, l, s, id);
        InterleavingIsRun(answer, depth, first, size, l', P.After(s, steps), id, rest);
        TurnFirst(answer, depth, first, l, OurTurns(rest));
        Onward(size, Turns(answer, depth, first, l', OurTurns(rest)), s, id, steps,
               Emitted(answer, depth, first, l', P.After(s, steps), id, rest));
      } else {
        var step := moves[0].step;
        if P.Enabled(s, step) && !Own(step, id) {
          OthersKeepTracks(size, l, s, id, step);
          OneStep(s, step);
          InterleavingIsRun(answer, depth, first, size, l, P.Apply(s, step), id, rest);
          Onward(size, Turns(answer, depth, first, l, OurTurns(rest)), s, id, [step],
                 Emitted(answer, depth, first, l, P.Apply(s, step), id, rest));
        } else {
          InterleavingIsRun(answer, depth, first, size, l, s, id, rest);
        }
      }
    }
  }

  /** So a whole submission, however the kernel answers and whatever steps the kernel, the reaper
      and other handlers take between its turns, is part of a run of the protocol: it ends past
      submission, with every request accepted when it returns a count and only a strict prefix
      when it returns an error. */
  lemma SubmissionIsRun(answer: Answers, depth: int, first: nat, size: nat, s: P.State, id: P.Id, moves: seq<Move>)
    requires AcceptsPrefix(answer) && depth > 0 && size > 0
    requires P.At(s, id, P.Submitting) && |s.ctxs[id].lengths| == size && s.ctxs[id].accepted == 0
    ensures var steps := Emitted(answer, depth, first, Start(size), s, id, moves);
            var l := Turns(answer, depth, first, Start(size), OurTurns(moves));
            && P.IsRun(s, steps)
            && Tracks(size, l, P.After(s, steps), id)
            && (l.status.Returned? ==>
                  P.At(P.After(s, steps), id, P.Submitted)
                  && (l.status.ret >= 0 <==> P.After(s, steps).ctxs[id].accepted == size))
  {
    hide Emitted, P.IsRun, P.After, Turn;
    TurnsKeep(answer, depth, first, size, 0);
    InterleavingIsRun(answer, depth, first, size, Start(size), s, id, moves);
  }
}
