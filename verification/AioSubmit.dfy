/** aio_queue_submit: batched submission with exponential backoff. */
module AioSubmit {
  import opened Powers

  const EAGAIN: int := 11
  const ATTEMPTS: nat := 16
  const FIRST_DELAY: nat := 125

  // 125 * (2^16 - 1): what sixteen doublings of the delay add up to.
  const LONGEST_NAP: nat := 8191875

  // The kernel's answer to each io_submit call, by call number and batch size. It accepts a
  // prefix of what it is offered or reports an error.
  type Answers = (nat, int) -> int

  ghost predicate AcceptsPrefix(answer: Answers) {
    forall call, nr :: nr > 0 ==> answer(call, nr) <= nr
  }

  // It never answers 0 to a non-empty batch.
  ghost predicate NeverZero(answer: Answers) {
    forall call, nr :: nr > 0 ==> answer(call, nr) != 0
  }

  // ----- The loop as a machine -----

  datatype Status = Running | Returned(ret: int)

  // One io_submit call: the requests offered and the kernel's answer.
  datatype Call = Call(nr: int, ret: int)

  // left, done, attempts and delay are the variables of the loop; the rest is bookkeeping:
  // calls made, zero answers, microseconds slept since the last answer that was not EAGAIN and
  // in all, and the calls themselves.
  datatype Loop = Loop(left: int, done: int, attempts: int, delay: nat, status: Status,
                       calls: nat, zeros: nat, nap: nat, slept: nat, log: seq<Call>)

  function Start(size: nat): Loop {
    Loop(size, 0, ATTEMPTS, FIRST_DELAY, Running, 0, 0, 0, 0, [])
  }

  // One turn of the submission loop; first is the kernel's call counter on entry.
  function Turn(answer: Answers, depth: int, first: nat, l: Loop): Loop {
    if l.status != Running then l
    else if l.left <= 0 then l.(status := Returned(l.done))
    else
      var nr := if l.left < depth then l.left else depth;
      var ret := answer(first + l.calls, nr);
      var log := l.log + [Call(nr, ret)];
      if ret < 0 then
        if ret == -EAGAIN && l.attempts > 0 then
          l.(attempts := l.attempts - 1, delay := 2 * l.delay, calls := l.calls + 1,
             nap := l.nap + l.delay, slept := l.slept + l.delay, log := log)
        else l.(status := Returned(ret), calls := l.calls + 1, log := log)
      else
        l.(done := l.done + ret, left := l.left - ret, attempts := ATTEMPTS, delay := FIRST_DELAY,
           calls := l.calls + 1, zeros := if ret == 0 then l.zeros + 1 else l.zeros, nap := 0, log := log)
  }

  function Turns(answer: Answers, depth: int, first: nat, l: Loop, k: nat): Loop {
    if k == 0 then l else Turn(answer, depth, first, Turns(answer, depth, first, l, k - 1))
  }

  // What every loop head keeps.
  ghost predicate LoopInv(size: nat, l: Loop) {
    && 0 <= l.done <= size && l.left == size - l.done
    && 0 <= l.attempts <= ATTEMPTS && l.delay == FIRST_DELAY * Pow2(ATTEMPTS - l.attempts)
    && l.nap == l.delay - FIRST_DELAY
    && l.slept <= LONGEST_NAP * (l.done + l.zeros) + l.nap
    && l.calls <= 17 * (l.done + l.zeros) + (ATTEMPTS - l.attempts) + (if l.status.Returned? then 1 else 0)
    && (l.status.Returned? ==> (l.status.ret == l.done == size || (l.status.ret < 0 && l.done < size)))
    && (l.done == size ==> l.attempts == ATTEMPTS)
    && (l.status == Returned(-EAGAIN) ==> l.attempts == 0)
  }

  lemma DelayBound(attempts: nat)
    requires attempts <= ATTEMPTS
    ensures FIRST_DELAY * Pow2(ATTEMPTS - attempts) <= LONGEST_NAP + FIRST_DELAY
  {
    assert Pow2(4) == 16 && Pow2(8) == 256 && Pow2(12) == 4096 && Pow2(16) == 65536;
    Pow2Monotone(ATTEMPTS - attempts, 16);
  }

  lemma {:induction false} Pow2Monotone(a: nat, b: nat)
    requires a <= b
    ensures Pow2(a) <= Pow2(b)
    decreases b
  {
    if a < b {
      Pow2Monotone(a, b - 1);
    }
  }

  lemma TurnKeeps(answer: Answers, depth: int, first: nat, size: nat, l: Loop)
    requires AcceptsPrefix(answer) && depth > 0 && LoopInv(size, l)
    ensures LoopInv(size, Turn(answer, depth, first, l))
  {
    DelayBound(l.attempts);
    var l' := Turn(answer, depth, first, l);
    if l.status == Running && l.left > 0 {
      var nr := if l.left < depth then l.left else depth;
      var ret := answer(first + l.calls, nr);
      assert ret <= nr;
      if ret >= 0 {
        assert Pow2(0) == 1;
        assert l'.done + l'.zeros >= l.done + l.zeros + 1;
      } else if ret == -EAGAIN && l.attempts > 0 {
        assert Pow2(ATTEMPTS - l'.attempts) == 2 * Pow2(ATTEMPTS - l.attempts);
      }
    }
  }

  lemma {:induction false} TurnsKeep(answer: Answers, depth: int, first: nat, size: nat, k: nat)
    requires AcceptsPrefix(answer) && depth > 0
    ensures LoopInv(size, Turns(answer, depth, first, Start(size), k))
  {
    if k == 0 {
      assert Pow2(0) == 1;
    } else {
      hide LoopInv;
      TurnsKeep(answer, depth, first, size, k - 1);
      TurnKeeps(answer, depth, first, size, Turns(answer, depth, first, Start(size), k - 1));
    }
  }

  // A loop still running after k turns has made k calls.
  lemma {:induction false} RunningCalls(answer: Answers, depth: int, first: nat, size: nat, k: nat)
    ensures var l := Turns(answer, depth, first, Start(size), k); l.status == Running ==> l.calls == k
  {
    if k > 0 {
      RunningCalls(answer, depth, first, size, k - 1);
    }
  }

  /** The backoff: at every loop head the delay is 125 * 2^(16 - attempts), one uninterrupted
      sleep is at most 125 * (2^16 - 1) microseconds, and a call that gets no zero answer sleeps
      at most size times that. */
  lemma BackoffBound(answer: Answers, depth: int, first: nat, size: nat, k: nat)
    requires AcceptsPrefix(answer) && depth > 0
    ensures var l := Turns(answer, depth, first, Start(size), k);
            && 0 <= l.attempts <= ATTEMPTS && l.delay == FIRST_DELAY * Pow2(ATTEMPTS - l.attempts)
            && l.nap <= LONGEST_NAP
            && (l.zeros == 0 ==> l.slept <= LONGEST_NAP * size)
  {
    var l := Turns(answer, depth, first, Start(size), k);
    TurnsKeep(answer, depth, first, size, k);
    DelayBound(l.attempts);
    if l.done == size {
      assert Pow2(0) == 1;
    } else if l.zeros == 0 {
      assert l.done + 1 <= size;
      assert LONGEST_NAP * (l.done + 1) <= LONGEST_NAP * size;
    }
  }

  ghost predicate Answered(answer: Answers, ret: int) {
    exists call: nat, nr: int :: nr > 0 && answer(call, nr) == ret
  }

  // An error that is returned is one the kernel gave.
  lemma {:induction false} ErrorIsAnswer(answer: Answers, depth: int, first: nat, size: nat, k: nat)
    requires depth > 0
    ensures var l := Turns(answer, depth, first, Start(size), k);
            l.status.Returned? && l.status.ret != l.done ==> Answered(answer, l.status.ret)
  {
    if k > 0 {
      ErrorIsAnswer(answer, depth, first, size, k - 1);
      var l := Turns(answer, depth, first, Start(size), k - 1);
      if l.status == Running && l.left > 0 {
        var nr := if l.left < depth then l.left else depth;
        assert nr > 0 && answer(first + l.calls, nr) == answer(first + l.calls, nr);
      }
    }
  }

  /** EAGAIN is reported only after sixteen sleeps without any progress, 8.19 seconds in all. */
  lemma GivesUpLate(answer: Answers, depth: int, first: nat, size: nat, k: nat)
    requires AcceptsPrefix(answer) && depth > 0
    ensures var l := Turns(answer, depth, first, Start(size), k);
            l.status == Returned(-EAGAIN) ==> l.nap == LONGEST_NAP
  {
    TurnsKeep(answer, depth, first, size, k);
    assert Pow2(4) == 16 && Pow2(8) == 256 && Pow2(12) == 4096 && Pow2(16) == 65536;
  }

  // A loop still running after k turns has seen at least (k - 16) / 17 - size zero answers.
  lemma ZerosBound(answer: Answers, depth: int, first: nat, size: nat, k: nat)
    requires AcceptsPrefix(answer) && depth > 0
    ensures var l := Turns(answer, depth, first, Start(size), k);
            l.status == Running ==> k <= 17 * (size + l.zeros) + ATTEMPTS
  {
    TurnsKeep(answer, depth, first, size, k);
    RunningCalls(answer, depth, first, size, k);
  }

  ghost predicate Stops(answer: Answers, depth: int, first: nat, size: nat) {
    exists k: nat :: Turns(answer, depth, first, Start(size), k).status.Returned?
  }

  ghost predicate ZerosBounded(answer: Answers, depth: int, first: nat, size: nat, z: nat) {
    forall k: nat :: Turns(answer, depth, first, Start(size), k).zeros <= z
  }

  lemma {:induction false} ReturnedStays(answer: Answers, depth: int, first: nat, l: Loop, k: nat, n: nat)
    requires Turns(answer, depth, first, l, k).status.Returned? && k <= n
    ensures Turns(answer, depth, first, l, n) == Turns(answer, depth, first, l, k)
    decreases n
  {
    if k < n {
      ReturnedStays(answer, depth, first, l, k, n - 1);
    }
  }

  lemma {:induction false} ZerosMonotone(answer: Answers, depth: int, first: nat, l: Loop, k: nat, n: nat)
    requires k <= n
    ensures Turns(answer, depth, first, l, k).zeros <= Turns(answer, depth, first, l, n).zeros
    decreases n
  {
    if k < n {
      ZerosMonotone(answer, depth, first, l, k, n - 1);
    }
  }

  /** The loop returns exactly when the kernel gives it only finitely many zero answers. */
  lemma StopsIff(answer: Answers, depth: int, first: nat, size: nat)
    requires AcceptsPrefix(answer) && depth > 0
    ensures Stops(answer, depth, first, size) <==> exists z: nat :: ZerosBounded(answer, depth, first, size, z)
  {
    if Stops(answer, depth, first, size) {
      var k: nat :| Turns(answer, depth, first, Start(size), k).status.Returned?;
      var z := Turns(answer, depth, first, Start(size), k).zeros;
      forall n: nat ensures Turns(answer, depth, first, Start(size), n).zeros <= z {
        if k <= n {
          ReturnedStays(answer, depth, first, Start(size), k, n);
        } else {
          ZerosMonotone(answer, depth, first, Start(size), n, k);
        }
      }
      assert ZerosBounded(answer, depth, first, size, z);
    }
    if exists z: nat :: ZerosBounded(answer, depth, first, size, z) {
      var z: nat :| ZerosBounded(answer, depth, first, size, z);
      var k := 17 * (size + z) + ATTEMPTS + 1;
      ZerosBound(answer, depth, first, size, k);
      assert Turns(answer, depth, first, Start(size), k).zeros <= z;
      assert Turns(answer, depth, first, Start(size), k).status.Returned?;
    }
  }

  function AlwaysZero(): Answers { (call, nr) => 0 }

  lemma {:induction false} OnlyZeros(depth: int, first: nat, size: nat, k: nat)
    requires depth > 0 && size > 0
    ensures var l := Turns(AlwaysZero(), depth, first, Start(size), k); l.status == Running && l.left == size
  {
    if k > 0 {
      OnlyZeros(depth, first, size, k - 1);
    }
  }

  /** A kernel that always answers 0 keeps the loop running for ever. */
  lemma ZeroAnswersNeverStop(depth: int, first: nat, size: nat)
    requires depth > 0 && size > 0
    ensures AcceptsPrefix(AlwaysZero()) && !Stops(AlwaysZero(), depth, first, size)
  {
    if Stops(AlwaysZero(), depth, first, size) {
      var k: nat :| Turns(AlwaysZero(), depth, first, Start(size), k).status.Returned?;
      OnlyZeros(depth, first, size, k);
    }
  }

  // ----- What the calls say -----

  // How many requests a sequence of calls got accepted.
  function Taken(log: seq<Call>): int {
    if log == [] then 0
    else Taken(log[..|log| - 1]) + (if log[|log| - 1].ret > 0 then log[|log| - 1].ret else 0)
  }

  // How many answers at the end of a sequence of calls are -EAGAIN.
  function Streak(log: seq<Call>): nat {
    if log == [] || log[|log| - 1].ret != -11 then 0 else 1 + Streak(log[..|log| - 1])
  }

  // What it takes to sleep 125 us after a first -EAGAIN and twice as long after each one behind it.
  function Naps(log: seq<Call>): nat {
    if log == [] then 0
    else
      var past := log[..|log| - 1];
      Naps(past) + (if log[|log| - 1].ret == -11 then 125 * Pow2(Streak(past)) else 0)
  }

  // Call i offers all that is left, or as much as the queue is deep.
  predicate Offers(size: int, depth: int, log: seq<Call>, i: nat)
    requires i < |log|
  {
    var left := size - Taken(log[..i]);
    left > 0 && log[i].nr == if left < depth then left else depth
  }

  // After answer i the loop goes on: no error, or one of the first sixteen -EAGAIN in a row.
  predicate GoesOn(log: seq<Call>, i: nat)
    requires i < |log|
  {
    log[i].ret >= 0 || (log[i].ret == -11 && Streak(log[..i]) < 16)
  }

  /** The calls of a loop that goes on after every answer, and has slept as it should. */
  ghost predicate Ongoing(size: int, depth: int, log: seq<Call>, slept: nat) {
    (forall i :: 0 <= i < |log| ==> Offers(size, depth, log, i) && GoesOn(log, i)) && slept == Naps(log)
  }

  /** The calls of a finished submission: a count is the size and everything was accepted; an error
      is the last answer, either no -EAGAIN or the seventeenth in a row. */
  ghost predicate Finished(size: int, depth: int, log: seq<Call>, slept: nat, ret: int) {
    if ret >= 0 then
      Ongoing(size, depth, log, slept) && Taken(log) == size == ret
    else
      && log != [] && log[|log| - 1].ret == ret && Offers(size, depth, log, |log| - 1)
      && Ongoing(size, depth, log[..|log| - 1], slept)
      && (ret == -11 ==> Streak(log[..|log| - 1]) == 16)
  }

  // The variables of the loop and the calls made so far.
  ghost predicate Logged(size: int, depth: int, l: Loop) {
    if l.status.Returned? then Finished(size, depth, l.log, l.slept, l.status.ret)
    else Ongoing(size, depth, l.log, l.slept) && l.done == Taken(l.log) && l.attempts == 16 - Streak(l.log)
  }

  lemma OneMore(size: int, depth: int, log: seq<Call>, c: Call)
    ensures (log + [c])[..|log|] == log
    ensures Taken(log + [c]) == Taken(log) + (if c.ret > 0 then c.ret else 0)
    ensures Streak(log + [c]) == if c.ret == -11 then 1 + Streak(log) else 0
    ensures Naps(log + [c]) == Naps(log) + (if c.ret == -11 then 125 * Pow2(Streak(log)) else 0)
  {
    assert (log + [c])[..|log|] == log;
  }

  lemma OngoingOneMore(size: int, depth: int, log: seq<Call>, slept: nat, c: Call, slept': nat)
    requires Ongoing(size, depth, log, slept)
    requires Offers(size, depth, log + [c], |log|) && GoesOn(log + [c], |log|) && slept' == Naps(log + [c])
    ensures Ongoing(size, depth, log + [c], slept')
  {
    hide Taken, Streak, Naps;
    var log' := log + [c];
    forall i | 0 <= i < |log'| ensures Offers(size, depth, log', i) && GoesOn(log', i) {
      if i < |log| {
        assert Offers(size, depth, log, i) && GoesOn(log, i);
        assert log'[..i] == log[..i];
      }
    }
  }

  lemma SleptSoFar(size: int, depth: int, log: seq<Call>, slept: nat)
    requires Ongoing(size, depth, log, slept)
    ensures slept == Naps(log)
  {}

  lemma TurnKeepsLog(answer: Answers, depth: int, first: nat, size: nat, l: Loop)
    requires AcceptsPrefix(answer) && depth > 0 && LoopInv(size, l) && Logged(size, depth, l)
    ensures Logged(size, depth, Turn(answer, depth, first, l))
  {
    hide Taken, Streak, Naps, Ongoing;
    if l.status == Running && l.left > 0 {
      var nr := if l.left < depth then l.left else depth;
      var c := Call(nr, answer(first + l.calls, nr));
      OneMore(size, depth, l.log, c);
      SleptSoFar(size, depth, l.log, l.slept);
      var l' := Turn(answer, depth, first, l);
      if !l'.status.Returned? {
        OngoingOneMore(size, depth, l.log, l.slept, c, l'.slept);
      }
    }
  }

  /** Which calls are made, which errors are retried and how long the loop sleeps, from the answers
      alone. */
  lemma {:induction false} LogExact(answer: Answers, depth: int, first: nat, size: nat, k: nat)
    requires AcceptsPrefix(answer) && depth > 0
    ensures Logged(size, depth, Turns(answer, depth, first, Start(size), k))
  {
    hide LoopInv, Logged, Turn;
    if k == 0 {
      NothingLogged(size, depth);
    } else {
      LogExact(answer, depth, first, size, k - 1);
      TurnsKeep(answer, depth, first, size, k - 1);
      TurnKeepsLog(answer, depth, first, size, Turns(answer, depth, first, Start(size), k - 1));
    }
  }

  lemma NothingLogged(size: nat, depth: int)
    ensures Logged(size, depth, Start(size))
  {}

  /** A kernel that never answers -EAGAIN is never slept for: every call but the last makes progress
      or gets a zero answer. */
  lemma {:induction false} NoAgainNoSleep(answer: Answers, depth: int, first: nat, size: nat, k: nat)
    requires AcceptsPrefix(answer) && depth > 0 && forall call, nr :: answer(call, nr) != -11
    ensures var l := Turns(answer, depth, first, Start(size), k);
            l.slept == 0 && l.calls <= l.done + l.zeros + (if l.status.Returned? then 1 else 0)
  {
    if k > 0 {
      NoAgainNoSleep(answer, depth, first, size, k - 1);
    }
  }

  // ----- The method -----

  // Accepting `ret` of the `nr` requests offered behind the first `done`.
  lemma MoreAccepted<T>(before: seq<T>, all: seq<T>, done: int, nr: int, ret: int)
    requires 0 <= done && 0 <= ret <= nr && done + nr <= |all|
    ensures before + all[..done] + all[done..done + nr][..ret] == before + all[..done + ret]
    ensures all[done..done + nr][..0] == []
  {
    assert all[done..done + nr][..ret] == all[done..done + ret];
    assert all[..done] + all[done..done + ret] == all[..done + ret];
  }

  class IoQueue<T> {
    const maxIodepth: int
    const answer: Answers
    var calls: nat
    ghost var accepted: seq<T>   // every iocb ever accepted, in order
    ghost var slept: nat         // microseconds spent in usleep
    ghost var log: seq<Call>     // every io_submit call made

    constructor (maxIodepth: int, answer: Answers)
      ensures this.maxIodepth == maxIodepth && this.answer == answer && calls == 0 && accepted == [] && slept == 0
    {
      this.maxIodepth, this.answer, calls, accepted, slept, log := maxIodepth, answer, 0, [], 0, [];
    }

    // io_submit: no batch is empty or larger than the queue is deep.
    method IoSubmit(nr: int, batch: seq<T>) returns (ret: int)
      requires 1 <= nr <= maxIodepth && |batch| == nr && AcceptsPrefix(answer)
      modifies this
      ensures ret == answer(old(calls), nr) <= nr
      ensures calls == old(calls) + 1 && slept == old(slept)
      ensures accepted == old(accepted) + batch[..if ret > 0 then ret else 0]
      ensures log == old(log) + [Call(nr, ret)]
    {
      ret := answer(calls, nr);
      calls := calls + 1;
      accepted := accepted + batch[..if ret > 0 then ret else 0];
      log := log + [Call(nr, ret)];
    }

    method USleep(delay: nat)
      modifies this
      ensures slept == old(slept) + delay && calls == old(calls) && accepted == old(accepted) && log == old(log)
    {
      slept := slept + delay;
    }

    // The loop variables are those of the machine, and so is the history since entry.
    ghost predicate InStep(l: Loop, left: int, done: int, attempts: int, delay: int,
                           first: nat, before: seq<T>, slept0: nat, log0: seq<Call>, piocb: array<T>)
      reads this, piocb
    {
      && l.left == left && l.done == done && l.attempts == attempts && l.delay == delay
      && calls == first + l.calls && slept == slept0 + l.slept && log == log0 + l.log
      && 0 <= done <= piocb.Length && accepted == before + piocb[..done]
    }

    // One turn of the loop; stop says that the error `ret` is returned.
    method SubmitBatch(piocb: array<T>, left: int, done: int, attempts: int, delay: int,
                       ghost size: nat, ghost l: Loop, ghost first: nat, ghost before: seq<T>, ghost slept0: nat, ghost log0: seq<Call>)
      returns (stop: bool, ret: int, left': int, done': int, attempts': int, delay': int, ghost l': Loop)
      requires size <= piocb.Length && maxIodepth > 0 && AcceptsPrefix(answer)
      requires LoopInv(size, l) && l.status == Running && left > 0
      requires InStep(l, left, done, attempts, delay, first, before, slept0, log0, piocb)
      modifies this
      ensures l' == Turn(answer, maxIodepth, first, l)
      ensures stop ==> l'.status == Returned(ret) && ret < 0
      ensures !stop ==> l'.status == Running
      ensures if stop then InStep(l', left, done, l'.attempts, l'.delay, first, before, slept0, log0, piocb)
              else InStep(l', left', done', attempts', delay', first, before, slept0, log0, piocb)
      ensures LoopInv(size, l')
      ensures !stop ==> left' < left || (left' == left && attempts' < attempts) || l'.zeros > l.zeros
    {
      TurnKeeps(answer, maxIodepth, first, size, l);
      l' := Turn(answer, maxIodepth, first, l);
      hide LoopInv, Pow2;
      stop, left', done', attempts', delay' := false, left, done, attempts, delay;
      assert 0 < left <= size - done && 0 <= delay by { TurnBounds(size, l); }
      var nr := if left < maxIodepth then left else maxIodepth;
      ret := IoSubmit(nr, piocb[done..done + nr]);
      if ret < 0 {
        if ret == -EAGAIN && attempts > 0 {
          attempts' := attempts - 1;
          USleep(delay);
          delay' := delay * 2;
        } else {
          stop := true;
        }
      } else {
        MoreAccepted(before, piocb[..], done, nr, ret);
        done' := done + ret;
        left' := left - ret;
        attempts' := ATTEMPTS;
        delay' := FIRST_DELAY;
      }
    }

    /** aio_queue_submit: the accepted iocbs are exactly the first `done` of the list, each once
        and in order. A non-negative return means all of them; an error leaves a strict prefix.
        Only -EAGAIN is retried, sixteen times in a row, and any other error ends the loop. */
    method Submit(piocb: array<T>, size: nat) returns (ret: int, ghost l: Loop)
      requires size <= piocb.Length && maxIodepth > 0 && AcceptsPrefix(answer) && NeverZero(answer)
      modifies this
      ensures ret >= 0 ==> ret == size && l.done == size
      ensures ret < 0 ==> 0 <= l.done < size
      ensures accepted == old(accepted) + piocb[..l.done]
      ensures exists k: nat :: l == Turns(answer, maxIodepth, old(calls), Start(size), k)
      ensures l.status == Returned(ret) && calls == old(calls) + l.calls && slept == old(slept) + l.slept
      ensures l.calls <= 17 * size + 17 && l.slept <= LONGEST_NAP * size
      ensures log == old(log) + l.log && Finished(size, maxIodepth, l.log, slept - old(slept), ret)
    {
      hide Turn, LoopInv, Finished, Ongoing;
      ghost var first, before, slept0, log0 := calls, accepted, slept, log;
      var attempts: int, delay: int := ATTEMPTS, FIRST_DELAY;
      var left: int, done: int := size, 0;
      l := Start(size);
      ghost var k := 0;
      TurnsKeep(answer, maxIodepth, first, size, 0);
      while left > 0
        invariant l == Turns(answer, maxIodepth, first, Start(size), k)
        invariant InStep(l, left, done, attempts, delay, first, before, slept0, log0, piocb)
        invariant LoopInv(size, l) && l.status == Running && l.zeros == 0
        decreases left, attempts
      {
        ghost var l0 := l;
        var stop;
        stop, ret, left, done, attempts, delay, l :=
          SubmitBatch(piocb, left, done, attempts, delay, size, l, first, before, slept0, log0);
        k := k + 1;
        NoZero(answer, maxIodepth, first, l0);
        if stop {
          ReturnBounds(answer, maxIodepth, first, size, k);
          LogExact(answer, maxIodepth, first, size, k);
          return;
        }
        TurnBounds(size, l0);
        TurnBounds(size, l);
      }
      l := FinalTurn(answer, maxIodepth, first, size, l);
      k := k + 1;
      ReturnBounds(answer, maxIodepth, first, size, k);
      LogExact(answer, maxIodepth, first, size, k);
      ret := done;
    }
  }

  lemma TurnBounds(size: nat, l: Loop)
    requires LoopInv(size, l)
    ensures 0 <= l.done <= size && l.left == size - l.done && 0 <= l.attempts && 0 <= l.delay
  {}

  lemma NoZero(answer: Answers, depth: int, first: nat, l: Loop)
    requires NeverZero(answer) && depth > 0
    ensures Turn(answer, depth, first, l).zeros == l.zeros
  {}

  lemma FinalTurn(answer: Answers, depth: int, first: nat, size: nat, l: Loop) returns (l': Loop)
    requires LoopInv(size, l) && l.status == Running && l.left <= 0
    ensures l' == Turn(answer, depth, first, l) == l.(status := Returned(l.done)) && l.done == size
  {
    l' := Turn(answer, depth, first, l);
  }

  // A returned loop without zero answers: what was accepted, and what it cost.
  lemma ReturnBounds(answer: Answers, depth: int, first: nat, size: nat, k: nat)
    requires AcceptsPrefix(answer) && depth > 0
    ensures var l := Turns(answer, depth, first, Start(size), k);
            l.zeros == 0 && l.status.Returned? ==>
              && (if l.status.ret >= 0 then l.status.ret == l.done == size else 0 <= l.done < size)
              && l.calls <= 17 * size + 17 && l.slept <= LONGEST_NAP * size
  {
    hide Turn, Turns;
    TurnsKeep(answer, depth, first, size, k);
    BackoffBound(answer, depth, first, size, k);
  }
}
