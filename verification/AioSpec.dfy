/** What reaping one completion does to the counters of its request context. */
module AioSpec {

  const EIO: int := 5

  // The capacity aio_context_init gives the request list.
  const CAPACITY: nat := 100

  // A long stored in an int.
  function ToInt32(r: int): (i: int)
    ensures -0x8000_0000 <= i < 0x8000_0000
    ensures -0x8000_0000 <= r < 0x8000_0000 ==> i == r
    ensures (i - r) % 0x1_0000_0000 == 0
  {
    (r + 0x8000_0000) % 0x1_0000_0000 - 0x8000_0000
  }

  // The verdict on one completion: an error and a short transfer are both -EIO.
  function Verdict(length: nat, res: int): int {
    if res < 0 then -EIO
    else if length != res then -EIO
    else ToInt32(res)
  }

  // num_pending, num_running, rval and the number of signals sent so far.
  datatype Counters = Counters(pending: nat, running: nat, rval: int, signals: nat)

  // aio_context_init
  const FRESH: Counters := Counters(0, 0, -1000, 0)

  // The reaper's loop body: overwrite rval, count, signal at the last one.
  function Process(c: Counters, length: nat, res: int): Counters {
    Counters(c.pending, c.running + 1, Verdict(length, res),
             if c.running + 1 == c.pending then c.signals + 1 else c.signals)
  }

  // One completion: the length asked for and the result reported.
  datatype Completion = Completion(length: nat, res: int)

  function ProcessAll(c: Counters, done: seq<Completion>): Counters
    decreases |done|
  {
    if done == [] then c else ProcessAll(Process(c, done[0].length, done[0].res), done[1..])
  }

  predicate Succeeds(d: Completion) { d.res == d.length }

  lemma {:induction false} ProcessAllSnoc(c: Counters, done: seq<Completion>, d: Completion)
    ensures ProcessAll(c, done + [d]) == Process(ProcessAll(c, done), d.length, d.res)
    decreases |done|
  {
    if done == [] {
      assert ([d])[1..] == [];
    } else {
      assert (done + [d])[1..] == done[1..] + [d];
      ProcessAllSnoc(Process(c, done[0].length, done[0].res), done[1..], d);
    }
  }

  // The result stored for one completion: the length when it is good, as far as an int holds it,
  // and -5 when the request failed or was short.
  predicate ResultOf(d: Completion, rval: int) {
    if d.res != d.length then rval == -5
    else -0x8000_0000 <= rval < 0x8000_0000 && (rval - d.length) % 0x1_0000_0000 == 0
         && (d.length < 0x8000_0000 ==> rval == d.length)
  }

  /** The counters after any completions: each is counted, rval is the result of the last, and a
      signal is sent exactly when the count passes the number of requests. */
  lemma {:induction false} ProcessAllFrom(c: Counters, done: seq<Completion>)
    ensures var r := ProcessAll(c, done);
            && r.pending == c.pending && r.running == c.running + |done|
            && r.signals == c.signals + (if c.running < c.pending <= c.running + |done| then 1 else 0)
            && (if done == [] then r.rval == c.rval else ResultOf(done[|done| - 1], r.rval))
    decreases |done|
  {
    if done != [] {
      var n := |done| - 1;
      assert done == done[..n] + [done[n]];
      ProcessAllFrom(c, done[..n]);
      ProcessAllSnoc(c, done[..n], done[n]);
      VerdictIsResult(done[n]);
    }
  }

  lemma VerdictIsResult(d: Completion)
    ensures ResultOf(d, Verdict(d.length, d.res))
  {}

  /** From fresh counters: rval is the length of the last request or -5, and there is one signal,
      when the count has reached the number of requests. */
  lemma ProcessAllExact(c: Counters, done: seq<Completion>)
    requires c.running == 0 && c.signals == 0
    ensures var r := ProcessAll(c, done);
            && r.pending == c.pending && r.running == |done|
            && r.signals == (if 1 <= c.pending <= |done| then 1 else 0)
            && (if done == [] then r.rval == c.rval else ResultOf(done[|done| - 1], r.rval))
  {
    ProcessAllFrom(c, done);
  }

  /** With lengths below 2^31 the verdict of a run is the length of the last request reaped, or -5
      when that one failed or was short; earlier failures are masked. */
  lemma VerdictIff(c: Counters, done: seq<Completion>)
    requires c.running == 0 && c.signals == 0 && done != []
    requires forall i :: 0 <= i < |done| ==> done[i].length < 0x8000_0000
    ensures ProcessAll(c, done).rval == if Succeeds(done[|done| - 1]) then done[|done| - 1].length else -5
    ensures (forall i :: 0 <= i < |done| ==> Succeeds(done[i])) ==> ProcessAll(c, done).rval >= 0
    ensures ProcessAll(c, done).rval < 0 ==> exists i :: 0 <= i < |done| && !Succeeds(done[i])
  {
    ProcessAllExact(c, done);
  }

  /** A failed request is masked: of two, an I/O error and then a good one, the context reports
      success. */
  lemma FailureIsMasked()
    ensures var done := [Completion(1, -5), Completion(1, 1)];
            !Succeeds(done[0]) && ProcessAll(FRESH.(pending := 2), done) == Counters(2, 2, 1, 1)
  {
    var done := [Completion(1, -5), Completion(1, 1)];
    assert done[1..] == [Completion(1, 1)] && done[1..][1..] == [];
  }
}
