/** Whole runs of a dictionary: any sequence of operations, with any pattern of failed
    growths, is indistinguishable from the same run on a map. */
module DictionaryRuns {
  import opened Options
  import opened Slots
  import opened DictionaryStore

  datatype Op =
    | SetOp(key: Option<string>, val: Option<string>, memory: bool)
    | UnsetOp(key: Option<string>)
    | GetOp(name: string)

  datatype Observed = Returned(ret: int) | Got(answer: Answer) | Silent

  // The abstract store: the map, and the capacity that decides when a growth is needed.
  datatype Model = Model(entries: Entries, size: nat)

  function StepModel(m: Model, op: Op): (Model, Observed) {
    match op
    case SetOp(k, v, memory) =>
      var ret := SetResult(m.entries, m.size, k, memory);
      if ret == 0 then
        (Model(m.entries[k.value := v], if SetGrows(m.entries, m.size, k) then 2 * m.size else m.size), Returned(0))
      else (m, Returned(ret))
    case UnsetOp(k) =>
      (if k.Some? then m.(entries := m.entries - {k.value}) else m, Silent)
    case GetOp(k) => (m, Got(Lookup(m.entries, k)))
  }

  function RunModel(m: Model, ops: seq<Op>): (Model, seq<Observed>)
    decreases |ops|
  {
    if ops == [] then (m, [])
    else
      var (m1, o) := StepModel(m, ops[0]);
      var (m2, os) := RunModel(m1, ops[1..]);
      (m2, [o] + os)
  }

  // ----- What a run shows -----

  // The model after the first i operations.
  function StateAt(m: Model, ops: seq<Op>, i: nat): Model
    requires i <= |ops|
  {
    if i == 0 then m else StepModel(StateAt(m, ops, i - 1), ops[i - 1]).0
  }

  lemma {:induction false} StateShift(m: Model, ops: seq<Op>, i: nat)
    requires i < |ops|
    ensures StateAt(m, ops, i + 1) == StateAt(StepModel(m, ops[0]).0, ops[1..], i)
  {
    hide StepModel;
    if i > 0 {
      StateShift(m, ops, i - 1);
    } else {
      assert StateAt(m, ops, 0) == m;
    }
  }

  lemma {:induction false} RunModelAt(m: Model, ops: seq<Op>)
    ensures |RunModel(m, ops).1| == |ops| && RunModel(m, ops).0 == StateAt(m, ops, |ops|)
    ensures forall i :: 0 <= i < |ops| ==> RunModel(m, ops).1[i] == StepModel(StateAt(m, ops, i), ops[i]).1
    decreases |ops|
  {
    hide StepModel;
    if ops != [] {
      var m1, o := StepModel(m, ops[0]).0, StepModel(m, ops[0]).1;
      var rest := RunModel(m1, ops[1..]);
      RunModelAt(m1, ops[1..]);
      assert RunModel(m, ops) == (rest.0, [o] + rest.1);
      hide RunModel;
      StateShift(m, ops, |ops| - 1);
      forall i | 0 <= i < |ops| ensures ([o] + rest.1)[i] == StepModel(StateAt(m, ops, i), ops[i]).1 {
        if i > 0 {
          StateShift(m, ops, i - 1);
          assert ([o] + rest.1)[i] == rest.1[i - 1];
        }
      }
    }
  }

  // Operation i changed what is stored under k, as far as its return code says.
  predicate Writes(ops: seq<Op>, os: seq<Observed>, k: string, i: nat)
    requires i < |ops| == |os|
  {
    match ops[i]
    case SetOp(key, _, _) => key == Some(k) && os[i] == Returned(0)
    case UnsetOp(key) => key == Some(k)
    case GetOp(_) => false
  }

  ghost predicate Untouched(ops: seq<Op>, os: seq<Observed>, k: string, i: nat, j: nat)
    requires j <= |ops| == |os|
  {
    forall x :: i <= x < j ==> !Writes(ops, os, k, x)
  }

  // What a get answers just after an operation wrote its key.
  function Written(op: Op): Answer {
    if op.SetOp? then Stored(op.val) else Default
  }

  /** Read after write: a get answers the value of the last successful set of its key, or the
      default when the key was unset since or never set. A set fails only without a key, or without
      memory for a key that is not there. */
  ghost predicate ReadsWrites(ops: seq<Op>, os: seq<Observed>)
    requires |ops| == |os|
  {
    && (forall i, j, k ::
          0 <= i < j < |ops| && ops[j] == GetOp(k) && Writes(ops, os, k, i) && Untouched(ops, os, k, i + 1, j) ==>
            os[j] == Got(Written(ops[i])))
    && (forall i, j, k ::
          0 <= i < j < |ops| && SetsAgain(ops, k, i, j) && Writes(ops, os, k, i) && Untouched(ops, os, k, i + 1, j) ==>
            os[j] == Returned(0))
    && (forall j, k :: 0 <= j < |ops| && ops[j] == GetOp(k) && Untouched(ops, os, k, 0, j) ==> os[j] == Got(Default))
    && (forall j :: 0 <= j < |ops| && ops[j].SetOp? ==> Answers(ops[j], os[j]))
  }

  predicate SetsAgain(ops: seq<Op>, k: string, i: nat, j: nat)
    requires i < j < |ops|
  {
    ops[i].SetOp? && ops[j].SetOp? && ops[j].key == Some(k)
  }

  // The return code of a set.
  predicate Answers(op: Op, o: Observed)
    requires op.SetOp?
  {
    && o in {Returned(0), Returned(-1)}
    && (op.key.None? ==> o == Returned(-1))
    && (op.key.Some? && op.memory ==> o == Returned(0))
  }

  // What m stores under k.
  function At(m: Model, k: string): Answer {
    if k in m.entries then Stored(m.entries[k]) else Default
  }

  lemma StepWrites(m: Model, ops: seq<Op>, os: seq<Observed>, k: string, i: nat)
    requires i < |ops| == |os| && os[i] == StepModel(m, ops[i]).1
    ensures At(StepModel(m, ops[i]).0, k) == if Writes(ops, os, k, i) then Written(ops[i]) else At(m, k)
  {}

  lemma StepAnswers(m: Model, op: Op)
    ensures op.GetOp? ==> StepModel(m, op).1 == Got(At(m, op.name))
    ensures op.SetOp? ==> Answers(op, StepModel(m, op).1)
    ensures op.SetOp? && op.key.Some? && At(m, op.key.value) != Default ==> StepModel(m, op).1 == Returned(0)
  {}

  // The observations are those of the model's own run.
  ghost predicate Shows(m: Model, ops: seq<Op>, os: seq<Observed>) {
    |ops| == |os| && forall x :: 0 <= x < |ops| ==> os[x] == StepModel(StateAt(m, ops, x), ops[x]).1
  }

  lemma {:induction false} UntouchedKeeps(m: Model, ops: seq<Op>, os: seq<Observed>, k: string, i: nat, j: nat)
    requires i <= j <= |ops| && Shows(m, ops, os) && Untouched(ops, os, k, i, j)
    ensures At(StateAt(m, ops, j), k) == At(StateAt(m, ops, i), k)
    decreases j
  {
    hide StepModel, Writes, At;
    if i < j {
      UntouchedKeeps(m, ops, os, k, i, j - 1);
      StepWrites(StateAt(m, ops, j - 1), ops, os, k, j - 1);
    }
  }

  lemma ReadsLast(m: Model, ops: seq<Op>, os: seq<Observed>, k: string, i: nat, j: nat)
    requires i < j < |ops| && Shows(m, ops, os) && ops[j] == GetOp(k)
    requires Writes(ops, os, k, i) && Untouched(ops, os, k, i + 1, j)
    ensures os[j] == Got(Written(ops[i]))
  {
    hide StepModel, Writes, Untouched, At, Written;
    UntouchedKeeps(m, ops, os, k, i + 1, j);
    StepWrites(StateAt(m, ops, i), ops, os, k, i);
    StepAnswers(StateAt(m, ops, j), ops[j]);
  }

  lemma SetsLast(m: Model, ops: seq<Op>, os: seq<Observed>, k: string, i: nat, j: nat)
    requires i < j < |ops| && Shows(m, ops, os) && SetsAgain(ops, k, i, j)
    requires Writes(ops, os, k, i) && Untouched(ops, os, k, i + 1, j)
    ensures os[j] == Returned(0)
  {
    hide StepModel, Writes, Untouched, At;
    UntouchedKeeps(m, ops, os, k, i + 1, j);
    StepWrites(StateAt(m, ops, i), ops, os, k, i);
    StepAnswers(StateAt(m, ops, j), ops[j]);
  }

  lemma ReadsNothing(size: nat, ops: seq<Op>, os: seq<Observed>, k: string, j: nat)
    requires j < |ops| && Shows(Model(map[], size), ops, os) && ops[j] == GetOp(k) && Untouched(ops, os, k, 0, j)
    ensures os[j] == Got(Default)
  {
    hide StepModel, Writes, Untouched;
    var m := Model(map[], size);
    UntouchedKeeps(m, ops, os, k, 0, j);
    StepAnswers(StateAt(m, ops, j), ops[j]);
  }

  lemma RunReadsWrites(size: nat, ops: seq<Op>)
    ensures |RunModel(Model(map[], size), ops).1| == |ops|
    ensures ReadsWrites(ops, RunModel(Model(map[], size), ops).1)
  {
    hide StepModel, RunModel, Writes, Untouched, Written, Answers, SetsAgain;
    var m := Model(map[], size);
    var os := RunModel(m, ops).1;
    RunModelAt(m, ops);
    assert Shows(m, ops, os);
    forall i, j, k |
      0 <= i < j < |ops| && ops[j] == GetOp(k) && Writes(ops, os, k, i) && Untouched(ops, os, k, i + 1, j)
      ensures os[j] == Got(Written(ops[i]))
    {
      ReadsLast(m, ops, os, k, i, j);
    }
    forall i, j, k |
      0 <= i < j < |ops| && SetsAgain(ops, k, i, j) && Writes(ops, os, k, i) && Untouched(ops, os, k, i + 1, j)
      ensures os[j] == Returned(0)
    {
      SetsLast(m, ops, os, k, i, j);
    }
    forall j, k | 0 <= j < |ops| && ops[j] == GetOp(k) && Untouched(ops, os, k, 0, j) ensures os[j] == Got(Default) {
      ReadsNothing(size, ops, os, k, j);
    }
    forall j | 0 <= j < |ops| && ops[j].SetOp? ensures Answers(ops[j], os[j]) {
      StepAnswers(StateAt(m, ops, j), ops[j]);
    }
  }

  // ----- The run of the source -----

  // One operation on the concrete store.
  method Perform(d: Dictionary, op: Op) returns (o: Observed)
    requires d.Valid()
    modifies d, d.key, d.val, d.hash
    ensures d.Valid()
    ensures d.key == old(d.key) || fresh(d.key)
    ensures d.val == old(d.val) || fresh(d.val)
    ensures d.hash == old(d.hash) || fresh(d.hash)
    ensures (Model(d.Map(), d.size), o) == StepModel(Model(old(d.Map()), old(d.size)), op)
  {
    match op {
      case SetOp(k, v, memory) =>
        var ret := d.Set(k, v, memory);
        o := Returned(ret);
      case UnsetOp(k) =>
        d.Unset(k);
        o := Silent;
      case GetOp(k) =>
        var a := d.Get(k);
        o := Got(a);
    }
  }

  /** A run of any length from a new store: every observation is the map's, and the store ends
      up holding the map; in particular every get reads what was written last. */
  method Run(initial: nat, ops: seq<Op>) returns (d: Dictionary, os: seq<Observed>)
    ensures d.Valid()
    ensures (Model(d.Map(), d.size), os) ==
            RunModel(Model(map[], if initial < DICTMINSZ then DICTMINSZ else initial), ops)
    ensures |os| == |ops| && ReadsWrites(ops, os)
  {
    hide ReadsWrites;
    d := new Dictionary(initial);
    os := [];
    ghost var start := Model(d.Map(), d.size);
    assert ops[0..] == ops && RunModel(start, ops).1 == [] + RunModel(start, ops).1;
    for i := 0 to |ops|
      invariant d.Valid() && fresh(d) && fresh(d.key) && fresh(d.val) && fresh(d.hash)
      invariant RunModel(start, ops).0 == RunModel(Model(d.Map(), d.size), ops[i..]).0
      invariant RunModel(start, ops).1 == os + RunModel(Model(d.Map(), d.size), ops[i..]).1
    {
      var o := Perform(d, ops[i]);
      os := os + [o];
      assert ops[i..][1..] == ops[i + 1..];
    }
    assert ops[|ops|..] == [] && os + [] == os;
    RunReadsWrites(start.size, ops);
  }
}
