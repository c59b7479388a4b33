/** Whole runs of iniparser_set, iniparser_unset and iniparser_getstring: reads and writes under
    names that agree up to case. */
module EntryRuns {
  import opened Options
  import opened CStrings
  import opened DictionaryStore
  import opened DictionaryRuns
  import opened IniEntries
  import opened Printer

  // The same operations on the store's own keys.
  function Normal(op: Op): Op {
    match op
    case SetOp(k, v, memory) => SetOp(if k.Some? then Some(NormalForm(k.value)) else None, v, memory)
    case UnsetOp(k) => UnsetOp(if k.Some? then Some(NormalForm(k.value)) else None)
    case GetOp(k) => GetOp(NormalForm(k))
  }

  function Normals(ops: seq<Op>): (r: seq<Op>)
    ensures |r| == |ops| && forall i :: 0 <= i < |ops| ==> r[i] == Normal(ops[i])
  {
    seq(|ops|, i requires 0 <= i < |ops| => Normal(ops[i]))
  }

  predicate NamedBy(op: Op, name: string) {
    match op
    case SetOp(k, _, _) => k.Some? && SameName(k.value, name)
    case UnsetOp(k) => k.Some? && SameName(k.value, name)
    case GetOp(k) => SameName(k, name)
  }

  // Operation i changed what is stored under a name, as far as its return code says.
  predicate WritesName(ops: seq<Op>, os: seq<Observed>, name: string, i: nat)
    requires i < |ops| == |os|
  {
    !ops[i].GetOp? && NamedBy(ops[i], name) && (ops[i].SetOp? ==> os[i] == Returned(0))
  }

  ghost predicate UntouchedName(ops: seq<Op>, os: seq<Observed>, name: string, i: nat, j: nat)
    requires j <= |ops| == |os|
  {
    forall x :: i <= x < j ==> !WritesName(ops, os, name, x)
  }

  ghost predicate LastWrite(ops: seq<Op>, os: seq<Observed>, name: string, i: nat, j: nat)
    requires i < j <= |ops| == |os|
  {
    WritesName(ops, os, name, i) && UntouchedName(ops, os, name, i + 1, j)
  }

  /** Read after write, where a name stands for all names that agree with it up to case in their
      first 1024 characters. */
  ghost predicate ReadsWritesByName(ops: seq<Op>, os: seq<Observed>)
    requires |ops| == |os|
  {
    && (forall i, j ::
          0 <= i < j < |ops| && ops[j].GetOp? && LastWrite(ops, os, ops[j].name, i, j) ==> os[j] == Got(Written(ops[i])))
    && (forall j :: 0 <= j < |ops| && ops[j].GetOp? && UntouchedName(ops, os, ops[j].name, 0, j) ==> os[j] == Got(Default))
    && (forall j :: 0 <= j < |ops| && ops[j].SetOp? ==> Answers(ops[j], os[j]))
  }

  lemma WritesNormal(ops: seq<Op>, os: seq<Observed>, name: string, i: nat)
    requires i < |ops| == |os|
    ensures Writes(Normals(ops), os, NormalForm(name), i) <==> WritesName(ops, os, name, i)
    ensures Written(Normals(ops)[i]) == Written(ops[i])
  {
    hide NormalForm, SameName;
    match ops[i]
    case SetOp(k, _, _) => if k.Some? { SameNameIff(k.value, name); }
    case UnsetOp(k) => if k.Some? { SameNameIff(k.value, name); }
    case GetOp(_) =>
  }

  lemma UntouchedNormal(ops: seq<Op>, os: seq<Observed>, name: string, i: nat, j: nat)
    requires j <= |ops| == |os| && UntouchedName(ops, os, name, i, j)
    ensures Untouched(Normals(ops), os, NormalForm(name), i, j)
  {
    hide NormalForm, SameName, Writes, WritesName;
    forall x | i <= x < j ensures !Writes(Normals(ops), os, NormalForm(name), x) {
      WritesNormal(ops, os, name, x);
    }
  }

  lemma ByName(ops: seq<Op>, os: seq<Observed>)
    requires |ops| == |os| && ReadsWrites(Normals(ops), os)
    ensures ReadsWritesByName(ops, os)
  {
    hide NormalForm, Writes, WritesName, Untouched, UntouchedName, Written, Answers, SetsAgain;
    var ns := Normals(ops);
    forall i, j | 0 <= i < j < |ops| && ops[j].GetOp? && LastWrite(ops, os, ops[j].name, i, j)
      ensures os[j] == Got(Written(ops[i]))
    {
      WritesNormal(ops, os, ops[j].name, i);
      UntouchedNormal(ops, os, ops[j].name, i + 1, j);
      assert ns[j] == GetOp(NormalForm(ops[j].name));
    }
    forall j | 0 <= j < |ops| && ops[j].GetOp? && UntouchedName(ops, os, ops[j].name, 0, j)
      ensures os[j] == Got(Default)
    {
      UntouchedNormal(ops, os, ops[j].name, 0, j);
      assert ns[j] == GetOp(NormalForm(ops[j].name));
    }
    forall j | 0 <= j < |ops| && ops[j].SetOp? ensures Answers(ops[j], os[j]) {
      assert ns[j].SetOp? && Answers(ns[j], os[j]);
      NormalAnswers(ops[j], os[j]);
    }
  }

  lemma NormalAnswers(op: Op, o: Observed)
    requires op.SetOp? && Normal(op).SetOp? && Answers(Normal(op), o)
    ensures Answers(op, o)
  {}

  // Names are NUL-free, as every C string is.
  ghost predicate Nameable(op: Op) {
    match op
    case SetOp(k, _, _) => k.Some? ==> NulFree(k.value)
    case UnsetOp(k) => k.Some? ==> NulFree(k.value)
    case GetOp(k) => NulFree(k)
  }

  // A name as the caller passes it.
  method NameOf(k: Option<string>) returns (name: array?<char>)
    requires k.Some? ==> NulFree(k.value)
    ensures name == null <==> k.None?
    ensures name != null ==> fresh(name) && Terminated(name[..]) && CStr(name[..]) == k.value
  {
    if k.None? {
      return null;
    }
    name := BufferOf(k.value);
  }

  // One operation through the query interface.
  method PerformEntry(d: Dictionary, op: Op) returns (o: Observed)
    requires d.Valid() && Nameable(op)
    modifies d, d.key, d.val, d.hash
    ensures d.Valid()
    ensures d.key == old(d.key) || fresh(d.key)
    ensures d.val == old(d.val) || fresh(d.val)
    ensures d.hash == old(d.hash) || fresh(d.hash)
    ensures (Model(d.Map(), d.size), o) == StepModel(Model(old(d.Map()), old(d.size)), Normal(op))
  {
    hide CStr, NormalForm;
    match op {
      case SetOp(k, v, memory) =>
        var name := NameOf(k);
        var ret := SetEntry(d, name, v, memory);
        o := Returned(ret);
      case UnsetOp(k) =>
        var name := NameOf(k);
        UnsetEntry(d, name);
        o := Silent;
      case GetOp(k) =>
        var name := NameOf(Some(k));
        var a := GetString(d, name);
        o := Got(a);
    }
  }

  // The observations so far are those of the model.
  ghost predicate Shown(m: Model, ns: seq<Op>, os: seq<Observed>) {
    |os| <= |ns| && forall x :: 0 <= x < |os| ==> os[x] == StepModel(StateAt(m, ns, x), ns[x]).1
  }

  lemma NothingShown(m: Model, ns: seq<Op>)
    ensures Shown(m, ns, []) && StateAt(m, ns, 0) == m
  {}

  lemma ShownNext(m: Model, ns: seq<Op>, os: seq<Observed>)
    requires Shown(m, ns, os) && |os| < |ns|
    ensures var step := StepModel(StateAt(m, ns, |os|), ns[|os|]);
            Shown(m, ns, os + [step.1]) && StateAt(m, ns, |os| + 1) == step.0
  {
    hide StepModel;
  }

  lemma ShownAll(size: nat, ns: seq<Op>, os: seq<Observed>)
    requires Shown(Model(map[], size), ns, os) && |os| == |ns|
    ensures ReadsWrites(ns, os)
  {
    hide StepModel, ReadsWrites, RunModel;
    var m := Model(map[], size);
    RunModelAt(m, ns);
    assert os == RunModel(m, ns).1;
    RunReadsWrites(size, ns);
  }

  /** A run of any length from a new store through iniparser_set, iniparser_unset and
      iniparser_getstring: every query answers what was last written under a name that agrees with
      its own up to case. */
  method RunEntries(initial: nat, ops: seq<Op>) returns (d: Dictionary, os: seq<Observed>)
    requires forall i :: 0 <= i < |ops| ==> Nameable(ops[i])
    ensures d.Valid()
    ensures |os| == |ops| && ReadsWritesByName(ops, os)
  {
    hide ReadsWrites, ReadsWritesByName, Nameable, StepModel, Shown, StateAt, Normal;
    d := new Dictionary(initial);
    os := [];
    ghost var start := Model(d.Map(), d.size);
    ghost var ns := Normals(ops);
    NothingShown(start, ns);
    for i := 0 to |ops|
      invariant d.Valid() && fresh(d) && fresh(d.key) && fresh(d.val) && fresh(d.hash)
      invariant |os| == i && Shown(start, ns, os) && Model(d.Map(), d.size) == StateAt(start, ns, i)
    {
      ShownNext(start, ns, os);
      var o := PerformEntry(d, ops[i]);
      os := os + [o];
    }
    ShownAll(start.size, ns, os);
    ByName(ops, os);
  }
}
