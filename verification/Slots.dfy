/** The parallel arrays of a dictionary as values: `key`, `val` and `hash` slots with holes,
    and the map they stand for. */
module Slots {
  import opened Options
  import opened Hash

  type Keys = seq<Option<string>>
  type Vals = seq<Option<string>>
  type Entries = map<string, Option<string>>

  ghost predicate Distinct(ks: Keys) {
    forall i, j :: 0 <= i < j < |ks| && ks[i].Some? && ks[j].Some? ==> ks[i] != ks[j]
  }

  // The number of slots in use.
  function Occupied(ks: Keys): (n: nat)
    ensures n <= |ks|
  {
    if ks == [] then 0 else (if ks[0].Some? then 1 else 0) + Occupied(ks[1..])
  }

  ghost function SlotMap(ks: Keys, vs: Vals): (m: Entries)
    requires |ks| == |vs| && Distinct(ks)
    ensures forall i :: 0 <= i < |ks| && ks[i].Some? ==> ks[i].value in m && m[ks[i].value] == vs[i]
    ensures forall k :: k in m ==> Some(k) in ks
  {
    map i | 0 <= i < |ks| && ks[i].Some? :: ks[i].value := vs[i]
  }

  /** The invariant of a dictionary: n counts the occupied slots, keys are distinct, the cached
      hash of an occupied slot is the hash of its key, an empty slot has no value. */
  ghost predicate WellFormed(ks: Keys, vs: Vals, hs: seq<Word>, n: nat) {
    && |ks| == |vs| == |hs|
    && Distinct(ks)
    && n == Occupied(ks)
    && (forall i :: 0 <= i < |ks| && ks[i].Some? ==> hs[i] == HashOf(ks[i].value))
    && (forall i :: 0 <= i < |ks| && ks[i].None? ==> vs[i].None? && hs[i] == 0)
  }

  lemma {:induction false} OccupiedUpdate(ks: Keys, i: nat, x: Option<string>)
    requires i < |ks|
    ensures Occupied(ks[i := x]) + (if ks[i].Some? then 1 else 0) == Occupied(ks) + (if x.Some? then 1 else 0)
  {
    if i == 0 {
      assert ks[i := x][1..] == ks[1..];
    } else {
      assert ks[i := x][1..] == ks[1..][i - 1 := x];
      OccupiedUpdate(ks[1..], i - 1, x);
    }
  }

  lemma {:induction false} OccupiedAppend(a: Keys, b: Keys)
    ensures Occupied(a + b) == Occupied(a) + Occupied(b)
  {
    if a == [] {
      assert a + b == b;
    } else {
      assert (a + b)[1..] == a[1..] + b;
      OccupiedAppend(a[1..], b);
    }
  }

  lemma {:induction false} OccupiedFull(ks: Keys)
    ensures Occupied(ks) == |ks| <==> forall i :: 0 <= i < |ks| ==> ks[i].Some?
  {
    if ks != [] {
      OccupiedFull(ks[1..]);
      assert (forall i :: 0 <= i < |ks| ==> ks[i].Some?)
        ==> forall i :: 0 <= i < |ks[1..]| ==> ks[1..][i].Some?;
    }
  }

  lemma {:induction false} OccupiedNone(ks: Keys)
    requires forall i :: 0 <= i < |ks| ==> ks[i].None?
    ensures Occupied(ks) == 0
  {
    if ks != [] {
      OccupiedNone(ks[1..]);
    }
  }

  // Whether setting k needs a growth: k is new and every slot is taken.
  predicate SetGrows(m: Entries, size: nat, k: Option<string>) {
    k.Some? && k.value !in m && |m| == size
  }

  // A map with the right value for every occupied slot and no other key is the slots' map.
  lemma SlotMapIs(ks: Keys, vs: Vals, m: Entries)
    requires |ks| == |vs| && Distinct(ks)
    requires forall i :: 0 <= i < |ks| && ks[i].Some? ==> ks[i].value in m && m[ks[i].value] == vs[i]
    requires forall k :: k in m ==> Some(k) in ks
    ensures SlotMap(ks, vs) == m
  {
    var s := SlotMap(ks, vs);
    forall k | k in m ensures k in s && s[k] == m[k] {
      var i :| 0 <= i < |ks| && ks[i] == Some(k);
    }
    forall k | k in s ensures k in m {
      var i :| 0 <= i < |ks| && ks[i] == Some(k);
    }
  }

  lemma InSlotMap(ks: Keys, vs: Vals, k: string)
    requires |ks| == |vs| && Distinct(ks)
    ensures k in SlotMap(ks, vs) <==> Some(k) in ks
  {}

  lemma DistinctSlice(ks: Keys, i: nat)
    requires Distinct(ks) && i <= |ks|
    ensures Distinct(ks[i..])
  {}

  // The map of the slots, one slot at a time.
  lemma SlotMapCons(ks: Keys, vs: Vals)
    requires |ks| == |vs| > 0 && Distinct(ks)
    ensures Distinct(ks[1..])
    ensures ks[0].Some? ==> ks[0].value !in SlotMap(ks[1..], vs[1..])
    ensures SlotMap(ks, vs) == (var m := SlotMap(ks[1..], vs[1..]); if ks[0].Some? then m[ks[0].value := vs[0]] else m)
  {
    DistinctSlice(ks, 1);
    var m := SlotMap(ks[1..], vs[1..]);
    if ks[0].Some? {
      assert forall i :: 0 <= i < |ks[1..]| ==> ks[1..][i] == ks[i + 1] != ks[0];
      SlotMapIsCons(ks, vs, m[ks[0].value := vs[0]]);
    } else {
      SlotMapIsCons(ks, vs, m);
    }
  }

  lemma SlotMapIsCons(ks: Keys, vs: Vals, m: Entries)
    requires |ks| == |vs| > 0 && Distinct(ks) && Distinct(ks[1..])
    requires ks[0].Some? ==> ks[0].value in m && m[ks[0].value] == vs[0]
    requires forall k :: k in SlotMap(ks[1..], vs[1..]) && Some(k) != ks[0] ==>
               k in m && m[k] == SlotMap(ks[1..], vs[1..])[k]
    requires forall k :: k in m ==> Some(k) == ks[0] || k in SlotMap(ks[1..], vs[1..])
    ensures SlotMap(ks, vs) == m
  {
    forall i | 0 < i < |ks| && ks[i].Some? ensures ks[i].value in m && m[ks[i].value] == vs[i] {
      assert ks[1..][i - 1] == ks[i];
    }
    SlotMapIs(ks, vs, m);
  }

  /** n is also the number of entries of the map. */
  lemma {:induction false} OccupiedIsCardinality(ks: Keys, vs: Vals)
    requires |ks| == |vs| && Distinct(ks)
    ensures |SlotMap(ks, vs)| == Occupied(ks)
  {
    if ks == [] {
      assert SlotMap(ks, vs) == map[];
    } else {
      SlotMapCons(ks, vs);
      OccupiedIsCardinality(ks[1..], vs[1..]);
    }
  }

  // ----- The three updates -----

  lemma SlotMapReplace(ks: Keys, vs: Vals, i: nat, v: Option<string>)
    requires |ks| == |vs| && Distinct(ks)
    requires i < |ks| && ks[i].Some?
    ensures SlotMap(ks, vs[i := v]) == SlotMap(ks, vs)[ks[i].value := v]
  {
    SlotMapIs(ks, vs[i := v], SlotMap(ks, vs)[ks[i].value := v]);
  }

  lemma SlotMapInsert(ks: Keys, vs: Vals, i: nat, k: string, v: Option<string>)
    requires |ks| == |vs| && Distinct(ks)
    requires i < |ks| && ks[i].None? && Some(k) !in ks
    ensures Distinct(ks[i := Some(k)])
    ensures SlotMap(ks[i := Some(k)], vs[i := v]) == SlotMap(ks, vs)[k := v]
  {
    var ks' := ks[i := Some(k)];
    var m := SlotMap(ks, vs)[k := v];
    forall q | q in m ensures Some(q) in ks' {
      if q == k {
        assert ks'[i] == Some(k);
      } else {
        var j :| 0 <= j < |ks| && ks[j] == Some(q);
        assert ks'[j] == Some(q);
      }
    }
    SlotMapIs(ks', vs[i := v], m);
  }

  lemma SlotMapErase(ks: Keys, vs: Vals, i: nat)
    requires |ks| == |vs| && Distinct(ks)
    requires i < |ks| && ks[i].Some?
    ensures Distinct(ks[i := None])
    ensures SlotMap(ks[i := None], vs[i := None]) == SlotMap(ks, vs) - {ks[i].value}
  {
    var ks' := ks[i := None];
    var m := SlotMap(ks, vs) - {ks[i].value};
    forall q | q in m ensures Some(q) in ks' {
      var j :| 0 <= j < |ks| && ks[j] == Some(q);
      assert ks'[j] == Some(q);
    }
    SlotMapIs(ks', vs[i := None], m);
  }

  // Empty slots appended by a growth add nothing.
  lemma SlotMapGrow(ks: Keys, vs: Vals, ks': Keys, vs': Vals)
    requires |ks| == |vs| && Distinct(ks)
    requires |ks'| == |vs'| && ks <= ks' && vs <= vs'
    requires forall i :: |ks| <= i < |ks'| ==> ks'[i].None?
    ensures Distinct(ks') && Occupied(ks') == Occupied(ks)
    ensures SlotMap(ks', vs') == SlotMap(ks, vs)
  {
    assert ks' == ks + ks'[|ks|..];
    OccupiedAppend(ks, ks'[|ks|..]);
    OccupiedNone(ks'[|ks|..]);
    var m := SlotMap(ks, vs);
    forall q | q in m ensures Some(q) in ks' {
      var j :| 0 <= j < |ks| && ks[j] == Some(q);
      assert ks'[j] == Some(q);
    }
    SlotMapIs(ks', vs', m);
  }

  // ----- The invariant over the three updates -----

  lemma WellFormedReplace(ks: Keys, vs: Vals, hs: seq<Word>, n: nat, i: nat, v: Option<string>)
    requires WellFormed(ks, vs, hs, n) && i < |ks| && ks[i].Some?
    ensures WellFormed(ks, vs[i := v], hs, n)
  {
    hide HashOf, Occupied;
  }

  lemma WellFormedInsert(ks: Keys, vs: Vals, hs: seq<Word>, n: nat, i: nat, k: string, v: Option<string>, h: Word)
    requires WellFormed(ks, vs, hs, n) && i < |ks| && ks[i].None? && h == HashOf(k)
    requires k !in SlotMap(ks, vs)
    ensures WellFormed(ks[i := Some(k)], vs[i := v], hs[i := h], n + 1)
    ensures SlotMap(ks[i := Some(k)], vs[i := v]) == SlotMap(ks, vs)[k := v]
  {
    hide HashOf, Occupied, SlotMap;
    InSlotMap(ks, vs, k);
    OccupiedUpdate(ks, i, Some(k));
    SlotMapInsert(ks, vs, i, k, v);
  }

  lemma WellFormedErase(ks: Keys, vs: Vals, hs: seq<Word>, n: nat, i: nat)
    requires WellFormed(ks, vs, hs, n) && i < |ks| && ks[i].Some?
    ensures n > 0 && WellFormed(ks[i := None], vs[i := None], hs[i := 0], n - 1)
  {
    hide Occupied, SlotMap, HashOf;
    OccupiedUpdate(ks, i, None);
    DistinctErase(ks, i);
    var ks', vs', hs' := ks[i := None], vs[i := None], hs[i := 0];
    assert forall j :: 0 <= j < |ks| && j != i ==> ks'[j] == ks[j] && vs'[j] == vs[j] && hs'[j] == hs[j];
    hide Distinct;
  }

  lemma DistinctErase(ks: Keys, i: nat)
    requires Distinct(ks) && i < |ks|
    ensures Distinct(ks[i := None])
  {}

  lemma WellFormedGrow(ks: Keys, vs: Vals, hs: seq<Word>, n: nat, ks': Keys, vs': Vals, hs': seq<Word>)
    requires WellFormed(ks, vs, hs, n)
    requires |ks'| == |vs'| == |hs'| && ks <= ks' && vs <= vs' && hs <= hs'
    requires forall i :: |ks| <= i < |ks'| ==> ks'[i].None? && vs'[i].None? && hs'[i] == 0
    ensures WellFormed(ks', vs', hs', n)
    ensures SlotMap(ks', vs') == SlotMap(ks, vs)
  {
    hide HashOf, Occupied;
    SlotMapGrow(ks, vs, ks', vs');
  }

  // ----- The insertion probe -----

  // Steps from slot `from` forward to slot `to`, wrapping at `size`.
  function Distance(from: nat, to: nat, size: nat): nat
    requires from < size && to < size
  {
    if from <= to then to - from else to + size - from
  }

  // The first empty slot met when walking forward from slot n and wrapping at the end.
  ghost predicate FirstEmptyFrom(ks: Keys, n: nat, i: nat) {
    && n < |ks| && i < |ks| && ks[i].None?
    && if n <= i then forall j :: n <= j < i ==> ks[j].Some?
       else (forall j :: n <= j < |ks| ==> ks[j].Some?) && forall j :: 0 <= j < i ==> ks[j].Some?
  }

  // The slot after i, wrapping.
  function Next(i: nat, size: nat): nat
    requires i < size
  {
    if i + 1 == size then 0 else i + 1
  }

  lemma WalkOn(n: nat, i: nat, e: nat, size: nat)
    requires n < size && i < size && e < size && i != e
    requires Distance(n, i, size) <= Distance(n, e, size)
    ensures Distance(n, Next(i, size), size) == Distance(n, i, size) + 1 <= Distance(n, e, size)
    ensures Distance(Next(i, size), e, size) < Distance(i, e, size)
  {}

  lemma DistanceInjective(n: nat, i: nat, j: nat, size: nat)
    requires n < size && i < size && j < size && Distance(n, i, size) == Distance(n, j, size)
    ensures i == j
  {}

  // All slots before slot i, walking from slot n, are taken.
  ghost predicate TakenUpTo(ks: Keys, n: nat, i: nat)
    requires n < |ks| && i < |ks|
  {
    forall j :: 0 <= j < |ks| && Distance(n, j, |ks|) < Distance(n, i, |ks|) ==> ks[j].Some?
  }

  lemma NothingBefore(ks: Keys, n: nat)
    requires n < |ks|
    ensures TakenUpTo(ks, n, n) && Distance(n, n, |ks|) == 0
  {}

  lemma TakenNext(ks: Keys, n: nat, i: nat, e: nat)
    requires n < |ks| && i < |ks| && e < |ks| && i != e && Distance(n, i, |ks|) <= Distance(n, e, |ks|)
    requires TakenUpTo(ks, n, i) && ks[i].Some?
    ensures TakenUpTo(ks, n, Next(i, |ks|))
  {
    WalkOn(n, i, e, |ks|);
    hide Distance;
    forall j | 0 <= j < |ks| && Distance(n, j, |ks|) == Distance(n, i, |ks|) ensures ks[j].Some? {
      DistanceInjective(n, i, j, |ks|);
    }
  }

  lemma TakenIsWalked(ks: Keys, n: nat, i: nat)
    requires n < |ks| && i < |ks| && ks[i].None? && TakenUpTo(ks, n, i)
    ensures FirstEmptyFrom(ks, n, i)
  {
    forall j | n <= j < |ks| && (n > i || j < i) ensures ks[j].Some? {
      assert Distance(n, j, |ks|) < Distance(n, i, |ks|);
    }
    forall j | n > i && 0 <= j < i ensures ks[j].Some? {
      assert Distance(n, j, |ks|) < Distance(n, i, |ks|);
    }
  }

  lemma EmptyAtStart(ks: Keys, n: nat, i: nat)
    requires FirstEmptyFrom(ks, n, i) && ks[n].None?
    ensures i == n
  {}

  lemma FirstEmptyUnique(ks: Keys, n: nat, i: nat, j: nat)
    requires FirstEmptyFrom(ks, n, i) && FirstEmptyFrom(ks, n, j)
    ensures i == j
  {
    assert ks[i].None? && ks[j].None?;
  }
}
