/** What a load stores when growths of the store may fail. */
module PartialLoad {
  import opened Options
  import opened CStrings
  import opened LineGrammar
  import opened LoadSpec
  import opened DictionaryStore

  // A logical line and the number of the read that completed it.
  datatype Numbered = Numbered(text: string, read: nat)

  // The logical lines of a text up to its first physical line that does not fit.
  function LinesRead(pending: string, rest: string, lineno: nat): seq<Numbered>
    decreases |rest|
  {
    if rest == "" then []
    else
      var p := FirstLine(rest);
      var rest' := rest[|p|..];
      var t := TrimRight(pending + p);
      if Skipped(pending, p) then LinesRead(pending, rest', lineno + 1)
      else if TooLong(pending, p) then []
      else if Continues(t) then LinesRead(t[..|t| - 1], rest', lineno + 1)
      else [Numbered(t, lineno + 1)] + LinesRead("", rest', lineno + 1)
  }

  function Texts(ls: seq<Numbered>): seq<string> {
    if ls == [] then [] else [ls[0].text] + Texts(ls[1..])
  }

  lemma TextsCons(t: string, read: nat, ls: seq<Numbered>)
    ensures Texts([Numbered(t, read)] + ls) == [t] + Texts(ls)
  {
    assert ([Numbered(t, read)] + ls)[1..] == ls;
  }

  /** When every line fits, the lines read are the logical lines. */
  lemma {:induction false} LinesReadAreLogical(pending: string, rest: string, lineno: nat)
    ensures LogicalLines(pending, rest).Some? ==> LogicalLines(pending, rest).value == Texts(LinesRead(pending, rest, lineno))
    decreases |rest|
  {
    hide TrimRight, FirstLine, TooLong;
    if rest != "" {
      var p := FirstLine(rest);
      var rest' := rest[|p|..];
      var t := TrimRight(pending + p);
      if Skipped(pending, p) {
        LinesReadAreLogical(pending, rest', lineno + 1);
      } else if Continues(t) {
        LinesReadAreLogical(t[..|t| - 1], rest', lineno + 1);
      } else {
        LinesReadAreLogical("", rest', lineno + 1);
        TextsCons(t, lineno + 1, LinesRead("", rest', lineno + 1));
      }
    }
  }

  // The size of a store that started with `size` slots and has grown for n entries.
  function Capacity(size: nat, n: nat): (c: nat)
    requires size > 0
    ensures n <= c && size <= c
    decreases n - size
  {
    if n <= size then size else Capacity(2 * size, n)
  }

  lemma {:induction false} CapacityNext(size: nat, n: nat)
    requires size > 0
    ensures Capacity(size, n + 1) == if n == Capacity(size, n) then 2 * n else Capacity(size, n)
    decreases n - size
  {
    if n > size {
      CapacityNext(2 * size, n);
    }
  }

  // What the first j lines make of an accumulator.
  function AfterLines(a: Acc, ls: seq<Numbered>, j: nat): Acc
    requires j <= |ls|
  {
    FoldLines(a, Texts(ls[..j]))
  }

  // The i-th line assigns a new key when all slots are taken, and the growth fails.
  predicate Fails(a: Acc, size: nat, ls: seq<Numbered>, i: nat, memory: nat -> bool)
    requires size > 0 && i < |ls|
  {
    var a' := AfterLines(a, ls, i);
    Grows(a', Capacity(size, |a'.entries|), ls[i].text) && !memory(ls[i].read)
  }

  // The first failing line, or the number of lines.
  ghost predicate FirstFailure(a: Acc, size: nat, ls: seq<Numbered>, memory: nat -> bool, j: nat)
    requires size > 0
  {
    && j <= |ls|
    && (forall i :: 0 <= i < j ==> !Fails(a, size, ls, i, memory))
    && (j < |ls| ==> Fails(a, size, ls, j, memory))
  }

  lemma NothingFolded(a: Acc, ls: seq<Numbered>)
    ensures AfterLines(a, ls, 0) == a
  {
    assert ls[..0] == [];
  }

  lemma FoldCons(a: Acc, l: Numbered, ls: seq<Numbered>, i: nat)
    requires i <= |ls|
    ensures AfterLines(a, [l] + ls, i + 1) == AfterLines(Step(a, l.text), ls, i)
  {
    hide Step;
    assert ([l] + ls)[..i + 1] == [l] + ls[..i];
    TextsCons(l.text, l.read, ls[..i]);
    assert ([l.text] + Texts(ls[..i]))[1..] == Texts(ls[..i]);
  }

  lemma FailsHead(a: Acc, size: nat, ls: seq<Numbered>, memory: nat -> bool)
    requires size > 0 && ls != []
    ensures Fails(a, size, ls, 0, memory) <==>
            Grows(a, Capacity(size, |a.entries|), ls[0].text) && !memory(ls[0].read)
  {
    hide Grows, Capacity;
    NothingFolded(a, ls);
  }

  lemma FailsCons(a: Acc, size: nat, l: Numbered, ls: seq<Numbered>, i: nat, memory: nat -> bool)
    requires size > 0 && i < |ls|
    ensures Fails(a, size, [l] + ls, i + 1, memory) <==> Fails(Step(a, l.text), size, ls, i, memory)
  {
    hide Grows, Capacity, Step, AfterLines;
    FoldCons(a, l, ls, i);
  }

  lemma FirstFailureCons(a: Acc, size: nat, l: Numbered, ls: seq<Numbered>, memory: nat -> bool, j: nat)
    requires size > 0 && FirstFailure(Step(a, l.text), size, ls, memory, j) && !Fails(a, size, [l] + ls, 0, memory)
    ensures FirstFailure(a, size, [l] + ls, memory, j + 1)
  {
    hide Fails, Step;
    forall i | 0 < i < j + 1 ensures !Fails(a, size, [l] + ls, i, memory) {
      FailsCons(a, size, l, ls, i - 1, memory);
    }
    if j < |ls| {
      FailsCons(a, size, l, ls, j, memory);
    }
  }

  // A step that does not fail leaves the store as large as its entries need.
  lemma StepCapacity(a: Acc, size: nat, text: string)
    requires size > 0
    ensures var c := Capacity(size, |a.entries|);
            Capacity(size, |Step(a, text).entries|) == if Grows(a, c, text) then 2 * c else c
  {
    hide Meaning, Capacity;
    CapacityNext(size, |a.entries|);
    var p := Pair(a.section, Meaning(text, a.section));
    if p.Some? && p.value.0 in a.entries {
      assert Store(a.entries, p).Keys == a.entries.Keys;
    } else if p.Some? {
      assert Store(a.entries, p).Keys == a.entries.Keys + {p.value.0};
    }
  }

  // What a load that runs into the j-th of its lines amounts to.
  ghost function Outcome(a: Acc, pending: string, rest: string, ls: seq<Numbered>, j: nat): LoadResult
    requires j <= |ls|
  {
    if j == |ls| && LogicalLines(pending, rest).None? then Null else Finish(AfterLines(a, ls, j))
  }

  // Reading one more physical line, as the three functions see it.
  lemma OneRead(a: Acc, size: nat, pending: string, rest: string, lineno: nat, memory: nat -> bool)
    requires rest != ""
    ensures var p := FirstLine(rest);
            var rest' := rest[|p|..];
            var t := TrimRight(pending + p);
            var goal, ls, lines := LoadFrom(a, size, pending, rest, lineno, memory), LinesRead(pending, rest, lineno), LogicalLines(pending, rest);
            match EventOf(pending, rest)
            case Overflow => goal == Null && ls == [] && lines == None
            case Logical =>
              && ls == [Numbered(t, lineno + 1)] + LinesRead("", rest', lineno + 1)
              && (lines.None? <==> LogicalLines("", rest').None?)
              && goal == (if Grows(a, size, t) && !memory(lineno + 1) then Finish(a)
                          else LoadFrom(Step(a, t), if Grows(a, size, t) then 2 * size else size, "", rest', lineno + 1, memory))
            case _ =>
              var now := if Skipped(pending, p) then pending else t[..|t| - 1];
              && goal == LoadFrom(a, size, now, rest', lineno + 1, memory)
              && ls == LinesRead(now, rest', lineno + 1) && lines == LogicalLines(now, rest')
  {
    hide TrimRight, FirstLine, TooLong, Step, Grows;
  }

  // The load stops at the first failure, with what was read so far.
  lemma {:induction false} LoadStops(a: Acc, size: nat, pending: string, rest: string, lineno: nat, memory: nat -> bool)
    returns (j: nat)
    requires size > 0
    ensures FirstFailure(a, size, LinesRead(pending, rest, lineno), memory, j)
    ensures LoadFrom(a, Capacity(size, |a.entries|), pending, rest, lineno, memory) ==
            Outcome(a, pending, rest, LinesRead(pending, rest, lineno), j)
    decreases |rest|
  {
    hide TrimRight, FirstLine, TooLong, Capacity, Step, Grows, Fails, AfterLines;
    j := 0;
    NothingFolded(a, LinesRead(pending, rest, lineno));
    if rest != "" {
      OneRead(a, Capacity(size, |a.entries|), pending, rest, lineno, memory);
      hide LoadFrom, LinesRead, LogicalLines;
      var p := FirstLine(rest);
      var rest' := rest[|p|..];
      var t := TrimRight(pending + p);
      if Skipped(pending, p) {
        j := LoadStops(a, size, pending, rest', lineno + 1, memory);
      } else if TooLong(pending, p) {
      } else if Continues(t) {
        j := LoadStops(a, size, t[..|t| - 1], rest', lineno + 1, memory);
      } else {
        var i := LoadStops(Step(a, t), size, "", rest', lineno + 1, memory);
        j := LoadStopsAt(a, size, Numbered(t, lineno + 1), LinesRead("", rest', lineno + 1), memory, i);
        StepCapacity(a, size, t);
      }
    }
  }

  // The first failure, given the first failure behind a line.
  lemma LoadStopsAt(a: Acc, size: nat, l: Numbered, ls: seq<Numbered>, memory: nat -> bool, i: nat) returns (j: nat)
    requires size > 0 && FirstFailure(Step(a, l.text), size, ls, memory, i)
    ensures FirstFailure(a, size, [l] + ls, memory, j)
    ensures j == if Grows(a, Capacity(size, |a.entries|), l.text) && !memory(l.read) then 0 else i + 1
    ensures AfterLines(a, [l] + ls, j) == if j == 0 then a else AfterLines(Step(a, l.text), ls, i)
  {
    hide Capacity, Step, Grows, Fails, AfterLines;
    FailsHead(a, size, [l] + ls, memory);
    NothingFolded(a, [l] + ls);
    if Fails(a, size, [l] + ls, 0, memory) {
      j := 0;
    } else {
      j := i + 1;
      FirstFailureCons(a, size, l, ls, memory, i);
      FoldCons(a, l, ls, i);
    }
  }

  lemma FirstFailureUnique(a: Acc, size: nat, ls: seq<Numbered>, memory: nat -> bool, i: nat, j: nat)
    requires size > 0 && FirstFailure(a, size, ls, memory, i) && FirstFailure(a, size, ls, memory, j)
    ensures i == j
  {
    hide Fails;
  }

  /** Whatever growths fail, a load is the fold of the lines before the first one that needs a
      growth it does not get; without such a line it is the whole load. */
  lemma LoadUnderFailure(text: string, memory: nat -> bool, j: nat)
    requires FirstFailure(START, DICTMINSZ, LinesRead("", text, 0), memory, j)
    ensures var ls := LinesRead("", text, 0);
            LoadFrom(START, DICTMINSZ, "", text, 0, memory) ==
            if j == |ls| then LoadMeaning(text) else Finish(AfterLines(START, ls, j))
  {
    hide FirstFailure, LoadFrom, FoldLines, LinesRead, LogicalLines, Texts;
    var ls := LinesRead("", text, 0);
    var i := LoadStops(START, DICTMINSZ, "", text, 0, memory);
    FirstFailureUnique(START, DICTMINSZ, ls, memory, i, j);
    assert Capacity(DICTMINSZ, 0) == DICTMINSZ;
    LinesReadAreLogical("", text, 0);
    assert j <= |ls| by { FirstFailureWithin(START, DICTMINSZ, ls, memory, j); }
    assert ls[..|ls|] == ls;
  }

  lemma FirstFailureWithin(a: Acc, size: nat, ls: seq<Numbered>, memory: nat -> bool, j: nat)
    requires size > 0 && FirstFailure(a, size, ls, memory, j)
    ensures j <= |ls|
  {}

  lemma {:induction false} EntriesBound(a: Acc, lines: seq<string>)
    ensures |FoldLines(a, lines).entries| <= |a.entries| + |lines|
    decreases |lines|
  {
    hide Step;
    if lines != [] {
      StepBound(a, lines[0]);
      EntriesBound(Step(a, lines[0]), lines[1..]);
    }
  }

  lemma StepBound(a: Acc, text: string)
    ensures |Step(a, text).entries| <= |a.entries| + 1
  {
    hide Meaning;
    var p := Pair(a.section, Meaning(text, a.section));
    if p.Some? {
      assert Store(a.entries, p).Keys == a.entries.Keys + {p.value.0};
    }
  }

  lemma {:induction false} TextsLength(ls: seq<Numbered>)
    ensures |Texts(ls)| == |ls|
  {
    if ls != [] {
      TextsLength(ls[1..]);
    }
  }

  /** So a text of at most 128 logical lines never needs memory. */
  lemma SmallLoadNeedsNoMemory(text: string, memory: nat -> bool)
    requires |LinesRead("", text, 0)| <= DICTMINSZ
    ensures LoadFrom(START, DICTMINSZ, "", text, 0, memory) == LoadMeaning(text)
  {
    hide LoadFrom, FoldLines, LinesRead, LoadMeaning, Texts, Pair, Meaning;
    var ls := LinesRead("", text, 0);
    forall i | 0 <= i < |ls| ensures !Fails(START, DICTMINSZ, ls, i, memory) {
      EntriesBound(START, Texts(ls[..i]));
      TextsLength(ls[..i]);
    }
    LoadUnderFailure(text, memory, |ls|);
  }

  /** A failed growth loses the key it was for, and the store it leaves is full. */
  lemma FailedKeyIsMissing(text: string, memory: nat -> bool, j: nat)
    requires FirstFailure(START, DICTMINSZ, LinesRead("", text, 0), memory, j) && j < |LinesRead("", text, 0)|
    ensures var r, a := LoadFrom(START, DICTMINSZ, "", text, 0, memory), AfterLines(START, LinesRead("", text, 0), j);
            r.Loaded? ==>
              var key := Target(Pair(a.section, Meaning(LinesRead("", text, 0)[j].text, a.section)));
              key.Some? && key.value !in r.entries && |r.entries| == Capacity(DICTMINSZ, |r.entries|)
  {
    hide LoadFrom, FoldLines, LinesRead, LogicalLines, Texts, Capacity, Meaning, AfterLines, Pair, Target;
    LoadUnderFailure(text, memory, j);
  }
}
