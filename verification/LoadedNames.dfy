/** What the sections and the entries of a loaded dictionary look like. */
module LoadedNames {
  import opened CStrings
  import opened Scanf
  import opened Slots
  import opened LineGrammar
  import opened LoadSpec

  // ----- Logical lines -----

  predicate OneLineText(s: string) { '\n' !in s }

  // A text without newlines that the line buffer holds.
  predicate Fits(s: string) { OneLineText(s) && |s| <= ASCIILINESZ - 2 }

  lemma {:induction false} LogicalLinesFit(pending: string, rest: string)
    requires OneLineText(pending) && LogicalLines(pending, rest).Some?
    ensures forall t :: t in LogicalLines(pending, rest).value ==> Fits(t)
    decreases |rest|
  {
    hide TooLong, FirstLine, TrimRight;
    if rest != "" {
      var p := FirstLine(rest);
      var rest' := rest[|p|..];
      var t := TrimRight(pending + p);
      TrimmedIsOneLine(pending, rest);
      PendingFits(pending, rest);
      if Skipped(pending, p) {
        LogicalLinesFit(pending, rest');
      } else if Continues(t) {
        LogicalLinesFit(t[..|t| - 1], rest');
      } else {
        LogicalLinesFit("", rest');
      }
    }
  }

  lemma TrimmedIsOneLine(pending: string, rest: string)
    requires OneLineText(pending)
    ensures var t := TrimRight(pending + FirstLine(rest));
            OneLineText(t) && (t != "" ==> OneLineText(t[..|t| - 1]))
  {
    hide TrimRight, FirstLine;
    var p := FirstLine(rest);
    var s := pending + p;
    var t := TrimRight(s);
    TrimRightDrops(s);
    FirstLineShape(rest);
    forall i | 0 <= i < |t| ensures t[i] != '\n' {
      if i < |pending| {
        assert t[i] == pending[i] && pending[i] in pending;
      } else if i < |s| - 1 {
        assert t[i] == p[i - |pending|];
      } else {
        assert !IsSpace(t[i]);
      }
    }
  }

  // ----- One line -----

  // A name a section can have during a load: lower-case, without ']', on one line, shorter than
  // the longest line.
  predicate SectionLike(s: string) {
    Lower(s) == s && ']' !in s && OneLineText(s) && |s| < ASCIILINESZ - 2
  }

  lemma HeaderLike(l: string, section: string)
    requires |l| >= 2 && Fits(l) && SectionLike(section)
    ensures SectionLike(Header(l, section))
  {
    hide Strip, Lower, RunExcept;
    if l[1] == ']' {
      var cut := Take(Strip(section), |l| - 1);
      StripWithin(section);
      assert forall c :: c in cut ==> c in section;
      LowerLike(cut);
    } else {
      var inner := l[1..1 + RunExcept(l[1..], {']'})];
      UntilBracket(l[1..]);
      assert inner == l[1..][..RunExcept(l[1..], {']'})];
      StripWithin(inner);
      assert forall c :: c in Strip(inner) ==> c in inner;
      assert forall c :: c in inner ==> c in l;
      LowerLike(Strip(inner));
    }
  }

  lemma UntilBracket(s: string)
    ensures ']' !in s[..RunExcept(s, {']'})]
  {}

  lemma LowerLike(s: string)
    requires ']' !in s && OneLineText(s) && |s| < ASCIILINESZ - 2
    ensures SectionLike(Lower(s))
  {
    LowerKeeps(s, ']');
    LowerKeeps(s, '\n');
    LowerIdempotent(s);
  }

  lemma ValueWithin(rest: string)
    requires OneLineText(rest)
    ensures OneLineText(ValueOf(rest))
  {
    hide Strip, RunExcept;
    StripWithin(rest[..RunExcept(rest, {';', '#'})]);
  }

  // What a line makes of a section and a value.
  lemma MeaningLike(text: string, section: string)
    requires Fits(text) && SectionLike(section)
    ensures var m := Meaning(text, section);
            && (m.Section? ==> SectionLike(m.name))
            && (m.KeyValue? ==> OneLineText(m.value))
  {
    hide Strip, Lower, Header, SectionLike, ValueOf, ValuePart, TrimLeft, RunExcept;
    var l := Strip(text);
    StripWithin(text);
    assert Fits(l);
    if Meaning(text, section).KeyValue? {
      AssignmentValue(l);
      PartWithin(l);
      ValueWithin(ValuePart(l));
    } else if |l| >= 2 {
      HeaderLike(l, section);
    }
  }

  lemma PartWithin(l: string)
    ensures forall c :: c in ValuePart(l) ==> c in l
  {
    hide RunExcept;
    var e := RunExcept(l, {'='});
    if e < |l| {
      var rest := l[e + 1..];
      assert TrimLeft(rest) == rest[|rest| - |TrimLeft(rest)|..];
      hide TrimLeft;
    }
  }

  // ----- Whole loads -----

  ghost predicate OneLineValues(e: Entries) {
    forall k :: k in e && e[k].Some? ==> OneLineText(e[k].value)
  }

  // Plain keys are possible sections, and values are on one line.
  ghost predicate Loadable(a: Acc) {
    && SectionLike(a.section) && OneLineValues(a.entries)
    && forall k :: k in a.entries && ':' !in k ==> SectionLike(k)
  }

  lemma StepKeepsLoadable(a: Acc, text: string)
    requires Loadable(a) && Fits(text)
    ensures Loadable(Step(a, text))
  {
    hide Meaning, OneLineText, SectionLike;
    MeaningLike(text, a.section);
    var m := Meaning(text, a.section);
    if m.KeyValue? {
      assert (a.section + ":" + m.key)[|a.section|] == ':';
    }
  }

  lemma {:induction false} FoldKeepsLoadable(a: Acc, lines: seq<string>)
    requires Loadable(a) && forall t :: t in lines ==> Fits(t)
    ensures Loadable(FoldLines(a, lines))
    decreases |lines|
  {
    hide Loadable, Fits, Step;
    if lines != [] {
      StepKeepsLoadable(a, lines[0]);
      FoldKeepsLoadable(Step(a, lines[0]), lines[1..]);
    }
  }

  lemma StartLoadable()
    ensures Loadable(START)
  {}

  /** Wherever a load is, its section is lower-case, free of ']' and newlines and at most 1021
      characters long. */
  lemma SectionsDuringLoad(text: string, i: nat)
    requires LogicalLines("", text).Some? && i <= |LogicalLines("", text).value|
    ensures SectionLike(FoldLines(START, LogicalLines("", text).value[..i]).section)
  {
    hide FoldLines, LogicalLines, Fits;
    LogicalLinesFit("", text);
    StartLoadable();
    FoldKeepsLoadable(START, LogicalLines("", text).value[..i]);
  }

  /** No loaded value contains a newline, and every loaded key without a colon is such a section. */
  lemma LoadedEntriesLike(text: string)
    requires LoadMeaning(text).Loaded?
    ensures var e := LoadMeaning(text).entries;
            OneLineValues(e) && forall k :: k in e && ':' !in k ==> SectionLike(k)
  {
    hide FoldLines, LogicalLines, Fits;
    LogicalLinesFit("", text);
    StartLoadable();
    FoldKeepsLoadable(START, LogicalLines("", text).value);
  }
}
