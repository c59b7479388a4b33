/** Consequences of the meaning of a load. */
module LoadFacts {
  import opened Options
  import opened CStrings
  import opened Scanf
  import opened Slots
  import opened LineGrammar
  import opened LoadSpec
  import opened IniEntries

  // ----- When a load fails -----

  lemma {:induction false} ErrorsCounted(a: Acc, lines: seq<string>)
    ensures FoldLines(a, lines).errs > 0 <==> a.errs > 0 || exists i :: 0 <= i < |lines| && BadLine(lines[i])
    decreases |lines|
  {
    hide Meaning, BadLine;
    if lines != [] {
      StatusIff(lines[0], a.section);
      ErrorsCounted(Step(a, lines[0]), lines[1..]);
      if exists i :: 0 <= i < |lines[1..]| && BadLine(lines[1..][i]) {
        var i :| 0 <= i < |lines[1..]| && BadLine(lines[1..][i]);
        assert BadLine(lines[i + 1]);
      }
      if exists i :: 1 <= i < |lines| && BadLine(lines[i]) {
        var i :| 1 <= i < |lines| && BadLine(lines[i]);
        assert BadLine(lines[1..][i - 1]);
      }
    }
  }

  /** A load fails exactly when some physical line does not fit the buffer or some logical line
      is not blank, a comment or a header and has nothing before its first '='. */
  lemma LoadFailsIff(text: string)
    ensures LoadMeaning(text) == Null <==>
            LogicalLines("", text).None? ||
            exists i :: 0 <= i < |LogicalLines("", text).value| && BadLine(LogicalLines("", text).value[i])
  {
    hide BadLine, FoldLines, LogicalLines;
    var lines := LogicalLines("", text);
    if lines.Some? {
      ErrorsCounted(START, lines.value);
    }
  }

  // ----- What a load stores -----

  ghost predicate LowerKeys(e: Entries) {
    forall k :: k in e ==> Lower(k) == k
  }

  lemma HeaderIsLower(text: string, section: string)
    requires Meaning(text, section).Section?
    ensures Lower(Meaning(text, section).name) == Meaning(text, section).name
  {
    hide Strip, Lower;
    var l := Strip(text);
    if |l| >= 2 {
      LowerIdempotent(Take(Strip(section), |l| - 1));
      LowerIdempotent(Strip(l[1..1 + RunExcept(l[1..], {']'})]));
    }
  }

  // What a line assigns in a lower-case section is lower-case.
  lemma MeaningIsLower(text: string, section: string)
    requires Lower(section) == section
    ensures var m := Meaning(text, section);
            && (m.Section? ==> Lower(m.name) == m.name)
            && (m.KeyValue? ==> Lower(section + ":" + m.key) == section + ":" + m.key)
  {
    hide Meaning, Lower;
    var m := Meaning(text, section);
    if m.Section? {
      HeaderIsLower(text, section);
    } else if m.KeyValue? {
      KeyShape(text, section);
      LowerColon();
      LowerAppend(section + ":", m.key);
      LowerAppend(section, ":");
    }
  }

  lemma StepKeepsLower(a: Acc, text: string)
    requires LowerKeys(a.entries) && Lower(a.section) == a.section
    ensures LowerKeys(Step(a, text).entries) && Lower(Step(a, text).section) == Step(a, text).section
  {
    hide Meaning, Lower;
    MeaningIsLower(text, a.section);
  }

  lemma LowerColon()
    ensures Lower(":") == ":"
  {}

  lemma {:induction false} FoldKeepsLower(a: Acc, lines: seq<string>)
    requires LowerKeys(a.entries) && Lower(a.section) == a.section
    ensures LowerKeys(FoldLines(a, lines).entries)
    decreases |lines|
  {
    hide LowerKeys, Lower, Step;
    if lines != [] {
      StepKeepsLower(a, lines[0]);
      FoldKeepsLower(Step(a, lines[0]), lines[1..]);
    }
  }

  /** No key of a loaded dictionary holds an upper-case letter, so the query interface reaches an entry
      exactly when its key has at most 1024 characters. */
  lemma LoadedEntriesReachable(text: string, k: string)
    requires LoadMeaning(text).Loaded? && k in LoadMeaning(text).entries
    ensures forall i :: 0 <= i < |k| ==> !('A' <= k[i] <= 'Z')
    ensures (exists name :: NormalForm(name) == k) <==> |k| <= 1024
  {
    LowerIff(k);
    hide FoldLines, LogicalLines, Lower;
    assert Lower("") == "" by { LowerEmpty(); }
    FoldKeepsLower(START, LogicalLines("", text).value);
    ReachableIff(k);
  }

  lemma LowerEmpty()
    ensures Lower("") == ""
  {}

  // ----- The last assignment wins -----

  // Every assignment the lines make, in order.
  function Assignments(section: string, lines: seq<string>): seq<(string, Option<string>)>
    decreases |lines|
  {
    if lines == [] then []
    else
      var m := Meaning(lines[0], section);
      var p := Pair(section, m);
      (if p.Some? then [p.value] else []) + Assignments(if m.Section? then m.name else section, lines[1..])
  }

  // The value of the last assignment to k, if there is one.
  function LastFor(k: string, ps: seq<(string, Option<string>)>): Option<Option<string>>
    decreases |ps|
  {
    if ps == [] then None
    else if ps[|ps| - 1].0 == k then Some(ps[|ps| - 1].1)
    else LastFor(k, ps[..|ps| - 1])
  }

  lemma {:induction false} LastForCons(k: string, p: (string, Option<string>), ps: seq<(string, Option<string>)>)
    ensures LastFor(k, [p] + ps) == if LastFor(k, ps).Some? then LastFor(k, ps) else if p.0 == k then Some(p.1) else None
    decreases |ps|
  {
    var n := |ps|;
    if n == 0 {
      assert ([p] + ps)[..0] == [];
      assert [p] + ps == [p];
    } else {
      assert ([p] + ps)[..n] == [p] + ps[..n - 1];
      LastForCons(k, p, ps[..n - 1]);
    }
  }

  /** The map of a load holds, for every key, the value of the last line that assigns it, and no
      other key. */
  lemma {:induction false} LastAssignmentWins(a: Acc, lines: seq<string>, k: string)
    ensures var last := LastFor(k, Assignments(a.section, lines));
            var e := FoldLines(a, lines).entries;
            if last.Some? then k in e && e[k] == last.value
            else (k in e <==> k in a.entries) && (k in e ==> e[k] == a.entries[k])
    decreases |lines|
  {
    hide Meaning;
    if lines != [] {
      var m := Meaning(lines[0], a.section);
      var a' := Step(a, lines[0]);
      var p := Pair(a.section, m);
      var rest := Assignments(a'.section, lines[1..]);
      LastAssignmentWins(a', lines[1..], k);
      if p.Some? {
        LastForCons(k, p.value, rest);
      } else {
        assert [] + rest == rest;
      }
    }
  }

  // ----- The end of the file -----

  lemma NothingLeft(pending: string)
    ensures LogicalLines(pending, "") == Some([])
  {}

  /** The last physical line, with or without a newline, behind whatever is pending: it is dropped
      when it is one character with nothing pending, or when it ends in a backslash, together with
      what was pending; otherwise it completes a logical line. */
  lemma LastLineIff(pending: string, p: string)
    requires p != "" && FirstLine(p) == p && !TooLong(pending, p)
    ensures var t := TrimRight(pending + p);
            LogicalLines(pending, p) == Some(if Skipped(pending, p) || Continues(t) then [] else [t])
  {
    hide TrimRight, FirstLine, TooLong, LogicalLines;
    var t := TrimRight(pending + p);
    NothingLeft("");
    NothingLeft(pending);
    if Continues(t) {
      NothingLeft(t[..|t| - 1]);
    }
    assert [t] + [] == [t];
    LastStep(pending, p, t);
  }

  lemma LastStep(pending: string, p: string, t: string)
    requires p != "" && FirstLine(p) == p && !TooLong(pending, p) && t == TrimRight(pending + p)
    ensures Skipped(pending, p) ==> LogicalLines(pending, p) == LogicalLines(pending, "")
    ensures !Skipped(pending, p) && Continues(t) ==> LogicalLines(pending, p) == LogicalLines(t[..|t| - 1], "")
    ensures !Skipped(pending, p) && !Continues(t) ==>
              LogicalLines(pending, p) == (var tail := LogicalLines("", ""); if tail.None? then None else Some([t] + tail.value))
  {
    hide TrimRight, FirstLine, TooLong;
    assert p[|p|..] == "";
  }

  lemma ContinuedLine(w: string)
    requires '\n' !in w
    ensures FirstLine(w + "\\\n") == w + "\\\n" && EndsLine(w + "\\\n")
    ensures TrimRight(w + "\\\n") == w + "\\"
  {
    hide TrimRight;
    var p, n := w + "\\\n", |w| + 1;
    assert forall i :: 0 <= i < |w| ==> p[i] == w[i] && w[i] in w;
    RunExceptIs(p, {'\n'}, n);
    assert p[..n] == w + "\\";
    TrimRightAt(p, n);
  }

  /** A file that ends in a continued line loses that line. */
  lemma ContinuedLastLineIsLost(w: string)
    requires '\n' !in w && |w| <= ASCIILINESZ - 3
    ensures LogicalLines("", w + "\\\n") == Some([])
  {
    hide LogicalLines, TrimRight, FirstLine, EndsLine;
    var p := w + "\\\n";
    ContinuedLine(w);
    assert "" + p == p;
    LastLineIff("", p);
  }

  /** A last line of one character is lost. */
  lemma OneCharacterLastLineIsLost(c: char)
    ensures LogicalLines("", [c]) == Some([])
  {
    hide LogicalLines, TrimRight;
    var p := [c];
    assert FirstLine(p) == p by {
      if c == '\n' { RunExceptIs(p, {'\n'}, 0); } else { RunExceptIs(p, {'\n'}, 1); }
      assert p[..1] == p;
    }
    LastLineIff("", p);
  }
}
