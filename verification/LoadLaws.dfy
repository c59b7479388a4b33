/** Laws of a load over the text of a file: which lines fit, what a continuation means, how files
    compose, and that comments change nothing. */
module LoadLaws {
  import opened Options
  import opened CStrings
  import opened Scanf
  import opened LineGrammar
  import opened LoadSpec
  import opened LoadFacts
  import opened LineReads
  import opened RoundTrip

  // ----- Lines that fit -----

  lemma WholeLine(w: string)
    requires '\n' !in w
    ensures FirstLine(w) == w && !EndsLine(w)
    ensures FirstLine(w + "\n") == w + "\n" && EndsLine(w + "\n")
  {
    RunExceptIs(w, {'\n'}, |w|);
    assert w != "" ==> w[|w| - 1] in w;
    OneLine(w, "");
    assert w + "\n" + "" == w + "\n";
  }

  lemma OverflowIs(p: string)
    requires p != "" && FirstLine(p) == p
    ensures LogicalLines("", p).None? <==> !Skipped("", p) && TooLong("", p)
  {
    hide FirstLine, TooLong, TrimRight;
    if !TooLong("", p) {
      LastLineIff("", p);
    }
  }

  /** A line fits exactly when it has at most 1022 characters, with or without its newline. */
  lemma LineFitsIff(w: string)
    requires '\n' !in w
    ensures LogicalLines("", w).None? <==> |w| >= 1023
    ensures LogicalLines("", w + "\n").None? <==> |w| >= 1023
  {
    hide FirstLine, LogicalLines;
    WholeLine(w);
    if w == "" {
      NothingLeft("");
    } else {
      OverflowIs(w);
    }
    OverflowIs(w + "\n");
  }

  // ----- Composition -----

  // What is pending at the end of a text.
  function LeftPending(pending: string, rest: string): string
    decreases |rest|
  {
    if rest == "" then pending
    else
      var p := FirstLine(rest);
      var rest' := rest[|p|..];
      var t := TrimRight(pending + p);
      if Skipped(pending, p) then LeftPending(pending, rest')
      else if TooLong(pending, p) then ""
      else if Continues(t) then LeftPending(t[..|t| - 1], rest')
      else LeftPending("", rest')
  }

  // A text of whole lines.
  predicate WholeLines(x: string) { x == "" || EndsLine(x) }

  lemma FirstLineAppend(x: string, y: string)
    requires EndsLine(x)
    ensures var p := FirstLine(x);
            FirstLine(x + y) == p && (x + y)[|p|..] == x[|p|..] + y && WholeLines(x[|p|..])
  {
    var n := RunExcept(x, {'\n'});
    assert n < |x| && x[n] == '\n';
    assert forall i :: 0 <= i < n ==> (x + y)[i] == x[i];
    RunExceptIs(x + y, {'\n'}, n);
    assert (x + y)[..n + 1] == x[..n + 1];
  }

  // Lines, and more lines behind them when they all fit.
  function Followed(lines: Option<seq<string>>, more: Option<seq<string>>): Option<seq<string>> {
    if lines.None? then None else Prepend(lines.value, more)
  }

  lemma FollowedCons(t: string, lines: Option<seq<string>>, more: Option<seq<string>>)
    ensures Followed(if lines.None? then None else Some([t] + lines.value), more) ==
            (if Followed(lines, more).None? then None else Some([t] + Followed(lines, more).value))
  {
    if lines.Some? && more.Some? {
      assert [t] + lines.value + more.value == [t] + (lines.value + more.value);
    }
  }

  /** Files compose: the lines of whole lines x followed by y are those of x, and then those of y
      read behind what x leaves pending. */
  lemma {:induction false} LinesCompose(pending: string, x: string, y: string)
    requires WholeLines(x)
    ensures LogicalLines(pending, x + y) ==
            Followed(LogicalLines(pending, x), LogicalLines(LeftPending(pending, x), y))
    decreases |x|
  {
    hide TrimRight, FirstLine, TooLong, Followed, Continues;
    if x == "" {
      assert x + y == y;
      NothingLeft(pending);
      NothingFirst(LogicalLines(pending, y));
    } else {
      FirstLineAppend(x, y);
      var p := FirstLine(x);
      var x' := x[|p|..];
      var t := TrimRight(pending + p);
      hide EndsLine;
      if Skipped(pending, p) {
        LinesCompose(pending, x', y);
      } else if TooLong(pending, p) {
        OverflowFirst(LogicalLines(LeftPending(pending, x), y));
      } else if Continues(t) {
        assert t != "" by { ContinuesSome(t); }
        LinesCompose(t[..|t| - 1], x', y);
      } else {
        LinesCompose("", x', y);
        FollowedCons(t, LogicalLines("", x'), LogicalLines(LeftPending("", x'), y));
      }
    }
  }

  lemma ContinuesSome(t: string)
    requires Continues(t)
    ensures t != ""
  {}

  lemma NothingFirst(more: Option<seq<string>>)
    ensures Followed(Some([]), more) == more
  {
    PrependTwice([], [], more);
  }

  lemma OverflowFirst(more: Option<seq<string>>)
    ensures Followed(None, more) == None
  {}

  // ----- Continuations -----

  lemma JoinOne(w: string, s: string)
    requires '\n' !in w && |w| + 2 < 1024
    ensures LogicalLines("", w + "\\\n" + s) == LogicalLines(w, s)
  {
    hide TrimRight, FirstLine;
    ContinuedLine(w);
    assert w + "\\" + "\n" == w + "\\\n";
    OneLine(w + "\\", s);
    assert "" + (w + "\\\n") == w + "\\\n";
    assert (w + "\\")[..|w|] == w;
  }

  lemma PendingIsPrefix(w: string, x: string, rest: string)
    requires '\n' !in w && '\n' !in x
    ensures LogicalLines(w, x + "\n" + rest) == LogicalLines("", w + x + "\n" + rest)
  {
    if w == "" {
      assert w + x == x;
    } else {
      hide TrimRight, FirstLine;
      OneLine(x, rest);
      OneLine(w + x, rest);
      WholeLine(x);
      WholeLine(w + x);
      assert "" + (w + x + "\n") == w + (x + "\n");
      SamePhysical(w, x, rest);
    }
  }

  lemma SamePhysical(w: string, x: string, rest: string)
    requires w != ""
    requires FirstLine(x + "\n" + rest) == x + "\n" && (x + "\n" + rest)[|x| + 1..] == rest
    requires FirstLine(w + x + "\n" + rest) == w + x + "\n" && (w + x + "\n" + rest)[|w + x| + 1..] == rest
    requires EndsLine(x + "\n") && EndsLine(w + x + "\n") && "" + (w + x + "\n") == w + (x + "\n")
    ensures LogicalLines(w, x + "\n" + rest) == LogicalLines("", w + x + "\n" + rest)
  {
    hide TrimRight, FirstLine, EndsLine;
    assert |x + "\n"| == |x| + 1 && |w + x + "\n"| == |w + x| + 1;
  }

  /** A backslash at the end of a line and the newline behind it vanish. */
  lemma BackslashNewlineVanishes(before: string, w: string, x: string, after: string)
    requires WholeLines(before) && LeftPending("", before) == ""
    requires '\n' !in w && '\n' !in x && |w| + 2 < 1024
    ensures LoadMeaning(before + (w + "\\\n" + (x + "\n" + after))) == LoadMeaning(before + (w + x + "\n" + after))
  {
    hide LogicalLines, LeftPending, FoldLines;
    LinesCompose("", before, w + "\\\n" + (x + "\n" + after));
    LinesCompose("", before, w + x + "\n" + after);
    JoinOne(w, x + "\n" + after);
    PendingIsPrefix(w, x, after);
  }

  // ----- Comments -----

  lemma TrimmedLineMeans(c: string)
    ensures Strip(TrimRight(c + "\n")) == Strip(c)
  {
    hide Strip, TrimRight, AllSpace;
    var a, b := StripSplit(c);
    var r := Strip(c);
    StripIsTrimmed(c);
    NewlineBlank(a, b, r);
    assert c + "\n" == a + r + (b + "\n");
    if r == "" {
      assert c + "\n" == a + (b + "\n");
      TrimRightAt(c + "\n", 0);
      StripTrimmed("");
    } else {
      TrimRightAt(c + "\n", |a + r|);
      assert a + r + "" == a + r;
      StripUnique(a, r, "");
    }
  }

  lemma NewlineBlank(a: string, b: string, r: string)
    requires AllSpace(a) && AllSpace(b)
    ensures AllSpace("") && AllSpace(b + "\n") && AllSpace(a + (b + "\n"))
    ensures r != "" ==> (a + r + (b + "\n"))[|a + r|..] == b + "\n" && (a + r)[|a + r| - 1] == r[|r| - 1]
    ensures r != "" ==> (a + r + (b + "\n"))[..|a + r|] == a + r
    ensures (a + r + (b + "\n"))[0..] == a + r + (b + "\n")
  {}

  lemma NoteStep(a: Acc, t: string)
    requires AllSpace(t) || CommentLine(t)
    ensures Step(a, t) == a
  {
    StatusIff(t, a.section);
    hide Meaning;
  }

  // Physical line c, if it is read on its own, changes nothing.
  predicate Note(c: string) {
    '\n' !in c && |c| + 1 < 1024 && (Strip(c) == "" || Strip(c)[0] in {'#', ';'}) && !Continues(TrimRight(c + "\n"))
  }

  lemma NoteThen(c: string, y: string) returns (notes: seq<string>)
    requires Note(c)
    ensures LogicalLines("", c + "\n" + y) == Prepend(notes, LogicalLines("", y))
    ensures forall a: Acc :: FoldLines(a, notes) == a
  {
    hide LogicalLines, TrimRight, Strip, Continues, Meaning;
    if c == "" {
      notes := [];
      assert "" + "\n" == "\n";
      BlankThen(y);
      PrependTwice([], [], LogicalLines("", y));
    } else {
      var t := TrimRight(c + "\n");
      notes := [t];
      LineThen(c, y);
      TrimmedLineMeans(c);
      StripEmpty(t);
      assert [t][1..] == [];
      forall a: Acc ensures FoldLines(a, notes) == a {
        NoteStep(a, t);
        hide Step;
        assert FoldLines(Step(a, t), [t][1..]) == Step(a, t);
      }
    }
  }

  lemma FoldAround(a: Acc, x: seq<string>, notes: seq<string>, y: seq<string>)
    requires forall b: Acc :: FoldLines(b, notes) == b
    ensures FoldLines(a, x + (notes + y)) == FoldLines(a, x + y)
  {
    hide FoldLines;
    FoldAppend(a, x, notes + y);
    FoldAppend(FoldLines(a, x), notes, y);
    FoldAppend(a, x, y);
  }

  /** Comment and blank lines change nothing, wherever they stand in a file. */
  lemma NotesChangeNothing(x: string, c: string, y: string)
    requires WholeLines(x) && LeftPending("", x) == "" && Note(c)
    ensures LoadMeaning(x + (c + "\n" + y)) == LoadMeaning(x + y)
  {
    hide LogicalLines, LeftPending, FoldLines, Note, WholeLines;
    var notes := NoteThen(c, y);
    LinesCompose("", x, c + "\n" + y);
    LinesCompose("", x, y);
    var lx, ly := LogicalLines("", x), LogicalLines("", y);
    if lx.Some? && ly.Some? {
      FoldAround(START, lx.value, notes, ly.value);
    }
  }

  // ----- A file -----

  lemma EndOfText(t: string)
    requires t != "" && !IsSpace(t[|t| - 1])
    ensures TrimRight(t + "\n") == t
  {
    TrimRightAt(t + "\n", |t|);
  }

  lemma PairMeans()
    ensures Meaning("Addr = x ; here", "server") == KeyValue("addr", "x")
  {
    hide Meaning, ValueOf;
    assert "x" + " " + "; here" == "x ; here";
    PlainValueReads("x", " ", "; here");
    PairReads("", "Addr", " ", " ", "x ; here", "", "server");
    assert "" + "Addr" + " " + "=" + " " + "x ; here" + "" == "Addr = x ; here";
    assert Lower("Addr") == "addr";
  }

  lemma HeaderMeans()
    ensures Meaning("[Server]", "") == Section("server")
  {
    hide Meaning, Strip;
    StripTrimmed("[Server]");
    StripTrimmed("Server");
    assert "[" + "Server" + "]" + "" == "[Server]";
    HeaderShape("[Server]", "", "Server", "");
    assert Lower("Server") == "server";
  }

  lemma LastLine(t: string)
    requires '\n' !in t && |t| < 1000 && t != "" && !IsSpace(t[|t| - 1]) && !Continues(t)
    ensures LogicalLines("", t + "\n") == Some([t])
  {
    hide LogicalLines, TrimRight;
    EndOfText(t);
    LineThen(t, "");
    assert t + "\n" + "" == t + "\n";
    NothingLeft("");
    assert [t] + [] == [t];
  }

  /** A comment, a header and a pair in mixed case, with a comment behind the value. */
  lemma ExampleFile()
    ensures LoadMeaning("# note\n[Server]\nAddr = x ; here\n") ==
            Loaded(map["server" := None, "server:addr" := Some("x")])
  {
    hide LogicalLines, Meaning, TrimRight, Strip, LoadMeaning, Continues;
    var h, p := "[Server]", "Addr = x ; here";
    assert "" + ("# note" + "\n" + (h + "\n" + (p + "\n"))) == "# note\n[Server]\nAddr = x ; here\n";
    assert Note("# note") by { NoteExample(); }
    NotesChangeNothing("", "# note", h + "\n" + (p + "\n"));
    assert "" + (h + "\n" + (p + "\n")) == h + "\n" + (p + "\n");
    TwoLines(h, p);
  }

  lemma NoteExample()
    ensures Note("# note")
  {
    hide Strip, TrimRight;
    StripTrimmed("# note");
    EndOfText("# note");
  }

  lemma TwoLines(h: string, p: string)
    requires h == "[Server]" && p == "Addr = x ; here"
    ensures LoadMeaning(h + "\n" + (p + "\n")) == Loaded(map["server" := None, "server:addr" := Some("x")])
  {
    hide LogicalLines, Meaning, TrimRight;
    EndOfText(h);
    LineThen(h, p + "\n");
    LastLine(p);
    assert [h] + [p] == [h, p];
    FoldTwo(h, p);
  }

  lemma FoldTwo(h: string, p: string)
    requires h == "[Server]" && p == "Addr = x ; here"
    ensures FoldLines(START, [h, p]) == Acc("server", map["server" := None, "server:addr" := Some("x")], 0)
  {
    hide Meaning;
    HeaderMeans();
    PairMeans();
    assert [h, p][1..] == [p] && [p][1..] == [];
    assert "server" + ":" + "addr" == "server:addr";
    var a := Step(START, h);
    assert a == Acc("server", map["server" := None], 0);
    var b := Step(a, p);
    assert b == Acc("server", map["server" := None, "server:addr" := Some("x")], 0);
    hide Step;
    var none: seq<string> := [];
    assert FoldLines(b, none) == b;
    assert FoldLines(a, [p]) == FoldLines(b, [p][1..]);
    assert FoldLines(START, [h, p]) == FoldLines(a, [h, p][1..]);
  }
}
