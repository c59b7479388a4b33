/** What loading an INI text means: the pass that iniparser_load makes over the physical lines,
    and the same result as a fold over logical lines. */
module LoadSpec {
  import opened Options
  import opened CStrings
  import opened Scanf
  import opened Slots
  import opened LineGrammar

  // ----- Physical lines -----

  predicate EndsLine(s: string) { s != "" && s[|s| - 1] == '\n' }

  // The first physical line of a text, with its newline when it has one.
  function FirstLine(s: string): (p: string)
    ensures p <= s && (s != "" ==> p != "")
  {
    var n := RunExcept(s, {'\n'});
    if n < |s| then s[..n + 1] else s
  }

  lemma FirstLineShape(s: string)
    ensures forall i :: 0 <= i < |FirstLine(s)| - 1 ==> FirstLine(s)[i] != '\n'
  {}

  // What fgets reads with room for `room` characters.
  function Chunk(s: string, room: nat): (c: string)
    ensures c <= s
  {
    Take(FirstLine(s), room)
  }

  // A physical line read behind `pending` characters overflows the 1024-byte buffer. A last line
  // without a newline needs one spare byte, or the end of the file goes unnoticed.
  predicate TooLong(pending: string, p: string) {
    |pending| + |p| >= if EndsLine(p) then ASCIILINESZ else ASCIILINESZ - 1
  }

  // A physical line of one character is skipped, unless it continues another.
  predicate Skipped(pending: string, p: string) {
    pending == "" && |p| == 1
  }

  predicate Continues(t: string) { t != "" && t[|t| - 1] == '\\' }

  // ----- The meaning of one logical line -----

  datatype Acc = Acc(section: string, entries: Entries, errs: nat)

  const START: Acc := Acc("", map[], 0)

  // The assignment a logical line makes, if any.
  function Pair(section: string, m: Line): Option<(string, Option<string>)> {
    match m
    case Section(n) => Some((n, None))
    case KeyValue(k, v) => Some((section + ":" + k, Some(v)))
    case _ => None
  }

  function Store(e: Entries, p: Option<(string, Option<string>)>): Entries {
    if p.None? then e else e[p.value.0 := p.value.1]
  }

  function Apply(a: Acc, m: Line): Acc {
    Acc(if m.Section? then m.name else a.section, Store(a.entries, Pair(a.section, m)),
        if m.Error? then a.errs + 1 else a.errs)
  }

  function Step(a: Acc, text: string): Acc {
    Apply(a, Meaning(text, a.section))
  }

  function FoldLines(a: Acc, lines: seq<string>): Acc
    decreases |lines|
  {
    if lines == [] then a else FoldLines(Step(a, lines[0]), lines[1..])
  }

  // ----- The pass of the source -----

  datatype LoadResult = Null | Loaded(entries: Entries)

  function Finish(a: Acc): LoadResult {
    if a.errs > 0 then Null else Loaded(a.entries)
  }

  function Target(p: Option<(string, Option<string>)>): Option<string> {
    if p.None? then None else Some(p.value.0)
  }

  // Whether the assignment of a logical line has to grow the store.
  predicate Grows(a: Acc, size: nat, text: string) {
    SetGrows(a.entries, size, Target(Pair(a.section, Meaning(text, a.section))))
  }

  function LoadFrom(a: Acc, size: nat, pending: string, rest: string, lineno: nat, memory: nat -> bool): LoadResult
    decreases |rest|
  {
    if rest == "" then Finish(a)
    else
      var p := FirstLine(rest);
      var rest' := rest[|p|..];
      var t := TrimRight(pending + p);
      if Skipped(pending, p) then LoadFrom(a, size, pending, rest', lineno + 1, memory)
      else if TooLong(pending, p) then Null
      else if Continues(t) then LoadFrom(a, size, t[..|t| - 1], rest', lineno + 1, memory)
      else if Grows(a, size, t) && !memory(lineno + 1) then
        // A failed growth ends the load with what was read so far.
        Finish(Acc(Step(a, t).section, a.entries, a.errs))
      else
        LoadFrom(Step(a, t), if Grows(a, size, t) then 2 * size else size, "", rest', lineno + 1, memory)
  }

  // What reading the next physical line leads to.
  datatype Event = AtEnd | Skip | Overflow | Pending | Logical

  function EventOf(pending: string, rest: string): Event {
    var p := FirstLine(rest);
    if rest == "" then AtEnd
    else if Skipped(pending, p) then Skip
    else if TooLong(pending, p) then Overflow
    else if Continues(TrimRight(pending + p)) then Pending
    else Logical
  }

  // ----- Logical lines -----

  // The logical lines of a text: physical lines appended to what is pending, trimmed on the
  // right, and kept pending without their last character when that is a backslash. None when
  // a line does not fit.
  function LogicalLines(pending: string, rest: string): Option<seq<string>>
    decreases |rest|
  {
    if rest == "" then Some([])
    else
      var p := FirstLine(rest);
      var rest' := rest[|p|..];
      var t := TrimRight(pending + p);
      if Skipped(pending, p) then LogicalLines(pending, rest')
      else if TooLong(pending, p) then None
      else if Continues(t) then LogicalLines(t[..|t| - 1], rest')
      else
        var tail := LogicalLines("", rest');
        if tail.None? then None else Some([t] + tail.value)
  }

  function LoadMeaning(text: string): LoadResult {
    var lines := LogicalLines("", text);
    if lines.None? then Null else Finish(FoldLines(START, lines.value))
  }

  /** However a chain of continuations is built up, what is pending never exceeds 1021
      characters, so every read has room for at least two more. */
  lemma PendingFits(pending: string, rest: string)
    ensures var t := TrimRight(pending + FirstLine(rest));
            && (EventOf(pending, rest) == Pending ==> 1 <= |t| <= ASCIILINESZ - 2)
            && (EventOf(pending, rest) == Logical ==> |t| <= ASCIILINESZ - 2)
  {
    var s := pending + FirstLine(rest);
    TrimRightDrops(s);
    if EndsLine(FirstLine(rest)) {
      assert s[|s| - 1] == '\n';
    }
  }

  /** With memory to spare, a load is the fold of its logical lines: NULL when a line does not
      fit or is erroneous, else the map the lines build in order. */
  lemma {:induction false} LoadIsFold(a: Acc, size: nat, pending: string, rest: string, lineno: nat, memory: nat -> bool)
    requires forall i :: memory(i)
    ensures LoadFrom(a, size, pending, rest, lineno, memory) ==
            var lines := LogicalLines(pending, rest);
            if lines.None? then Null else Finish(FoldLines(a, lines.value))
    decreases |rest|
  {
    hide TrimRight, FirstLine, Meaning, Step, Grows;
    if rest != "" {
      var p := FirstLine(rest);
      var rest' := rest[|p|..];
      var t := TrimRight(pending + p);
      if Skipped(pending, p) {
        LoadIsFold(a, size, pending, rest', lineno + 1, memory);
      } else if TooLong(pending, p) {
      } else if Continues(t) {
        LoadIsFold(a, size, t[..|t| - 1], rest', lineno + 1, memory);
      } else {
        LoadIsFold(Step(a, t), if Grows(a, size, t) then 2 * size else size, "", rest', lineno + 1, memory);
        var tail := LogicalLines("", rest');
        if tail.Some? {
          assert ([t] + tail.value)[1..] == tail.value;
        }
      }
    }
  }
}
