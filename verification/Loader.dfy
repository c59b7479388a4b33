/** iniparser_load over an in-memory file, with its 1024-byte line buffer. */
module Loader {
  import opened Options
  import opened CStrings
  import opened Scanf
  import opened Slots
  import opened LineGrammar
  import opened LineParser
  import opened LoadSpec
  import opened DictionaryStore

  // A stream opened for reading; eof is its end-of-file indicator.
  class InFile {
    const text: string
    var pos: nat
    var eof: bool

    constructor (text: string)
      ensures this.text == text && pos == 0 && !eof
    {
      this.text, pos, eof := text, 0, false;
    }

    ghost predicate Valid()
      reads this
    {
      pos <= |text|
    }

    ghost function Rest(): string
      requires Valid()
      reads this
    {
      text[pos..]
    }
  }

  lemma FirstLineUntil(s: string, k: nat)
    requires k <= |s| && (forall i :: 0 <= i < k ==> s[i] != '\n')
    ensures k == |s| ==> FirstLine(s) == s
    ensures k < |s| && s[k] == '\n' ==> FirstLine(s) == s[..k + 1]
    ensures k < |s| ==> |FirstLine(s)| > k
  {
    var n := RunExcept(s, {'\n'});
    assert n >= k;
  }

  /** fgets, after section 7.19.7.2 of ISO C99: at most n - 1 characters, stopping after a
      newline; the end-of-file indicator is set only by an attempt to read past the end. */
  method Fgets(f: InFile, buf: array<char>, off: nat, n: nat) returns (ok: bool)
    requires f.Valid() && n >= 1 && off + n <= buf.Length
    modifies f`pos, f`eof, buf
    ensures f.Valid()
    ensures var c := Chunk(old(f.Rest()), n - 1);
            && f.pos == old(f.pos) + |c|
            && f.eof == (old(f.eof) || (|c| < n - 1 && !EndsLine(c)))
            && ok == (c != "")
            && buf[..off] == old(buf[..off])
            && (ok ==> buf[off..off + |c|] == c && buf[off + |c|] == NUL)
  {
    ghost var s := f.Rest();
    var k := 0;
    var stop := false;
    while k < n - 1 && !stop
      invariant k <= n - 1 && k <= |s| && f.pos == old(f.pos) + k <= |f.text|
      invariant buf[..off] == old(buf[..off])
      invariant buf[off..off + k] == s[..k]
      invariant !stop ==> f.eof == old(f.eof) && forall i :: 0 <= i < k ==> s[i] != '\n'
      invariant stop ==> s[..k] == FirstLine(s) && f.eof == (old(f.eof) || (k < n - 1 && !EndsLine(s[..k])))
      decreases n - k, !stop
    {
      FirstLineUntil(s, k);
      if f.pos == |f.text| {
        f.eof := true;
        stop := true;
      } else {
        var c := f.text[f.pos];
        buf[off + k] := c;
        f.pos := f.pos + 1;
        k := k + 1;
        stop := c == '\n';
      }
    }
    if !stop { FirstLineUntil(s, k); }
    ok := k > 0;
    if ok {
      buf[off + k] := NUL;
    }
  }

  lemma CutIs(b: seq<char>, t: string, n: nat)
    requires n <= |t| && NulFree(t) && n < |b| && (forall k :: 0 <= k < n ==> b[k] == t[k]) && b[n] == NUL
    requires (forall k :: n <= k < |t| ==> IsSpace(t[k])) && (n > 0 ==> !IsSpace(t[n - 1]))
    ensures CStr(b) == TrimRight(t) == t[..n] && Terminated(b)
  {
    hide TrimRight;
    TrimRightAt(t, n);
    SubNulFree(t, 0, n);
    CStrIs(b, t[..n]);
  }

  lemma NewlineIsSpace()
    ensures IsSpace('\n')
  {}

  // Overwrites trailing blanks with NULs; the result is the index of the last character left, -1
  // when there is none.
  method TrimTail(line: array<char>, last: int) returns (len: int)
    requires Terminated(line[..]) && last == |CStr(line[..])| - 1
    modifies line
    ensures Terminated(line[..]) && CStr(line[..]) == TrimRight(old(CStr(line[..])))
    ensures len == |CStr(line[..])| - 1
  {
    hide TrimRight, IsSpace, CStr;
    assert IsSpace('\n') by { NewlineIsSpace(); }
    ghost var t := CStr(line[..]);
    len := last;
    while len >= 0 && (line[len] == '\n' || IsSpace(line[len]))
      invariant -1 <= len <= last && |t| < line.Length
      invariant forall k :: len < k < |t| ==> IsSpace(t[k])
      invariant forall k :: 0 <= k <= len ==> line[k] == t[k]
      invariant line[len + 1] == NUL
    {
      line[len] := NUL;
      len := len - 1;
    }
    CutIs(line[..], t, len + 1);
  }

  ghost predicate Holding(d: Dictionary, entries: Entries, size: nat)
    reads d, d.key, d.val, d.hash
  {
    d.Valid() && d.Map() == entries && d.size == size
  }

  ghost predicate Names(section: array<char>, name: string)
    reads section
  {
    section.Length == ASCIILINESZ + 1 && Terminated(section[..]) && CStr(section[..]) == name && |name| < ASCIILINESZ
  }

  ghost predicate Scratch(line: array<char>, section: array<char>, key: array<char>, val: array<char>)
    reads line, section, key, val
  {
    && line != section && line != key && line != val && section != key && section != val && key != val
    && line.Length == key.Length == val.Length == ASCIILINESZ + 1
    && Terminated(key[..]) && Terminated(val[..])
  }

  // One assignment of a line into the store.
  method StorePair(d: Dictionary, k: string, v: Option<string>, memory: bool) returns (memErr: int)
    requires d.Valid()
    modifies d, d.key, d.val, d.hash
    ensures d.key == old(d.key) || fresh(d.key)
    ensures d.val == old(d.val) || fresh(d.val)
    ensures d.hash == old(d.hash) || fresh(d.hash)
    ensures var e, s, p := old(d.Map()), old(d.size), Some((k, v));
            && (memErr < 0 <==> SetGrows(e, s, Target(p)) && !memory)
            && (memErr < 0 ==> Holding(d, e, s))
            && (memErr >= 0 ==> Holding(d, Store(e, p), if SetGrows(e, s, Target(p)) then 2 * s else s))
  {
    memErr := d.Set(Some(k), v, memory);
  }

  // The `switch` of iniparser_load, on the line status.
  method ApplyStatus(d: Dictionary, sta: LineStatus, section: array<char>, key: array<char>, val: array<char>,
                     memory: bool, ghost name: string, ghost m: Line)
    returns (memErr: int)
    requires d.Valid() && sta == StatusOf(m)
    requires Names(section, if m.Section? then m.name else name)
    requires m.KeyValue? ==> Holds(m, key, val) && |m.key| < ASCIILINESZ
    modifies d, d.key, d.val, d.hash
    ensures d.key == old(d.key) || fresh(d.key)
    ensures d.val == old(d.val) || fresh(d.val)
    ensures d.hash == old(d.hash) || fresh(d.hash)
    ensures var e, s, p := old(d.Map()), old(d.size), Pair(name, m);
            && (memErr < 0 <==> SetGrows(e, s, Target(p)) && !memory)
            && (memErr < 0 ==> Holding(d, e, s))
            && (memErr >= 0 ==> Holding(d, Store(e, p), if SetGrows(e, s, Target(p)) then 2 * s else s))
  {
    memErr := 0;
    match sta {
      case LINE_SECTION =>
        memErr := StorePair(d, CStr(section[..]), None, memory);
      case LINE_VALUE =>
        var tmp := CStr(section[..]) + ":" + CStr(key[..]);
        assert |tmp| < 2 * ASCIILINESZ + 1;
        memErr := StorePair(d, tmp, Some(CStr(val[..])), memory);
      case _ =>
    }
  }

  ghost predicate Reading(f: InFile, line: array<char>, last: nat)
    reads f, line
  {
    && f.Valid() && NulFree(f.text) && (f.eof ==> f.pos == |f.text|)
    && line.Length == ASCIILINESZ + 1 && last <= ASCIILINESZ - 3 && NulFree(line[..last])
  }

  // The three length checks see exactly the cases of the specification.
  lemma ChunkChecks(pending: string, rest: string)
    requires |pending| <= ASCIILINESZ - 3 && rest != ""
    ensures var room := ASCIILINESZ - 1 - |pending|;
            var p, c := FirstLine(rest), Chunk(rest, room);
            && c != ""
            && (|pending + c| <= 1 <==> Skipped(pending, p))
            && (TooLong(pending, p) <==> !EndsLine(c) && |c| == room)
            && (Skipped(pending, p) || !TooLong(pending, p) ==> c == p)
            && (|c| < room && !EndsLine(c) ==> c == rest)
  {
    FirstLineShape(rest);
  }

  ghost predicate Read(f: InFile, line: array<char>, rest: string, s: string)
    reads f, line
  {
    && f.Valid() && NulFree(f.text) && (f.eof ==> f.pos == |f.text|)
    && f.Rest() == rest && line.Length == ASCIILINESZ + 1
    && Terminated(line[..]) && CStr(line[..]) == s
  }

  // fgets and the length checks; Logical stands for a line that passed them.
  method ReadPhysical(f: InFile, line: array<char>, last: nat) returns (event: Event)
    requires Reading(f, line, last)
    modifies f`pos, f`eof, line
    ensures var pending, rest := old(line[..last]), old(f.Rest());
            var p := FirstLine(rest);
            && f.pos <= |f.text|
            && event == (if rest == "" then AtEnd else if Skipped(pending, p) then Skip
                         else if TooLong(pending, p) then Overflow else Logical)
            && (event in {Skip, Logical} ==> Read(f, line, rest[|p|..], pending + p))
  {
    hide FirstLine, TooLong, CStr;
    ghost var pending, rest := line[..last], f.Rest();
    var ok := Fgets(f, line, last, ASCIILINESZ - last);
    if !ok {
      return AtEnd;
    }
    ChunkChecks(pending, rest);
    ghost var c := Chunk(rest, ASCIILINESZ - last - 1);
    ghost var s := pending + c;
    assert line[..|s|] == s && line[|s|] == NUL;
    CStrIs(line[..], s);
    assert f.Rest() == rest[|c|..];
    var len := StrLen(line);
    if len <= 1 {
      return Skip;
    }
    assert line[len - 1] == c[|c| - 1];
    if line[len - 1] != '\n' && !f.eof {
      return Overflow;
    }
    return Logical;
  }

  // The trimming and the multi-line test.
  method TrimAndTest(line: array<char>) returns (continued: bool, last: nat)
    requires Terminated(line[..])
    modifies line
    ensures var t := TrimRight(old(CStr(line[..])));
            && Terminated(line[..]) && CStr(line[..]) == t
            && continued == Continues(t)
            && last == (if continued then |t| - 1 else 0)
  {
    var len: int := StrLen(line);
    len := TrimTail(line, len - 1);
    if len < 0 {
      len := 0;
    }
    continued := line[len] == '\\';
    last := if continued then len else 0;
  }

  /** One turn of the reading half of the loop: fgets behind what is pending, the length checks,
      the trimming and the test for a trailing backslash. All accesses stay in the buffer. */
  method ReadLine(f: InFile, line: array<char>, last: nat) returns (event: Event, last': nat)
    requires Reading(f, line, last)
    modifies f`pos, f`eof, line
    ensures var pending, rest := old(line[..last]), old(f.Rest());
            var p := FirstLine(rest);
            var t := TrimRight(pending + p);
            && event == EventOf(pending, rest)
            && f.pos <= |f.text|
            && (event !in {AtEnd, Overflow} ==> Reading(f, line, last') && f.Rest() == rest[|p|..])
            && (event == Skip ==> last' == 0)
            && (event == Pending ==> line[..last'] == t[..|t| - 1])
            && (event == Logical ==> last' == 0 && Terminated(line[..]) && CStr(line[..]) == t)
  {
    hide TrimRight, FirstLine, CStr;
    PendingFits(line[..last], f.Rest());
    event := ReadPhysical(f, line, last);
    last' := last;
    if event == Logical {
      ghost var s := CStr(line[..]);
      var continued, len := TrimAndTest(line);
      event, last' := if continued then Pending else Logical, len;
      SubNulFree(TrimRight(s), 0, len);
      assert line[..len] == CStr(line[..])[..len];
    }
  }

  // One turn of the load as LoadFrom sees it.
  lemma LoadTurn(a: Acc, size: nat, pending: string, rest: string, lineno: nat, memory: nat -> bool)
    ensures var goal := LoadFrom(a, size, pending, rest, lineno, memory);
            var p := FirstLine(rest);
            var t := TrimRight(pending + p);
            match EventOf(pending, rest)
            case AtEnd => goal == Finish(a)
            case Skip => goal == LoadFrom(a, size, "", rest[|p|..], lineno + 1, memory)
            case Overflow => goal == Null
            case Pending => goal == LoadFrom(a, size, t[..|t| - 1], rest[|p|..], lineno + 1, memory)
            case Logical =>
              var m := Meaning(t, a.section);
              var grows := SetGrows(a.entries, size, Target(Pair(a.section, m)));
              if grows && !memory(lineno + 1) then goal == Finish(Acc(Apply(a, m).section, a.entries, a.errs))
              else goal == LoadFrom(Apply(a, m), if grows then 2 * size else size, "", rest[|p|..], lineno + 1, memory)
  {
    hide TrimRight, FirstLine, Meaning, TooLong, Apply, Pair, Target;
  }

  method Clear(line: array<char>)
    requires line.Length > ASCIILINESZ
    modifies line
    ensures CStr(line[..]) == "" && Terminated(line[..])
  {
    forall i | 0 <= i < ASCIILINESZ {
      line[i] := NUL;
    }
    assert line[..][0] == NUL;
  }

  // A line buffer, cleared.
  method NewBuffer() returns (a: array<char>)
    ensures fresh(a) && a.Length == ASCIILINESZ + 1 && CStr(a[..]) == "" && Terminated(a[..])
  {
    a := new char[ASCIILINESZ + 1];
    Clear(a);
  }

  lemma ErrorStoresNothing(a: Acc, size: nat, m: Line)
    ensures m.Error? ==> !SetGrows(a.entries, size, Target(Pair(a.section, m)))
  {}

  datatype Outcome = GoOn | Stop | GiveUp

  // A logical line: parse it, store its assignment, count an error.
  method HandleLine(d: Dictionary, line: array<char>, section: array<char>, key: array<char>, val: array<char>,
                    memory: bool, errs: nat, ghost a: Acc)
    returns (outcome: Outcome, errs': nat, ghost a': Acc)
    requires Holding(d, a.entries, d.size) && Names(section, a.section) && Scratch(line, section, key, val)
    requires Terminated(line[..]) && |CStr(line[..])| <= ASCIILINESZ - 2 && errs == a.errs
    modifies d, d.key, d.val, d.hash, section, key, val
    ensures Scratch(line, section, key, val)
    ensures d.key == old(d.key) || fresh(d.key)
    ensures d.val == old(d.val) || fresh(d.val)
    ensures d.hash == old(d.hash) || fresh(d.hash)
    ensures var m := Meaning(CStr(line[..]), a.section);
            var grows := SetGrows(a.entries, old(d.size), Target(Pair(a.section, m)));
            && outcome == (if grows && !memory then Stop else GoOn)
            && a' == (if grows && !memory then Acc(Apply(a, m).section, a.entries, a.errs) else Apply(a, m))
            && d.size == (if grows && memory then 2 * old(d.size) else old(d.size))
            && Holding(d, a'.entries, d.size)
    ensures Names(section, a'.section) && errs' == a'.errs
  {
    hide Meaning, Strip, CStr, Store, Pair, Target, SetGrows, SlotMap, WellFormed;
    ghost var m := Meaning(CStr(line[..]), a.section);
    MeaningFits(CStr(line[..]), a.section);
    ErrorStoresNothing(a, d.size, m);
    var sta := IniparserLine(line, section, key, val);
    var memErr := ApplyStatus(d, sta, section, key, val, memory, a.section, m);
    errs' := if sta == LINE_ERROR then errs + 1 else errs;
    outcome := if memErr < 0 then Stop else GoOn;
    a' := if memErr < 0 then Acc(Apply(a, m).section, a.entries, a.errs) else Apply(a, m);
  }

  // The loop invariant of iniparser_load.
  ghost predicate Loading(f: InFile, d: Dictionary, line: array<char>, section: array<char>, key: array<char>,
                          val: array<char>, last: nat, errs: nat, a: Acc)
    reads f, d, d.key, d.val, d.hash, line, section, key, val
  {
    && Scratch(line, section, key, val) && Names(section, a.section) && Reading(f, line, last)
    && Holding(d, a.entries, d.size) && errs == a.errs
  }

  // The body of the loop. The ghost `a` is what was read so far; what is still to come is the
  // specification's pass over the rest of the text.
  method Turn(f: InFile, d: Dictionary, line: array<char>, section: array<char>, key: array<char>, val: array<char>,
              last: nat, lineno: nat, errs: nat, memory: nat -> bool, ghost a: Acc)
    returns (outcome: Outcome, last': nat, errs': nat, ghost a': Acc)
    requires Loading(f, d, line, section, key, val, last, errs, a)
    modifies f`pos, f`eof, line, section, key, val, d, d.key, d.val, d.hash
    ensures d.key == old(d.key) || fresh(d.key)
    ensures d.val == old(d.val) || fresh(d.val)
    ensures d.hash == old(d.hash) || fresh(d.hash)
    ensures var goal := LoadFrom(a, old(d.size), old(line[..last]), old(f.Rest()), lineno, memory);
            match outcome
            case GoOn =>
              && Loading(f, d, line, section, key, val, last', errs', a')
              && goal == LoadFrom(a', d.size, line[..last'], f.Rest(), lineno + 1, memory)
              && f.pos > old(f.pos)
            case Stop => Holding(d, a'.entries, d.size) && errs' == a'.errs && goal == Finish(a')
            case GiveUp => goal == Null
  {
    hide Meaning, LoadFrom, FirstLine, TrimRight, CStr, Names, Holding;
    ghost var pending, rest, size := line[..last], f.Rest(), d.size;
    LoadTurn(a, size, pending, rest, lineno, memory);
    PendingFits(pending, rest);
    hide EventOf;
    var event;
    event, last' := ReadLine(f, line, last);
    errs', a' := errs, a;
    match event {
      case AtEnd =>
        outcome := Stop;
      case Overflow =>
        outcome := GiveUp;
      case Skip =>
        outcome := GoOn;
        assert line[..last'] == "";
      case Pending =>
        outcome := GoOn;
      case Logical =>
        outcome, errs', a' := HandleLine(d, line, section, key, val, memory(lineno + 1), errs, a);
        Clear(line);
        assert line[..last'] == "";
    }
  }

  // The loop; false stands for giving up.
  method Pass(f: InFile, d: Dictionary, line: array<char>, section: array<char>, key: array<char>, val: array<char>,
              memory: nat -> bool)
    returns (done: bool, errs: nat, ghost a: Acc)
    requires Loading(f, d, line, section, key, val, 0, 0, START)
    modifies f`pos, f`eof, line, section, key, val, d, d.key, d.val, d.hash
    ensures var goal := LoadFrom(START, old(d.size), "", old(f.Rest()), 0, memory);
            if done then Holding(d, a.entries, d.size) && errs == a.errs && goal == Finish(a) else goal == Null
  {
    hide LoadFrom, Holding, Names, Scratch;
    var last: nat, lineno: nat := 0, 0;
    errs, a := 0, START;
    ghost var goal := LoadFrom(START, d.size, "", f.Rest(), 0, memory);
    assert line[..0] == "";
    while true
      invariant d.key == old(d.key) || fresh(d.key)
      invariant d.val == old(d.val) || fresh(d.val)
      invariant d.hash == old(d.hash) || fresh(d.hash)
      invariant Loading(f, d, line, section, key, val, last, errs, a)
      invariant goal == LoadFrom(a, d.size, line[..last], f.Rest(), lineno, memory)
      decreases |f.text| - f.pos
    {
      var outcome;
      outcome, last, errs, a := Turn(f, d, line, section, key, val, last, lineno, errs, memory, a);
      lineno := lineno + 1;
      if outcome == GiveUp {
        return false, errs, a;
      } else if outcome == Stop {
        return true, errs, a;
      }
    }
  }

  /** iniparser_load. A missing file is null; memory(i) says whether a growth needed at the i-th
      read succeeds. The result is the specification's: NULL for an over-long or an erroneous
      line, else a store holding exactly the map the text means. */
  method Load(f: InFile?, memory: nat -> bool) returns (dict: Dictionary?)
    requires f != null ==> f.pos == 0 && !f.eof && NulFree(f.text)
    modifies f
    ensures f == null ==> dict == null
    ensures f != null ==>
              match LoadFrom(START, DICTMINSZ, "", f.text, 0, memory)
              case Null => dict == null
              case Loaded(m) => dict != null && fresh(dict) && dict.Valid() && dict.Map() == m
  {
    hide LoadFrom, CStr;
    if f == null {
      return null;
    }
    var d := new Dictionary(0);
    var line := NewBuffer();
    var section := NewBuffer();
    var key := NewBuffer();
    var val := NewBuffer();
    assert f.Rest() == f.text && line[..0] == "";
    var done, errs, a := Pass(f, d, line, section, key, val, memory);
    dict := if !done || errs > 0 then null else d;
  }
}
