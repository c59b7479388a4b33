/** iniparser_line over NUL-terminated buffers. */
module LineParser {
  import opened CStrings
  import opened Scanf
  import opened LineGrammar
  import opened LineScans

  datatype LineStatus = LINE_ERROR | LINE_EMPTY | LINE_COMMENT | LINE_SECTION | LINE_VALUE

  function StatusOf(m: Line): LineStatus {
    match m
    case Empty => LINE_EMPTY
    case Comment => LINE_COMMENT
    case Section(_) => LINE_SECTION
    case KeyValue(_, _) => LINE_VALUE
    case Error => LINE_ERROR
  }

  // xstrdup
  method Duplicate(a: array<char>) returns (t: array<char>)
    requires Terminated(a[..])
    ensures fresh(t) && Terminated(t[..])
    ensures CStr(t[..]) == CStr(a[..])
  {
    var n := StrLen(a);
    t := new char[n + 1](i requires 0 <= i reads a => if i < a.Length then a[i] else NUL);
    assert t[..] == a[..n + 1];
    CStrIs(t[..], CStr(a[..]));
  }

  method StoreString(dst: array<char>, s: string)
    requires NulFree(s) && |s| < dst.Length
    modifies dst
    ensures CStr(dst[..]) == s && Terminated(dst[..])
  {
    forall i | 0 <= i < |s| {
      dst[i] := s[i];
    }
    dst[|s|] := NUL;
    assert dst[..][..|s|] == s;
    CStrIs(dst[..], s);
  }

  method SetEmpty(a: array<char>)
    requires a.Length > 0
    modifies a
    ensures CStr(a[..]) == "" && Terminated(a[..])
  {
    a[0] := NUL;
    CStrIs(a[..], "");
  }

  // sscanf with the two destinations iniparser_line passes.
  method ScanTwo(line: array<char>, f: Format, key: array<char>, value: array<char>) returns (count: nat)
    requires key != value && line != key && line != value
    requires Terminated(line[..]) && Terminated(key[..]) && Terminated(value[..])
    requires |CStr(line[..])| < key.Length && |CStr(line[..])| < value.Length
    requires Conversions(f) <= 2
    modifies key, value
    ensures Terminated(key[..]) && Terminated(value[..])
    ensures count == |Scan(f, CStr(line[..]))|
    ensures count >= 1 ==> CStr(key[..]) == Scan(f, CStr(line[..]))[0]
    ensures count >= 2 ==> CStr(value[..]) == Scan(f, CStr(line[..]))[1]
  {
    var s := Scan(f, CStr(line[..]));
    ScanFits(f, CStr(line[..]));
    if |s| >= 1 {
      StoreString(key, s[0]);
    }
    if |s| >= 2 {
      StoreString(value, s[1]);
    }
    count := |s|;
  }

  // Strips and lower-cases in place: nothing is cut when the stripped text is shorter than len.
  method CleanKey(key: array<char>, len: nat)
    requires Terminated(key[..])
    requires |Strip(CStr(key[..]))| < len
    modifies key
    ensures Terminated(key[..]) && CStr(key[..]) == Lower(Strip(old(CStr(key[..]))))
  {
    var n := StrStrip(key);
    StrLwc(key, key, len);
  }

  // The empty quotes sscanf cannot match.
  method CleanValue(value: array<char>)
    requires Terminated(value[..])
    modifies value
    ensures Terminated(value[..]) && CStr(value[..]) == Unquote(Strip(old(CStr(value[..]))))
  {
    var n := StrStrip(value);
    if CStr(value[..]) == "\"\"" || CStr(value[..]) == "''" {
      SetEmpty(value);
    }
  }

  // A scan that assigns two strings reads its key before the first '=', so short of the end.
  lemma KeyBeforeEquals(l: string)
    ensures forall f :: f in {QuotedBy('"'), QuotedBy('\''), UNQUOTED, COMMENTED, BARE} && |Scan(f, l)| == 2 ==>
              |Scan(f, l)[0]| < |l|
  {
    AllScans(l);
  }

  ghost predicate Buffers(line: array<char>, len: nat, key: array<char>, value: array<char>)
    reads line, key, value
  {
    && key != value && line != key && line != value
    && Terminated(line[..]) && Terminated(key[..]) && Terminated(value[..])
    && len == |CStr(line[..])| < key.Length && len < value.Length
  }

  ghost predicate Holds(m: Line, key: array<char>, value: array<char>)
    reads key, value
  {
    m.KeyValue? && CStr(key[..]) == m.key && CStr(value[..]) == m.value
  }

  // key = "value" or key = 'value'
  method TryQuoted(line: array<char>, len: nat, key: array<char>, value: array<char>) returns (ok: bool)
    requires Buffers(line, len, key, value)
    modifies key, value
    ensures Buffers(line, len, key, value)
    ensures ok == ScanLine(CStr(line[..])).Quoted?
    ensures ok ==> Holds(CleanUp(ScanLine(CStr(line[..]))), key, value)
  {
    hide CStr, Strip, Lower, Scan;
    ghost var l := CStr(line[..]);
    KeyBeforeEquals(l);
    var count := ScanTwo(line, QuotedBy('"'), key, value);
    if count != 2 {
      count := ScanTwo(line, QuotedBy('\''), key, value);
    }
    ok := count == 2;
    if ok {
      CleanKey(key, len);
    }
  }

  // key = value, up to a comment
  method TryUnquoted(line: array<char>, len: nat, key: array<char>, value: array<char>) returns (ok: bool)
    requires Buffers(line, len, key, value)
    requires !ScanLine(CStr(line[..])).Quoted?
    modifies key, value
    ensures Buffers(line, len, key, value)
    ensures ok == ScanLine(CStr(line[..])).Unquoted?
    ensures ok ==> Holds(CleanUp(ScanLine(CStr(line[..]))), key, value)
  {
    hide CStr, Strip, Lower, Scan;
    KeyBeforeEquals(CStr(line[..]));
    var count := ScanTwo(line, UNQUOTED, key, value);
    ok := count == 2;
    if ok {
      CleanKey(key, len);
      CleanValue(value);
    }
  }

  // key=  key=;  key=#
  method TryNoValue(line: array<char>, len: nat, key: array<char>, value: array<char>) returns (ok: bool)
    requires Buffers(line, len, key, value)
    requires !ScanLine(CStr(line[..])).Quoted? && !ScanLine(CStr(line[..])).Unquoted?
    modifies key, value
    ensures Buffers(line, len, key, value)
    ensures ok == ScanLine(CStr(line[..])).NoValue?
    ensures ok ==> Holds(CleanUp(ScanLine(CStr(line[..]))), key, value)
  {
    hide CStr, Strip, Lower, Scan;
    KeyBeforeEquals(CStr(line[..]));
    var count := ScanTwo(line, COMMENTED, key, value);
    if count != 2 {
      count := ScanTwo(line, BARE, key, value);
    }
    ok := count == 2;
    if ok {
      CleanKey(key, len);
      SetEmpty(value);
    }
  }

  method TryOthers(line: array<char>, len: nat, key: array<char>, value: array<char>) returns (ok: bool)
    requires Buffers(line, len, key, value)
    requires !ScanLine(CStr(line[..])).Quoted?
    modifies key, value
    ensures Buffers(line, len, key, value)
    ensures ok == !ScanLine(CStr(line[..])).Unmatched?
    ensures ok ==> Holds(CleanUp(ScanLine(CStr(line[..]))), key, value)
  {
    ok := TryUnquoted(line, len, key, value);
    if !ok {
      ok := TryNoValue(line, len, key, value);
    }
  }

  lemma CleanUpStatus(c: Chosen)
    ensures CleanUp(c) == Error <==> c.Unmatched?
    ensures StatusOf(CleanUp(c)) == if c.Unmatched? then LINE_ERROR else LINE_VALUE
  {}

  lemma ChosenMeaning(l: string) returns (m: Line)
    ensures m == Assignment(l) == CleanUp(ScanLine(l))
    ensures m == Error <==> ScanLine(l).Unmatched?
    ensures StatusOf(m) == if m == Error then LINE_ERROR else LINE_VALUE
  {
    ScansMeetGrammar(l);
    m := CleanUp(ScanLine(l));
    CleanUpStatus(ScanLine(l));
  }

  /** The key = value alternatives of iniparser_line, on a trimmed non-empty line. */
  method ScanAssignment(line: array<char>, len: nat, key: array<char>, value: array<char>) returns (sta: LineStatus)
    requires Buffers(line, len, key, value)
    modifies key, value
    ensures Buffers(line, len, key, value)
    ensures sta == StatusOf(Assignment(CStr(line[..])))
    ensures sta == LINE_VALUE ==> Holds(Assignment(CStr(line[..])), key, value)
  {
    ghost var m := ChosenMeaning(CStr(line[..]));
    var ok := TryQuoted(line, len, key, value);
    if !ok {
      ok := TryOthers(line, len, key, value);
    }
    sta := if ok then LINE_VALUE else LINE_ERROR;
  }

  /** The section alternative: the scan of "[%[^]]" may fail and leave the old name to be cut. */
  method ScanHeader(line: array<char>, len: nat, section: array<char>)
    requires line != section && Terminated(line[..]) && Terminated(section[..])
    requires 2 <= len == |CStr(line[..])| < section.Length && line[0] == '['
    modifies section
    ensures Terminated(section[..])
    ensures CStr(section[..]) == Header(CStr(line[..]), old(CStr(section[..])))
  {
    hide Strip, Header, Scan;
    ghost var l, before := CStr(line[..]), CStr(section[..]);
    var s := Scan(SECTION, CStr(line[..]));
    HeaderScan(l);
    ScanFits(SECTION, l);
    if |s| >= 1 {
      StoreString(section, s[0]);
    }
    HeaderCleaned(l, before, CStr(section[..]));
    var n := StrStrip(section);
    StrLwc(section, section, len);
  }

  function Inner(l: string): string
    requires |l| >= 2
  {
    l[1..][..RunExcept(l[1..], {']'})]
  }

  lemma HeaderScan(l: string)
    requires |l| >= 2 && l[0] == '['
    ensures Scan(SECTION, l) == if l[1] == ']' then [] else [Inner(l)]
  {
    ExceptScan(l[1..], {']'});
    QuoteNonEmpty(l[1..], ']');
  }

  lemma HeaderCleaned(l: string, before: string, scanned: string)
    requires |l| >= 2
    requires scanned == if l[1] == ']' then before else Inner(l)
    ensures Lower(Take(Strip(scanned), |l| - 1)) == Header(l, before)
  {
    hide Strip, Lower, RunExcept;
    if l[1] != ']' {
      SliceOfSlice(l, RunExcept(l[1..], {']'}));
      TakeAll(Strip(scanned), |l| - 1);
    }
  }

  lemma SliceOfSlice(l: string, n: nat)
    requires 1 + n <= |l|
    ensures l[1..][..n] == l[1..1 + n]
  {}

  lemma TakeAll(s: string, n: nat)
    requires |s| <= n
    ensures Take(s, n) == s
  {}

  // The branches of iniparser_line on the trimmed copy.
  method ParseTrimmed(line: array<char>, len: nat, section: array<char>, key: array<char>, value: array<char>)
    returns (sta: LineStatus)
    requires line != section && section != key && section != value
    requires Terminated(section[..]) && len < section.Length
    requires Buffers(line, len, key, value)
    modifies section, key, value
    ensures Terminated(section[..]) && Terminated(key[..]) && Terminated(value[..])
    ensures var m := TrimmedMeaning(CStr(line[..]), old(CStr(section[..])));
            && sta == StatusOf(m)
            && CStr(section[..]) == (if m.Section? then m.name else old(CStr(section[..])))
            && (m.KeyValue? ==> Holds(m, key, value))
  {
    hide Header, Assignment, ScanLine;
    ghost var l := CStr(line[..]);
    if len < 1 {
      return LINE_EMPTY;
    }
    assert line[0] == l[0] && line[len - 1] == l[len - 1];
    if line[0] == '#' || line[0] == ';' {
      return LINE_COMMENT;
    }
    if line[0] == '[' && line[len - 1] == ']' {
      ScanHeader(line, len, section);
      return LINE_SECTION;
    }
    ghost var m := ChosenMeaning(l);
    sta := ScanAssignment(line, len, key, value);
  }

  /** iniparser_line: total, and its status and outputs are what the grammar says. */
  method IniparserLine(input: array<char>, section: array<char>, key: array<char>, value: array<char>)
    returns (sta: LineStatus)
    requires input != section && input != key && input != value
    requires section != key && section != value && key != value
    requires Terminated(input[..]) && Terminated(section[..]) && Terminated(key[..]) && Terminated(value[..])
    requires |CStr(input[..])| < section.Length && |CStr(input[..])| < key.Length && |CStr(input[..])| < value.Length
    modifies section, key, value
    ensures Terminated(section[..]) && Terminated(key[..]) && Terminated(value[..])
    ensures var m := Meaning(CStr(input[..]), old(CStr(section[..])));
            && sta == StatusOf(m)
            && CStr(section[..]) == (if m.Section? then m.name else old(CStr(section[..])))
            && (m.KeyValue? ==> Holds(m, key, value))
  {
    hide TrimmedMeaning, Strip, CStr;
    var line := Duplicate(input);
    var len := StrStrip(line);
    sta := ParseTrimmed(line, len, section, key, value);
  }
}
