/** The ordered sscanf alternatives of iniparser_line accept exactly the grammar. */
module LineScans {
  import opened CStrings
  import opened Scanf
  import opened LineGrammar

  // The branch taken, with what its scan assigned.
  datatype Chosen =
    | Quoted(key: string, value: string)
    | Unquoted(key: string, value: string)
    | NoValue(key: string)
    | Unmatched

  // The `else if` chain over a trimmed line: the first scan that assigns two strings decides.
  function Choose(double: seq<string>, single: seq<string>, unquoted: seq<string>,
                  commented: seq<string>, bare: seq<string>): Chosen {
    if |double| == 2 then Quoted(double[0], double[1])
    else if |single| == 2 then Quoted(single[0], single[1])
    else if |unquoted| == 2 then Unquoted(unquoted[0], unquoted[1])
    else if |commented| == 2 then NoValue(commented[0])
    else if |bare| == 2 then NoValue(bare[0])
    else Unmatched
  }

  function ScanLine(l: string): Chosen {
    Choose(Scan(QuotedBy('"'), l), Scan(QuotedBy('\''), l), Scan(UNQUOTED, l), Scan(COMMENTED, l), Scan(BARE, l))
  }

  // The clean-up each branch applies to what was assigned.
  function CleanUp(c: Chosen): Line {
    match c
    case Quoted(k, v) => KeyValue(Lower(Strip(k)), v)
    case Unquoted(k, v) => KeyValue(Lower(Strip(k)), Unquote(Strip(v)))
    case NoValue(k) => KeyValue(Lower(Strip(k)), "")
    case Unmatched => Error
  }

  function Unquote(v: string): string {
    if v == "\"\"" || v == "''" then "" else v
  }

  // What each value format assigns when it starts at `rest`.
  function QuotedPart(rest: string, quote: char): seq<string> {
    if rest != "" && rest[0] == quote && RunExcept(rest[1..], {quote}) > 0
    then [rest[1..][..RunExcept(rest[1..], {quote})]] else []
  }

  lemma ScanEnd(s: string)
    ensures Scan(End, s) == []
  {}

  lemma QuotedScan(rest: string, q: char)
    ensures Scan(Literal(q, Except({q}, Literal(q, End))), rest) == QuotedPart(rest, q)
  {
    if rest != "" && rest[0] == q {
      var t := rest[1..];
      var n := RunExcept(t, {q});
      assert Scan(Literal(q, End), t[n..]) == [] by {
        if t[n..] != "" { ScanEnd(t[n..][1..]); }
      }
    }
  }

  lemma ExceptScan(s: string, chars: set<char>)
    ensures Scan(Except(chars, End), s) == if RunExcept(s, chars) > 0 then [s[..RunExcept(s, chars)]] else []
  {
    ScanEnd(s[RunExcept(s, chars)..]);
  }

  lemma AfterKey(t: string, value: Format)
    requires t == "" || t[0] == '='
    ensures Scan(Blank(Literal('=', Blank(value))), t) ==
            if t == "" then [] else Scan(value, TrimLeft(t[1..]))
  {
    assert TrimLeft(t) == t;
    if t != "" {
      assert Scan(Literal('=', Blank(value)), t) == Scan(Blank(value), t[1..]);
    }
  }

  // Every key scan splits at the first '='.
  lemma KeyThenScan(l: string, value: Format)
    ensures var e := RunExcept(l, {'='});
            Scan(KeyThen(value), l) ==
            if e == 0 then []
            else if e == |l| then [l]
            else [l[..e]] + Scan(value, TrimLeft(l[e + 1..]))
  {
    hide TrimLeft;
    var e := RunExcept(l, {'='});
    if 0 < e {
      var tail := Blank(Literal('=', Blank(value)));
      assert Scan(KeyThen(value), l) == [l[..e]] + Scan(tail, l[e..]);
      hide Scan;
      AfterKey(l[e..], value);
      assert e < |l| ==> l[e..][1..] == l[e + 1..];
      assert e == |l| ==> l[..e] == l;
    }
  }

  lemma BareScan(l: string)
    ensures var e := RunExcept(l, {'='});
            var s := Scan(BARE, l);
            if 0 < e < |l| then |s| == 2 && s[0] == l[..e] else |s| < 2
  {
    var e := RunExcept(l, {'='});
    var t := l[e..];
    if 0 < e < |l| {
      assert TrimLeft(t) == t;
      ScanEnd(t[RunAmong(t, {'='})..]);
    } else if e != 0 {
      assert t == "";
      assert Scan(Blank(Among({'='}, End)), "") == [];
    }
  }

  lemma AllScans(l: string)
    ensures var e := RunExcept(l, {'='});
            if 0 < e < |l| then
              var rest := TrimLeft(l[e + 1..]);
              && Scan(QuotedBy('"'), l) == [l[..e]] + QuotedPart(rest, '"')
              && Scan(QuotedBy('\''), l) == [l[..e]] + QuotedPart(rest, '\'')
              && Scan(UNQUOTED, l) == [l[..e]] + Scan(Except({';', '#'}, End), rest)
              && Scan(COMMENTED, l) == [l[..e]] + Scan(Among({';', '#'}, End), rest)
              && |Scan(BARE, l)| == 2 && Scan(BARE, l)[0] == l[..e]
            else
              |Scan(QuotedBy('"'), l)| < 2 && |Scan(QuotedBy('\''), l)| < 2 && |Scan(UNQUOTED, l)| < 2
              && |Scan(COMMENTED, l)| < 2 && |Scan(BARE, l)| < 2
  {
    var e := RunExcept(l, {'='});
    KeyThenScan(l, Literal('"', Except({'"'}, Literal('"', End))));
    KeyThenScan(l, Literal('\'', Except({'\''}, Literal('\'', End))));
    KeyThenScan(l, Except({';', '#'}, End));
    KeyThenScan(l, Among({';', '#'}, End));
    BareScan(l);
    if 0 < e < |l| {
      QuotedScan(TrimLeft(l[e + 1..]), '"');
      QuotedScan(TrimLeft(l[e + 1..]), '\'');
    }
  }

  lemma ChooseSplit(k: string, double: seq<string>, single: seq<string>, unquoted: seq<string>,
                    commented: seq<string>, bare: seq<string>)
    requires |bare| == 2 && bare[0] == k
    ensures Choose([k] + double, [k] + single, [k] + unquoted, [k] + commented, bare) ==
            if |double| == 1 then Quoted(k, double[0])
            else if |single| == 1 then Quoted(k, single[0])
            else if |unquoted| == 1 then Unquoted(k, unquoted[0])
            else NoValue(k)
  {}

  lemma QuoteNonEmpty(t: string, q: char)
    requires t != ""
    ensures RunExcept(t, {q}) > 0 <==> t[0] != q
  {}

  lemma QuotedValue(rest: string, q: char)
    ensures |QuotedPart(rest, q)| == if |rest| >= 2 && rest[0] == q && rest[1] != q then 1 else 0
    ensures |QuotedPart(rest, q)| == 1 ==> QuotedPart(rest, q)[0] == rest[1..1 + RunExcept(rest[1..], {q})]
  {
    if |rest| >= 2 {
      QuoteNonEmpty(rest[1..], q);
    }
  }

  lemma UnquotedValue(rest: string)
    ensures |Scan(Except({';', '#'}, End), rest)| == if rest == "" || IsComment(rest[0]) then 0 else 1
    ensures rest != "" && !IsComment(rest[0]) ==>
              Scan(Except({';', '#'}, End), rest)[0] == rest[..RunExcept(rest, {';', '#'})]
  {
    ExceptScan(rest, {';', '#'});
  }

  // The choice among the value formats is the grammar's.
  lemma ValueChoice(rest: string, double: seq<string>, single: seq<string>, unquoted: seq<string>)
    requires double == QuotedPart(rest, '"') && single == QuotedPart(rest, '\'')
    requires unquoted == Scan(Except({';', '#'}, End), rest)
    ensures ValueOf(rest) ==
              if |double| == 1 then double[0]
              else if |single| == 1 then single[0]
              else if |unquoted| == 1 then Unquote(Strip(unquoted[0]))
              else ""
  {
    QuotedValue(rest, '"');
    QuotedValue(rest, '\'');
    UnquotedValue(rest);
  }

  // The branch an assignment takes, by what follows its '='.
  lemma BranchTaken(l: string)
    requires 0 < RunExcept(l, {'='}) < |l|
    ensures var e := RunExcept(l, {'='});
            var rest := TrimLeft(l[e + 1..]);
            var double, single := QuotedPart(rest, '"'), QuotedPart(rest, '\'');
            var unquoted := Scan(Except({';', '#'}, End), rest);
            ScanLine(l) ==
              if |double| == 1 then Quoted(l[..e], double[0])
              else if |single| == 1 then Quoted(l[..e], single[0])
              else if |unquoted| == 1 then Unquoted(l[..e], unquoted[0])
              else NoValue(l[..e])
  {
    hide Scan, QuotedPart, TrimLeft, RunExcept;
    var e := RunExcept(l, {'='});
    var rest := TrimLeft(l[e + 1..]);
    AllScans(l);
    hide Choose;
    ChooseSplit(l[..e], QuotedPart(rest, '"'), QuotedPart(rest, '\''), Scan(Except({';', '#'}, End), rest),
                Scan(Among({';', '#'}, End), rest), Scan(BARE, l));
  }

  /** The ordered scans and the grammar agree on every line. */
  lemma ScansMeetGrammar(l: string)
    ensures CleanUp(ScanLine(l)) == Assignment(l)
  {
    hide Scan, QuotedPart, ValueOf, Strip, Lower, TrimLeft, RunExcept;
    var e := RunExcept(l, {'='});
    if 0 < e < |l| {
      var rest := TrimLeft(l[e + 1..]);
      BranchTaken(l);
      ValueChoice(rest, QuotedPart(rest, '"'), QuotedPart(rest, '\''), Scan(Except({';', '#'}, End), rest));
      hide ScanLine;
    } else {
      AllScans(l);
    }
  }
}
