/** How a single printed line reads back. */
module PrintedLines {
  import opened Options
  import opened CStrings
  import opened Scanf
  import opened LineGrammar
  import opened LoadSpec
  import opened Printer

  // A key that is printed as it will be read: the checks a caller would make.
  predicate KeySurvives(k: string) {
    k != "" && Trimmed(k) && Lower(k) == k && '=' !in k && '\n' !in k && !IsComment(k[0])
  }

  predicate EndsWith(s: string, c: char) { s != "" && s[|s| - 1] == c }

  predicate Quoted(v: string) {
    |v| >= 2 && IsQuote(v[0]) && (v[1] != v[0] || |v| == 2)
  }

  predicate ValueSurvives(v: string) {
    Trimmed(v) && ';' !in v && '#' !in v && !Quoted(v) && !EndsWith(v, '\\')
  }

  // A pair is not taken for a section header.
  predicate NoHeader(k: string, v: string) {
    !(k != "" && k[0] == '[' && EndsWith(v, ']'))
  }

  // ----- The value -----

  lemma QuotedShrinks(v: string)
    requires Quoted(v)
    ensures |ValueOf(v)| < |v|
  {
    hide Strip;
    if v[1] == v[0] {
      StripTrimmed(v) by { assert !IsSpace(v[0]) && !IsSpace(v[1]); }
      assert v == "\"\"" || v == "''";
      assert v[..2] == v;
    }
  }

  lemma UnquotedKept(v: string)
    requires Trimmed(v) && !Quoted(v) && v != "" && !IsComment(v[0])
    ensures var w := Strip(v[..RunExcept(v, {';', '#'})]);
            ValueOf(v) == if w == "\"\"" || w == "''" then "" else w
  {
    hide RunExcept, Strip;
  }

  predicate Uncommented(v: string) { ';' !in v && '#' !in v }

  lemma CommentAt(v: string)
    ensures var n := RunExcept(v, {';', '#'}); Uncommented(v) <==> n == |v|
  {
    var n := RunExcept(v, {';', '#'});
    if n < |v| { assert v[n] in v; }
  }

  lemma UnquotedIff(v: string)
    requires Trimmed(v) && !Quoted(v) && v != "" && !IsComment(v[0])
    ensures |ValueOf(v)| <= |v|
    ensures ValueOf(v) == v <==> Uncommented(v)
  {
    UnquotedKept(v);
    CommentAt(v);
    hide ValueOf, Strip, RunExcept, Uncommented;
    var n := RunExcept(v, {';', '#'});
    if n == |v| {
      assert v[..n] == v;
      StripTrimmed(v);
      EmptyQuotes(v);
    }
  }

  lemma EmptyQuotes(v: string)
    requires !Quoted(v)
    ensures v != "\"\"" && v != "''"
  {}

  lemma CommentOnly(v: string)
    requires v == "" || IsComment(v[0])
    ensures ValueOf(v) == "" && (v != "" ==> !Uncommented(v))
  {}

  /** A trimmed value is read back unchanged exactly when it holds no comment character and is
      not quoted; anything else comes back shorter. */
  lemma ValueOfIff(v: string)
    requires Trimmed(v)
    ensures |ValueOf(v)| <= |v|
    ensures ValueOf(v) == v <==> ';' !in v && '#' !in v && !Quoted(v)
  {
    hide ValueOf, Quoted, Trimmed;
    if Quoted(v) {
      QuotedShrinks(v);
    } else if v == "" || IsComment(v[0]) {
      CommentOnly(v);
    } else {
      UnquotedIff(v);
    }
  }

  // ----- The line -----

  lemma PaddedShape(k: string)
    ensures exists a :: AllSpace(a) && Padded(k) + " " == k + a
  {
    var p := Spaces(if |k| < 30 then 30 - |k| else 0);
    assert Padded(k) + " " == k + (p + " ");
  }

  // What the loader keeps of a printed pair after trimming.
  function Kept(k: string, v: string): string {
    Padded(k) + " =" + (if Strip(v) == "" then "" else " " + TrimRight(v))
  }

  lemma TrimRightOfStrip(v: string) returns (a: string)
    ensures AllSpace(a)
    ensures Strip(v) != "" ==> TrimRight(v) == a + Strip(v)
    ensures Strip(v) == "" ==> AllSpace(v)
  {
    var b;
    a, b := StripSplit(v);
    StripEmpty(v);
    StripIsTrimmed(v);
    if Strip(v) != "" {
      hide Strip, TrimRight, AllSpace;
      var s := a + Strip(v);
      assert s[|s| - 1] == Strip(v)[|Strip(v)| - 1];
      AlreadyTrimmed(s);
      TrimRightSkips(s, b);
    }
  }

  lemma AlreadyTrimmed(s: string)
    requires s != "" && !IsSpace(s[|s| - 1])
    ensures TrimRight(s) == s
  {}

  lemma KeptIsTrimmed(k: string, v: string)
    ensures TrimRight(PairLine(k, Some(v))) == Kept(k, v)
    ensures Kept(k, v) != "" && (Kept(k, v)[|Kept(k, v)| - 1] == if Strip(v) == "" then '=' else Strip(v)[|Strip(v)| - 1])
  {
    hide Padded, Strip, TrimRight;
    var a := TrimRightOfStrip(v);
    StripIsTrimmed(v);
    var t := Kept(k, v);
    if Strip(v) == "" {
      assert PairLine(k, Some(v)) == t + (" " + v + "\n");
      TrimRightAt(PairLine(k, Some(v)), |t|);
    } else {
      TrimRightDrops(v);
      var b := v[|TrimRight(v)|..];
      assert v == TrimRight(v) + b;
      assert PairLine(k, Some(v)) == t + (b + "\n");
      assert t[|t| - 1] == TrimRight(v)[|TrimRight(v)| - 1] == Strip(v)[|Strip(v)| - 1];
      TrimRightAt(PairLine(k, Some(v)), |t|);
    }
  }

  lemma KeptAssignment(k: string, v: string)
    requires KeySurvives(k)
    ensures Assignment(Kept(k, v)) == KeyValue(k, ValueOf(Strip(v)))
  {
    hide ValueOf, Strip, TrimRight, TrimLeft, Padded, Lower;
    var t := Kept(k, v);
    var e := |Padded(k)| + 1;
    PaddedShape(k);
    var a :| AllSpace(a) && Padded(k) + " " == k + a;
    assert t[..e] == k + a && t[e] == '=';
    forall i | 0 <= i < e ensures t[i] != '=' {
      assert t[i] == (k + a)[i];
      if i < |k| { assert k[i] in k; } else { assert IsSpace(a[i - |k|]); }
    }
    RunExceptIs(t, {'='}, e);
    assert "" + k + a == k + a;
    StripUnique("", k, a);
    AfterEquals(k, v);
  }

  lemma AfterEquals(k: string, v: string)
    ensures TrimLeft(Kept(k, v)[|Padded(k)| + 2..]) == Strip(v)
  {
    hide Padded, Strip, TrimRight;
    var rest := Kept(k, v)[|Padded(k)| + 2..];
    var a := TrimRightOfStrip(v);
    StripIsTrimmed(v);
    if Strip(v) == "" {
      assert rest == "";
    } else {
      assert rest == " " + TrimRight(v) == (" " + a) + Strip(v);
      TrimLeftSkips(" " + a, Strip(v));
    }
  }

  lemma KeptShape(k: string, v: string)
    requires KeySurvives(k)
    ensures var t := Kept(k, v);
            t != "" && t[0] == k[0] && Strip(t) == t
            && (t[|t| - 1] == if Strip(v) == "" then '=' else Strip(v)[|Strip(v)| - 1])
  {
    hide Strip, TrimRight;
    KeptIsTrimmed(k, v);
    StripIsTrimmed(v);
    assert Padded(k)[0] == k[0];
    StripTrimmed(Kept(k, v));
  }

  // The grammar's choice for a trimmed line that is not blank or a comment.
  lemma HeaderOrAssignment(t: string, section: string)
    requires t != "" && Strip(t) == t && !IsComment(t[0])
    ensures if t[0] == '[' && t[|t| - 1] == ']' then |t| >= 2 && Meaning(t, section) == Section(Header(t, section))
            else Meaning(t, section) == Assignment(t)
  {
    hide Strip, Assignment, Header;
  }

  /** A printed pair is read as a header when it looks like one, else as its key with whatever
      its value means. */
  lemma PrintedPair(k: string, v: string, section: string)
    requires KeySurvives(k)
    ensures var t := TrimRight(PairLine(k, Some(v)));
            && t != ""
            && (Continues(t) <==> EndsWith(Strip(v), '\\'))
            && (if NoHeader(k, Strip(v)) then Meaning(t, section) == KeyValue(k, ValueOf(Strip(v)))
                else Meaning(t, section).Section?)
  {
    hide Kept, Strip, Assignment, Meaning, ValueOf, PairLine;
    KeptIsTrimmed(k, v);
    KeptShape(k, v);
    KeptAssignment(k, v);
    HeaderOrAssignment(Kept(k, v), section);
  }

  lemma PrintedPairIffValue(k: string, v: string, section: string)
    requires KeySurvives(k)
    ensures var t := TrimRight(PairLine(k, Some(v)));
            !Continues(t) && Meaning(t, section) == KeyValue(k, v) <==> ValueSurvives(v) && NoHeader(k, v)
  {
    hide ValueOf, Meaning, Strip, PairLine, TrimRight, Continues, KeySurvives, Quoted;
    PrintedPair(k, v, section);
    StripIsTrimmed(v);
    ValueOfIff(Strip(v));
    StripShorter(v);
    if Trimmed(v) {
      StripTrimmed(v);
    }
  }

  // A comment is never read as a pair.
  lemma PairIsNoComment(t: string, section: string)
    requires Meaning(t, section).KeyValue?
    ensures Strip(t) != "" && !IsComment(Strip(t)[0])
  {
    hide Strip, Assignment, Header;
  }

  lemma StripKeepsFront(t: string)
    requires t != "" && !IsSpace(t[0])
    ensures Strip(t) != "" && Strip(t)[0] == t[0]
  {
    var a, b := StripSplit(t);
    StripEmpty(t);
  }

  /** A printed pair is read back as itself exactly when its key is non-empty, trimmed,
      lower-case, free of '=' and does not start a comment, its value is trimmed, free of comment
      characters, unquoted and without a trailing backslash, and the line does not look like a
      section header. */
  lemma PrintedPairIff(k: string, v: string, section: string)
    requires '\n' !in k
    ensures var t := TrimRight(PairLine(k, Some(v)));
            !Continues(t) && Meaning(t, section) == KeyValue(k, v) <==>
            KeySurvives(k) && ValueSurvives(v) && NoHeader(k, v)
  {
    hide Meaning, Strip, TrimRight, Continues, ValueSurvives, NoHeader, Padded;
    var t := TrimRight(PairLine(k, Some(v)));
    if Meaning(t, section) == KeyValue(k, v) {
      KeyShape(t, section);
      KeptIsTrimmed(k, v);
      PaddedFront(k);
      assert t[0] == k[0];
      PairIsNoComment(t, section);
      StripKeepsFront(t);
    }
    if KeySurvives(k) {
      PrintedPairIffValue(k, v, section);
    }
  }

  lemma PaddedFront(k: string)
    requires k != ""
    ensures Padded(k) != "" && Padded(k)[0] == k[0]
  {}

  lemma StripShorter(v: string)
    ensures |Strip(v)| < |v| || Strip(v) == v
  {
    var a, b := StripSplit(v);
    if |a| + |b| == 0 {
      assert a + Strip(v) + b == Strip(v);
    }
  }

  // ----- The section header -----

  predicate SectionSurvives(s: string) {
    Trimmed(s) && Lower(s) == s && ']' !in s && '\n' !in s
  }

  lemma HeadLine(name: string)
    ensures TrimRight("[" + name + "]\n") == "[" + name + "]" && !Continues("[" + name + "]")
  {
    hide TrimRight;
    var t := "[" + name + "]";
    assert "[" + name + "]\n" == t + "\n";
    TrimRightAt(t + "\n", |t|);
  }

  // What a printed name without ']' is read as in section `cur`.
  function HeadName(cur: string, name: string): string {
    if name == "" then Lower(Take(Strip(cur), 1)) else Lower(Strip(name))
  }

  lemma HeadReads(name: string, cur: string)
    requires ']' !in name
    ensures Meaning("[" + name + "]", cur) == Section(HeadName(cur, name))
  {
    hide Strip, Lower, Header;
    var t := "[" + name + "]";
    StripTrimmed(t);
    HeaderOrAssignment(t, cur);
    HeadOf(name, cur);
  }

  lemma HeadOf(name: string, cur: string)
    requires ']' !in name
    ensures Header("[" + name + "]", cur) == HeadName(cur, name)
  {
    hide Strip, Lower;
    var t := "[" + name + "]";
    if name == "" {
      assert t == "[]";
    } else {
      assert t == "[" + name + "]" + "";
      HeaderPart(t, cur, name, "");
    }
  }

  lemma PrintedHeader(s: string, section: string)
    requires SectionSurvives(s) && (s != "" || section == "")
    ensures Meaning("[" + s + "]", section) == Section(s)
  {
    hide Lower, Strip;
    HeadReads(s, section);
    StripTrimmed(s);
    if s == "" {
      assert Lower("") == "" by { LowerBlank(); }
    }
  }

  lemma LowerBlank()
    ensures Lower("") == ""
  {}

  /** A printed header is read back as its section exactly when the name is trimmed, lower-case
      and free of ']', and either non-empty or printed while the current section is blank. */
  lemma PrintedHeaderIff(s: string, section: string)
    requires ']' !in section
    ensures Meaning("[" + s + "]", section) == Section(s) <==>
            Trimmed(s) && Lower(s) == s && ']' !in s && (s != "" || Strip(section) == "")
  {
    hide Strip, Lower, Header, Assignment;
    var t := "[" + s + "]";
    StripTrimmed(t);
    HeaderOrAssignment(t, section);
    hide Meaning;
    HeaderOf(s, section);
  }

  lemma HeaderOf(s: string, section: string)
    requires ']' !in section
    ensures Header("[" + s + "]", section) == s <==>
            Trimmed(s) && Lower(s) == s && ']' !in s && (s != "" || Strip(section) == "")
  {
    hide Strip, Lower;
    var t := "[" + s + "]";
    if s == "" {
      assert t[1] == ']';
      assert Take(Strip(section), 1) == "" <==> Strip(section) == "";
    } else if s[0] == ']' {
      assert t[1] == s[0];
      StripWithin(section);
      var cut := Take(Strip(section), |t| - 1);
      assert ']' !in cut;
      LowerKeeps(cut, ']');
      assert s[0] in s;
    } else {
      HeaderInner(s, section);
    }
  }

  lemma HeaderInner(s: string, section: string)
    requires s != "" && s[0] != ']'
    ensures Header("[" + s + "]", section) == s <==> Trimmed(s) && Lower(s) == s && ']' !in s
  {
    hide Strip, Lower;
    if ']' !in s {
      hide Header;
      HeadOf(s, section);
      StripIsTrimmed(s);
      LowerTrimmed(Strip(s));
      LowerIdempotent(Strip(s));
      if Trimmed(s) { StripTrimmed(s); }
    } else {
      CutAtBracket(s);
      assert ("[" + s + "]")[1] == s[0];
      hide RunExcept;
    }
  }

  // A name is read up to its first ']' only.
  lemma CutAtBracket(s: string)
    requires ']' in s
    ensures RunExcept(("[" + s + "]")[1..], {']'}) < |s|
  {
    var t := ("[" + s + "]")[1..];
    assert t == s + "]";
    var i :| 0 <= i < |s| && s[i] == ']';
    assert t[i] == ']';
  }
}
