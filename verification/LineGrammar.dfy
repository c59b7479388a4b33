/** What a line of an INI file means, stated without scanning: the grammar that the ordered
    sscanf alternatives of iniparser_line implement. */
module LineGrammar {
  import opened CStrings
  import opened Scanf

  datatype Line =
    | Empty
    | Comment
    | Section(name: string)
    | KeyValue(key: string, value: string)
    | Error

  predicate IsQuote(c: char) { c == '"' || c == '\'' }

  predicate IsComment(c: char) { c == '#' || c == ';' }

  // A value in quotes, unless the quotes are empty.
  predicate OpensQuote(rest: string) {
    |rest| >= 2 && IsQuote(rest[0]) && rest[1] != rest[0]
  }

  // The text after the '=' and the blanks behind it.
  function ValueOf(rest: string): string {
    if OpensQuote(rest) then
      rest[1..1 + RunExcept(rest[1..], {rest[0]})]
    else if rest == "" || IsComment(rest[0]) then
      ""
    else
      var v := Strip(rest[..RunExcept(rest, {';', '#'})]);
      if v == "\"\"" || v == "''" then "" else v
  }

  // A trimmed non-empty line that is neither a comment nor a section.
  function Assignment(l: string): Line {
    var e := RunExcept(l, {'='});
    if e == 0 || e == |l| then Error
    else KeyValue(Lower(Strip(l[..e])), ValueOf(TrimLeft(l[e + 1..])))
  }

  // A trimmed line between brackets. When the second character is ']' the scan fails and the
  // current section is kept, but cut to |l| - 1 characters.
  function Header(l: string, section: string): string
    requires |l| >= 2
  {
    if l[1] == ']' then Lower(Take(Strip(section), |l| - 1))
    else Lower(Strip(l[1..1 + RunExcept(l[1..], {']'})]))
  }

  function TrimmedMeaning(l: string, section: string): Line {
    if l == "" then Empty
    else if IsComment(l[0]) then Comment
    else if l[0] == '[' && l[|l| - 1] == ']' then Section(Header(l, section))
    else Assignment(l)
  }

  function Meaning(text: string, section: string): Line {
    TrimmedMeaning(Strip(text), section)
  }

  // ----- Facts about the grammar -----

  // The key of an assignment, before lower-casing.
  lemma RawKeyShape(l: string, e: nat)
    requires 0 < e < |l| && Trimmed(l) && (forall i :: 0 <= i < e ==> l[i] != '=')
    ensures var k := Strip(l[..e]); k != "" && Trimmed(k) && '=' !in k && |k| < |l|
  {
    StripWithin(l[..e]);
    StripEmpty(l[..e]);
    StripIsTrimmed(l[..e]);
    assert !IsSpace(l[..e][0]);
  }

  lemma LowerKeeps(s: string, c: char)
    requires c !in s && !('a' <= c <= 'z')
    ensures c !in Lower(s)
  {}

  lemma AssignmentSplits(l: string)
    ensures Assignment(l).KeyValue? <==> 0 < RunExcept(l, {'='}) < |l|
  {
    hide Strip, Lower, ValueOf, TrimLeft, RunExcept;
  }

  lemma AssignmentKeyShape(l: string)
    requires Trimmed(l) && 0 < RunExcept(l, {'='}) < |l|
    ensures var k := Assignment(l).key;
            k != "" && Trimmed(k) && Lower(k) == k && '=' !in k && |k| < |l|
  {
    var e := RunExcept(l, {'='});
    var k := Strip(l[..e]);
    RawKeyShape(l, e);
    LowerTrimmed(k);
    LowerIdempotent(k);
    LowerKeeps(k, '=');
  }

  /** A parsed key is non-empty, trimmed, lower-case and free of '='. */
  lemma KeyShape(text: string, section: string)
    requires Meaning(text, section).KeyValue?
    ensures var k := Meaning(text, section).key;
            k != "" && Trimmed(k) && Lower(k) == k && '=' !in k && |k| < |Strip(text)|
  {
    hide Strip, Assignment;
    StripIsTrimmed(text);
    AssignmentSplits(Strip(text));
    AssignmentKeyShape(Strip(text));
  }

  lemma EqualsFirst(l: string)
    ensures var e := RunExcept(l, {'='});
            && (e == |l| <==> '=' !in l)
            && (e == 0 <==> l == "" || l[0] == '=')
  {
    var e := RunExcept(l, {'='});
    if e < |l| { assert l[e] in l; }
  }

  // Stripped of blanks, a line that starts a comment.
  predicate CommentLine(text: string) {
    var l := Strip(text); l != "" && l[0] in {'#', ';'}
  }

  // Stripped of blanks, a line between brackets.
  predicate HeaderLine(text: string) {
    var l := Strip(text); l != "" && l[0] == '[' && l[|l| - 1] == ']'
  }

  // Stripped of blanks, a line that is neither and has nothing before its first '=', or no '='.
  predicate BadLine(text: string) {
    var l := Strip(text);
    l != "" && !CommentLine(text) && !HeaderLine(text) && ('=' !in l || l[0] == '=')
  }

  /** Which status a line gets, whatever the section. */
  lemma StatusIff(text: string, section: string)
    ensures Meaning(text, section).Empty? <==> AllSpace(text)
    ensures Meaning(text, section).Comment? <==> CommentLine(text)
    ensures Meaning(text, section).Section? <==> HeaderLine(text)
    ensures Meaning(text, section).Error? <==> BadLine(text)
    ensures Meaning(text, section).KeyValue? <==>
              !AllSpace(text) && !CommentLine(text) && !HeaderLine(text) && !BadLine(text)
  {
    hide Strip, Header, RunExcept, Lower, ValueOf, AllSpace;
    StripEmpty(text);
    EqualsFirst(Strip(text));
  }

  // The text behind the first '=' and the blanks after it.
  function ValuePart(l: string): string {
    var e := RunExcept(l, {'='});
    if e == |l| then "" else TrimLeft(l[e + 1..])
  }

  lemma UnquotedShape(rest: string)
    requires !OpensQuote(rest)
    ensures Trimmed(ValueOf(rest)) && ';' !in ValueOf(rest) && '#' !in ValueOf(rest)
  {
    hide RunExcept, Strip;
    var n := RunExcept(rest, {';', '#'});
    StripIsTrimmed(rest[..n]);
    StripWithin(rest[..n]);
    UncommentedPart(rest);
  }

  lemma UncommentedPart(rest: string)
    ensures var v := rest[..RunExcept(rest, {';', '#'})]; ';' !in v && '#' !in v
  {}

  lemma QuotedShape(rest: string)
    requires OpensQuote(rest)
    ensures var v := ValueOf(rest);
            rest[0] !in v && [rest[0]] + v <= rest && (|v| + 1 < |rest| ==> rest[|v| + 1] == rest[0])
  {
    hide RunExcept;
    var n := RunExcept(rest[1..], {rest[0]});
    assert rest == [rest[0]] + rest[1..];
    assert rest[1..][..n] == rest[1..1 + n];
  }

  lemma AssignmentValue(l: string)
    requires Assignment(l).KeyValue?
    ensures Assignment(l).value == ValueOf(ValuePart(l))
  {
    hide Strip, Lower, ValueOf, TrimLeft, RunExcept;
  }

  /** A parsed value is either everything between a quote and the next one of its kind, or trimmed
      and free of ';' and '#'. */
  lemma ValueShape(text: string, section: string)
    requires Meaning(text, section).KeyValue?
    ensures var part, v := ValuePart(Strip(text)), Meaning(text, section).value;
            if OpensQuote(part)
            then part[0] !in v && [part[0]] + v <= part && (|v| + 1 < |part| ==> part[|v| + 1] == part[0])
            else Trimmed(v) && ';' !in v && '#' !in v
  {
    hide Strip, Assignment, ValueOf, ValuePart, Header;
    AssignmentValue(Strip(text));
    var part := ValuePart(Strip(text));
    if OpensQuote(part) {
      QuotedShape(part);
    } else {
      UnquotedShape(part);
    }
  }

  lemma HeaderPart(l: string, section: string, inner: string, after: string)
    requires l == "[" + inner + "]" + after && inner != "" && ']' !in inner
    ensures Header(l, section) == Lower(Strip(inner))
  {
    hide Lower, Strip;
    var t := inner + ("]" + after);
    assert l == "[" + t;
    assert l[1..] == t;
    assert t[|inner|] == ']';
    RunExceptIs(t, {']'}, |inner|);
    assert l[1..1 + |inner|] == t[..|inner|] == inner;
    assert l[1] == inner[0];
  }

  /** A line between brackets names the trimmed, lower-cased text before its first ']', unless that
      is its second character. */
  lemma HeaderShape(text: string, section: string, inner: string, after: string)
    requires Strip(text) == "[" + inner + "]" + after && inner != "" && ']' !in inner
    requires after == "" || after[|after| - 1] == ']'
    ensures Meaning(text, section) == Section(Lower(Strip(inner)))
  {
    hide Lower, Strip, Header, Assignment;
    HeaderPart(Strip(text), section, inner, after);
  }

  // A line names nothing longer than itself, so no stored key overflows the 2049-byte `tmp`.
  lemma MeaningFits(text: string, section: string)
    ensures Meaning(text, section).Section? ==> |Meaning(text, section).name| < |Strip(text)|
    ensures Meaning(text, section).KeyValue? ==> |Meaning(text, section).key| < |Strip(text)|
  {
    hide Strip, Header;
    var l := Strip(text);
    if Meaning(text, section).KeyValue? {
      KeyShape(text, section);
    } else if |l| >= 2 {
      HeaderFits(l, section);
    }
  }

  lemma HeaderFits(l: string, section: string)
    requires |l| >= 2
    ensures |Header(l, section)| < |l|
  {}

  // An empty header opens the section named by the first letter of the current one.
  lemma EmptyHeader(section: string)
    ensures Meaning("[]", section) == Section(Lower(Take(Strip(section), 1)))
  {
    hide Strip, Lower, Assignment, RunExcept;
    StripTrimmed("[]");
  }

  /** A file that says `[]` inside a section named `ab` opens a section `a`. */
  lemma EmptyHeaderKeepsALetter()
    ensures Meaning("[]", "ab") == Section("a")
  {
    hide Meaning, Strip;
    EmptyHeader("ab");
    StripTrimmed("ab");
    assert Lower("a") == "a";
  }

  lemma RunExceptIs(s: string, chars: set<char>, n: nat)
    requires n <= |s| && (forall i :: 0 <= i < n ==> s[i] !in chars) && (n < |s| ==> s[n] in chars)
    ensures RunExcept(s, chars) == n
  {}

  lemma StripWithin(s: string)
    ensures forall c :: c in Strip(s) ==> c in s
  {
    var a, b := StripSplit(s);
    forall c | c in Strip(s) ensures c in a + Strip(s) + b {}
  }

  lemma StripEmpty(s: string)
    ensures Strip(s) == "" <==> AllSpace(s)
  {
    var a, b := StripSplit(s);
    if Strip(s) == "" {
      assert forall i :: 0 <= i < |s| ==> IsSpace((a + "" + b)[i]);
    } else {
      StripIsTrimmed(s);
      assert s[|a|] == Strip(s)[0];
    }
  }
}
