/** How given lines are read: the grammar from the writer's side. */
module LineReads {
  import opened CStrings
  import opened Scanf
  import opened LineGrammar

  lemma SplitsAtEquals(k: string, rest: string)
    requires '=' !in k
    ensures var l := k + "=" + rest;
            RunExcept(l, {'='}) == |k| < |l| && l[..|k|] == k && l[|k| + 1..] == rest
  {
    var l := k + "=" + rest;
    forall i | 0 <= i < |k| ensures l[i] != '=' { assert l[i] == k[i] && k[i] in k; }
    RunExceptIs(l, {'='}, |k|);
  }

  lemma BlanksHaveNoEquals(k: string, b: string)
    requires '=' !in k && AllSpace(b)
    ensures '=' !in k + b
  {}

  lemma FrontOf(part: string)
    requires Trimmed(part)
    ensures TrimLeft(part) == part
  {}

  lemma AssignmentReads(k: string, b: string, c: string, part: string)
    requires AllSpace(b) && AllSpace(c) && k != "" && Trimmed(k) && '=' !in k && Trimmed(part)
    ensures Assignment(k + b + "=" + (c + part)) == KeyValue(Lower(k), ValueOf(part))
  {
    hide Strip, Lower, ValueOf, TrimLeft, RunExcept;
    BlanksHaveNoEquals(k, b);
    SplitsAtEquals(k + b, c + part);
    assert "" + k + b == k + b;
    StripUnique("", k, b);
    TrimLeftSkips(c, part);
    FrontOf(part);
  }

  // The trimmed line of a pair; blanks behind the '=' of an empty value do not belong to it.
  function PairText(k: string, b: string, c: string, part: string): string {
    k + b + "=" + (if part == "" then "" else c + part)
  }

  lemma PairTextTrimmed(k: string, b: string, c: string, part: string)
    requires AllSpace(b) && AllSpace(c) && k != "" && Trimmed(k) && Trimmed(part)
    ensures var l := PairText(k, b, c, part);
            l != "" && Trimmed(l) && l[0] == k[0] && l[|l| - 1] == if part == "" then '=' else part[|part| - 1]
  {}

  lemma PairTextWithin(p: string, k: string, b: string, c: string, part: string, q: string) returns (q': string)
    requires AllSpace(c) && AllSpace(q)
    ensures AllSpace(q') && p + k + b + "=" + c + part + q == p + PairText(k, b, c, part) + q'
  {
    q' := if part == "" then c + q else q;
  }

  /** A line `key = part`, with blanks anywhere around the three, is read as the lower-cased key with
      the value of the part, unless it looks like a comment or a header. */
  lemma PairReads(p: string, k: string, b: string, c: string, part: string, q: string, section: string)
    requires AllSpace(p) && AllSpace(b) && AllSpace(c) && AllSpace(q) && Trimmed(k) && Trimmed(part)
    requires k != "" && '=' !in k && k[0] !in {'#', ';'}
    requires !(k[0] == '[' && part != "" && part[|part| - 1] == ']')
    ensures Meaning(p + k + b + "=" + c + part + q, section) == KeyValue(Lower(k), ValueOf(part))
  {
    hide Strip, Lower, ValueOf, Assignment, PairText, AllSpace, Trimmed;
    var l := PairText(k, b, c, part);
    var q' := PairTextWithin(p, k, b, c, part, q);
    PairTextTrimmed(k, b, c, part);
    StripUnique(p, l, q');
    PairTextReads(k, b, c, part);
  }

  lemma PairTextReads(k: string, b: string, c: string, part: string)
    requires AllSpace(b) && AllSpace(c) && k != "" && Trimmed(k) && '=' !in k && Trimmed(part)
    ensures Assignment(PairText(k, b, c, part)) == KeyValue(Lower(k), ValueOf(part))
  {
    hide Lower, ValueOf, Assignment;
    if part == "" {
      AssignmentReads(k, b, "", "");
      assert "" + "" == "";
    } else {
      AssignmentReads(k, b, c, part);
    }
  }

  // A comment up to the end of the line, or nothing.
  predicate Remark(s: string) { s == "" || s[0] in {'#', ';'} }

  lemma RunToRemark(u: string, d: string, s: string)
    requires '#' !in u && ';' !in u && AllSpace(d) && Remark(s)
    ensures (u + d + s)[..RunExcept(u + d + s, {';', '#'})] == u + d
  {
    var t, n := u + d + s, |u| + |d|;
    forall i | 0 <= i < n ensures t[i] !in {';', '#'} {
      if i < |u| {
        assert t[i] == u[i] && u[i] in u;
      } else {
        assert t[i] == d[i - |u|] && IsSpace(t[i]);
      }
    }
    RunExceptIs(t, {';', '#'}, n);
  }

  /** A plain value ends before the blanks in front of a comment. */
  lemma PlainValueReads(u: string, d: string, s: string)
    requires Trimmed(u) && '#' !in u && ';' !in u && AllSpace(d) && Remark(s)
    requires u != "" && u[0] !in {'"', '\''}
    ensures ValueOf(u + d + s) == u
  {
    hide Strip, RunExcept;
    var t := u + d + s;
    assert t[0] == u[0] && u[0] in u;
    RunToRemark(u, d, s);
    assert "" + u + d == u + d;
    StripUnique("", u, d);
  }

  /** Two quotes with nothing between them are the empty value, and so is nothing at all. */
  lemma EmptyValueReads(d: string, s: string)
    requires AllSpace(d) && Remark(s)
    ensures ValueOf("\"\"" + d + s) == "" && ValueOf("''" + d + s) == "" && ValueOf(s) == ""
  {
    hide Strip, RunExcept;
    EmptyQuotesRead("\"\"", d, s);
    EmptyQuotesRead("''", d, s);
  }

  lemma EmptyQuotesRead(u: string, d: string, s: string)
    requires u in {"\"\"", "''"} && AllSpace(d) && Remark(s)
    ensures ValueOf(u + d + s) == ""
  {
    hide Strip, RunExcept;
    var t := u + d + s;
    assert t[0] == u[0] && t[1] == u[1] && '#' !in u && ';' !in u && Trimmed(u);
    RunToRemark(u, d, s);
    assert "" + u + d == u + d;
    StripUnique("", u, d);
  }

  /** A quoted value is everything up to the next quote of its kind, comment characters and blanks
      included; what follows is ignored, and the closing quote may be missing. */
  lemma QuotedValueReads(q: char, v: string, s: string)
    requires q in {'"', '\''} && v != "" && q !in v && (s == "" || s[0] == q)
    ensures ValueOf([q] + v + s) == v
  {
    hide Strip;
    var t := [q] + v + s;
    assert t[1] == v[0] && v[0] in v;
    assert t[1..] == v + s;
    forall i | 0 <= i < |v| ensures (v + s)[i] != q { assert v[i] in v; }
    RunExceptIs(t[1..], {q}, |v|);
    assert t[1..1 + |v|] == v;
  }

  lemma EmptyHeaderOf(rest: string, s: string, section: string)
    requires Strip(section) == s
    ensures Header("[]" + rest, section) == Lower(if |s| <= 1 + |rest| then s else s[..1 + |rest|])
  {
    hide Strip, Lower, RunExcept;
    assert ("[]" + rest)[1] == ']';
  }

  lemma BracketsTrimmed(rest: string)
    requires rest == "" || rest[|rest| - 1] == ']'
    ensures var l := "[]" + rest; l[0] == '[' && l[|l| - 1] == ']' && Trimmed(l)
  {}

  /** A line between brackets whose second character is ']' keeps the section, cut and lower-cased:
      one character stays for the line's second, and one for each behind it. */
  lemma EmptyHeaderReads(p: string, rest: string, q: string, s: string, section: string)
    requires AllSpace(p) && AllSpace(q) && (rest == "" || rest[|rest| - 1] == ']') && Strip(section) == s
    ensures Meaning(p + ("[]" + rest) + q, section) ==
            Section(Lower(if |s| <= 1 + |rest| then s else s[..1 + |rest|]))
  {
    hide Strip, Lower, Header, Assignment, AllSpace, Trimmed;
    var l := "[]" + rest;
    BracketsTrimmed(rest);
    StripUnique(p, l, q);
    EmptyHeaderOf(rest, s, section);
  }
}
