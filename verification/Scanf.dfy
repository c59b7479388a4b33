/** sscanf restricted to the directives iniparser.c uses, after section 7.19.6.2 of ISO C99. */
module Scanf {
  import opened CStrings

  datatype Format =
    | End
    | Blank(rest: Format)                  // white space: skips any amount of white space
    | Literal(c: char, rest: Format)       // must be the next character
    | Among(chars: set<char>, rest: Format)   // %[chars]: a non-empty run of these, assigned
    | Except(chars: set<char>, rest: Format)  // %[^chars]: a non-empty run of others, assigned

  // How far a string runs before its first character out of (or in) a set.
  function RunAmong(s: string, chars: set<char>): (n: nat)
    ensures n <= |s|
    ensures forall i :: 0 <= i < n ==> s[i] in chars
    ensures n < |s| ==> s[n] !in chars
  {
    if s != "" && s[0] in chars then 1 + RunAmong(s[1..], chars) else 0
  }

  function RunExcept(s: string, chars: set<char>): (n: nat)
    ensures n <= |s|
    ensures forall i :: 0 <= i < n ==> s[i] !in chars
    ensures n < |s| ==> s[n] in chars
  {
    if s != "" && s[0] !in chars then 1 + RunExcept(s[1..], chars) else 0
  }

  // The strings assigned before the first matching or input failure.
  function Scan(f: Format, s: string): seq<string>
    decreases f
  {
    match f
    case End => []
    case Blank(rest) => Scan(rest, TrimLeft(s))
    case Literal(c, rest) => if s != "" && s[0] == c then Scan(rest, s[1..]) else []
    case Among(chars, rest) =>
      var n := RunAmong(s, chars);
      if n == 0 then [] else [s[..n]] + Scan(rest, s[n..])
    case Except(chars, rest) =>
      var n := RunExcept(s, chars);
      if n == 0 then [] else [s[..n]] + Scan(rest, s[n..])
  }

  // The number of `%[` conversions in a format bounds what it assigns.
  function Conversions(f: Format): nat {
    match f
    case End => 0
    case Blank(rest) => Conversions(rest)
    case Literal(_, rest) => Conversions(rest)
    case Among(_, rest) => 1 + Conversions(rest)
    case Except(_, rest) => 1 + Conversions(rest)
  }

  lemma {:induction false} ScanFits(f: Format, s: string)
    requires NulFree(s)
    ensures |Scan(f, s)| <= Conversions(f)
    ensures forall w :: w in Scan(f, s) ==> 0 < |w| <= |s| && NulFree(w)
    decreases f
  {
    match f
    case End =>
    case Blank(rest) => ScanFits(rest, TrimLeft(s));
    case Literal(c, rest) => if s != "" { ScanFits(rest, s[1..]); }
    case Among(chars, rest) => ScanFits(rest, s[RunAmong(s, chars)..]);
    case Except(chars, rest) => ScanFits(rest, s[RunExcept(s, chars)..]);
  }

  // ----- The formats of iniparser.c -----

  const SECTION: Format := Literal('[', Except({']'}, End))

  // Every key scan starts with `%[^=] =` and a blank, then reads the value.
  function KeyThen(value: Format): Format {
    Except({'='}, Blank(Literal('=', Blank(value))))
  }

  function QuotedBy(quote: char): Format {
    KeyThen(Literal(quote, Except({quote}, Literal(quote, End))))
  }
  const UNQUOTED: Format := KeyThen(Except({';', '#'}, End))
  const COMMENTED: Format := KeyThen(Among({';', '#'}, End))
  const BARE: Format := Except({'='}, Blank(Among({'='}, End)))
}
