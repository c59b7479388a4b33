/** If a dump loads back to its own map, every printed line assigns its own entry: the argument
    over the sequence of lines, free of text. */
module Permutation {
  import opened Options
  import opened CStrings
  import opened Slots
  import opened LineGrammar
  import opened PrintedLines
  import opened Printer
  import opened DumpRows

  type Pairs = seq<(string, Option<string>)>

  // What a printed line assigns when it is read in section `cur`, and the section after it. A
  // pair with a non-empty value may be taken for a section header, and a header may be read as
  // another name.
  ghost predicate Assigns(cur: string, it: Item, p: (string, Option<string>), after: string) {
    match it
    case Head(name) => p == (HeadName(cur, name), None) && after == p.0
    case Member(_, k, v) => AssignsPair(cur, k, v, p, after) || (TextOf(v) != "" && p.1 == None && after == p.0)
  }

  ghost predicate AssignsPair(cur: string, k: string, v: Option<string>, p: (string, Option<string>), after: string) {
    after == cur && exists u :: ReadAs(u, k, v) && p == (cur + ":" + k, Some(ValueOf(Strip(u))))
  }

  // The text a pair's value was read from: whole, or without trailing backslashes.
  ghost predicate ReadAs(u: string, k: string, v: Option<string>) {
    Shortened(u, v) && NoHeader(k, Strip(u)) && !EndsWith(Strip(u), '\\')
  }

  // The section line i is printed under, when the lines start in section `cur`.
  function Context(cur: string, items: seq<Item>, i: nat): string
    requires i <= |items|
  {
    if i == 0 then cur else if items[i - 1].Head? then items[i - 1].name else Context(cur, items, i - 1)
  }

  /** n printed lines that assign n distinct keys, the keys and values of m, which are also the
      keys of the lines' own items. */
  ghost predicate Rearranged(items: seq<Item>, ps: Pairs, curs: seq<string>, m: Entries) {
    && |ps| == |items| && |curs| == |items| + 1 && curs[0] == ""
    && (forall i :: 0 <= i < |items| ==> Assigns(curs[i], items[i], ps[i], curs[i + 1]))
    && (forall i, j :: 0 <= i < j < |ps| ==> ps[i].0 != ps[j].0)
    && (forall i :: 0 <= i < |ps| ==> ps[i].0 in m && m[ps[i].0] == ps[i].1)
    && (forall i :: 0 <= i < |items| ==> OwnEntry(items, i, m))
    && (forall k :: k in m ==> exists i :: 0 <= i < |items| && KeyOf(items[i]) == k)
  }

  // An item is an entry of m, under the section it is printed in.
  ghost predicate OwnEntry(items: seq<Item>, i: nat, m: Entries)
    requires i < |items|
  {
    match items[i]
    case Head(name) => ':' !in name
    case Member(section, k, v) =>
      && k != "" && ':' !in section && section == Context("", items, i)
      && KeyOf(items[i]) in m && m[KeyOf(items[i])] == v
  }

  // A pair that was read as a header.
  predicate Turned(items: seq<Item>, ps: Pairs, i: nat)
    requires i < |items| == |ps|
  {
    items[i].Member? && ps[i].1 == None
  }

  lemma KeyColon(it: Item)
    ensures it.Member? ==> ':' in KeyOf(it)
  {
    if it.Member? {
      assert KeyOf(it)[|it.section|] == ':';
    }
  }

  lemma SameLine(items: seq<Item>, ps: Pairs, curs: seq<string>, m: Entries, i: nat, j: nat)
    requires Rearranged(items, ps, curs, m) && i < |ps| && j < |ps| && ps[i].0 == ps[j].0
    ensures i == j
  {}

  lemma HeadReadAs(items: seq<Item>, ps: Pairs, curs: seq<string>, m: Entries, i: nat)
    requires Rearranged(items, ps, curs, m) && i < |items| && items[i].Head?
    ensures ps[i].0 == HeadName(curs[i], items[i].name) == curs[i + 1] && ':' !in items[i].name
  {
    assert Assigns(curs[i], items[i], ps[i], curs[i + 1]) && OwnEntry(items, i, m);
  }

  // A name that some line assigns is printed.
  lemma PrintedAs(items: seq<Item>, ps: Pairs, curs: seq<string>, m: Entries, i: nat) returns (j: nat)
    requires Rearranged(items, ps, curs, m) && i < |items| && ps[i].0 != ":"
    ensures j < |items| && KeyOf(items[j]) == ps[i].0
    ensures ':' !in ps[i].0 ==> items[j].Head?
  {
    hide Assigns, OwnEntry;
    j :| 0 <= j < |items| && KeyOf(items[j]) == ps[i].0;
    KeyColon(items[j]);
  }

  // No pair has an empty key.
  lemma NoLoneColon(items: seq<Item>, ps: Pairs, curs: seq<string>, m: Entries, i: nat)
    requires Rearranged(items, ps, curs, m) && i < |items|
    ensures ps[i].0 != ":"
  {
    hide Assigns;
    var j :| 0 <= j < |items| && KeyOf(items[j]) == ps[i].0;
    assert OwnEntry(items, j, m);
  }

  // A name that reads as itself in every section.
  lemma FixedName(cur: string, name: string)
    ensures name != "" && Lower(Strip(name)) == name ==> HeadName(cur, name) == name
    ensures name == "" ==> HeadName(cur, name) == "" || (|HeadName(cur, name)| == 1 && !IsSpace(HeadName(cur, name)[0]))
    ensures var h := HeadName(cur, name); Lower(h) == h && (name != "" ==> Strip(h) == h)
  {
    hide Strip, Lower;
    StripIsTrimmed(cur);
    StripIsTrimmed(name);
    LowerTrimmed(Strip(name));
    LowerIdempotent(Strip(name));
    LowerIdempotent(Take(Strip(cur), 1));
    if name != "" { StripTrimmed(HeadName(cur, name)); }
  }

  lemma OneLetter(c: string)
    requires |c| == 1 && !IsSpace(c[0])
    ensures Strip(c) == c
  {
    StripTrimmed(c);
  }

  // The empty name reads as itself: the one letter it could leave of a section is printed by a
  // line of its own.
  lemma EmptyHeadAssignsName(items: seq<Item>, ps: Pairs, curs: seq<string>, m: Entries, i: nat)
    requires Rearranged(items, ps, curs, m) && i < |items| && items[i] == Head("")
    ensures ps[i].0 == ""
  {
    hide Rearranged, HeadName;
    Sizes(items, ps, curs, m);
    HeadReadAs(items, ps, curs, m, i);
    FixedName(curs[i], "");
    var c := ps[i].0;
    if c != "" {
      NoLoneColon(items, ps, curs, m, i);
      var j := PrintedAs(items, ps, curs, m, i);
      OneLetter(c);
      HeadReadAs(items, ps, curs, m, j);
      FixedName(curs[j], c);
      SameLine(items, ps, curs, m, i, j);
    }
  }

  /** Every printed name reads as itself: what it reads as is also printed, and reads as itself. */
  lemma HeadAssignsName(items: seq<Item>, ps: Pairs, curs: seq<string>, m: Entries, i: nat)
    requires Rearranged(items, ps, curs, m) && i < |items| && items[i].Head?
    ensures ps[i].0 == KeyOf(items[i]) && curs[i + 1] == items[i].name
  {
    hide Rearranged, HeadName;
    Sizes(items, ps, curs, m);
    var name := items[i].name;
    HeadReadAs(items, ps, curs, m, i);
    if name == "" {
      EmptyHeadAssignsName(items, ps, curs, m, i);
    } else {
      FixedName(curs[i], name);
      NameKeepsNoColon(curs[i], name);
      NoLoneColon(items, ps, curs, m, i);
      var j := PrintedAs(items, ps, curs, m, i);
      var s := ps[i].0;
      HeadReadAs(items, ps, curs, m, j);
      if s == "" {
        EmptyHeadAssignsName(items, ps, curs, m, j);
      } else {
        FixedName(curs[j], s);
      }
      SameLine(items, ps, curs, m, i, j);
    }
  }

  lemma NameKeepsNoColon(cur: string, name: string)
    requires ':' !in name && name != ""
    ensures ':' !in HeadName(cur, name)
  {
    hide Strip, Lower;
    StripWithin(name);
    LowerKeeps(Strip(name), ':');
  }

  // A header made up from a pair names a key with a colon, as the plain names are taken.
  lemma TurnedHasColon(items: seq<Item>, ps: Pairs, curs: seq<string>, m: Entries, j: nat)
    requires Rearranged(items, ps, curs, m) && j < |items| && Turned(items, ps, j)
    ensures ':' in ps[j].0
  {
    hide Assigns, OwnEntry;
    var i :| 0 <= i < |items| && KeyOf(items[i]) == ps[j].0;
    KeyColon(items[i]);
    if items[i].Head? {
      HeadAssignsName(items, ps, curs, m, i);
    }
  }

  lemma PairAssigns(items: seq<Item>, ps: Pairs, curs: seq<string>, m: Entries, i: nat)
    requires Rearranged(items, ps, curs, m) && i < |items| && items[i].Member? && !Turned(items, ps, i)
    ensures AssignsPair(curs[i], items[i].k, items[i].v, ps[i], curs[i + 1])
  {
    assert Assigns(curs[i], items[i], ps[i], curs[i + 1]);
  }

  lemma TurnedAssigns(items: seq<Item>, ps: Pairs, curs: seq<string>, m: Entries, i: nat)
    requires Rearranged(items, ps, curs, m) && i < |items| && Turned(items, ps, i)
    ensures curs[i + 1] == ps[i].0 && TextOf(items[i].v) != ""
  {
    assert Assigns(curs[i], items[i], ps[i], curs[i + 1]);
  }

  // The current section is the one printed, or a made-up one with a colon.
  lemma {:induction false} CurrentSection(items: seq<Item>, ps: Pairs, curs: seq<string>, m: Entries, i: nat)
    requires Rearranged(items, ps, curs, m) && i <= |items|
    ensures curs[i] == Context("", items, i) || ':' in curs[i]
    decreases i
  {
    hide Rearranged;
    if i == 0 {
      assert curs[0] == "" by { StartsEmpty(items, ps, curs, m); }
    } else {
      CurrentSection(items, ps, curs, m, i - 1);
      assert i - 1 < |items| == |ps| by { Sizes(items, ps, curs, m); }
      if items[i - 1].Head? {
        HeadAssignsName(items, ps, curs, m, i - 1);
      } else if Turned(items, ps, i - 1) {
        TurnedAssigns(items, ps, curs, m, i - 1);
        TurnedHasColon(items, ps, curs, m, i - 1);
      } else {
        PairAssigns(items, ps, curs, m, i - 1);
      }
    }
  }

  lemma Sizes(items: seq<Item>, ps: Pairs, curs: seq<string>, m: Entries)
    requires Rearranged(items, ps, curs, m)
    ensures |ps| == |items| && |curs| == |items| + 1
  {}

  lemma StartsEmpty(items: seq<Item>, ps: Pairs, curs: seq<string>, m: Entries)
    requires Rearranged(items, ps, curs, m)
    ensures |curs| > 0 && curs[0] == ""
  {}

  // ----- Colons -----

  function Colons(s: string): nat {
    if s == "" then 0 else (if s[0] == ':' then 1 else 0) + Colons(s[1..])
  }

  lemma {:induction false} ColonsAppend(a: string, b: string)
    ensures Colons(a + b) == Colons(a) + Colons(b)
  {
    if a == "" {
      assert a + b == b;
    } else {
      assert (a + b)[1..] == a[1..] + b;
      ColonsAppend(a[1..], b);
    }
  }

  lemma {:induction false} ColonsZero(s: string)
    ensures Colons(s) == 0 <==> ':' !in s
  {
    if s != "" {
      ColonsZero(s[1..]);
      assert s == [s[0]] + s[1..];
    }
  }

  function AllColons(items: seq<Item>): nat {
    if items == [] then 0 else Colons(KeyOf(items[0])) + AllColons(items[1..])
  }

  lemma {:induction false} AllColonsBound(items: seq<Item>, i: nat)
    requires i < |items|
    ensures Colons(KeyOf(items[i])) <= AllColons(items)
  {
    hide Colons, KeyOf;
    if i > 0 {
      AllColonsBound(items[1..], i - 1);
    }
  }

  lemma MoreColons(section: string, cur: string, k: string)
    requires ':' !in section && ':' in cur
    ensures Colons(cur + ":" + k) > Colons(section + ":" + k)
  {
    ColonsAppend(cur + ":", k);
    ColonsAppend(cur, ":");
    ColonsAppend(section + ":", k);
    ColonsAppend(section, ":");
    ColonsZero(section);
    ColonsZero(cur);
  }

  // ----- No line is out of place -----

  lemma EmptyAssigns(cur: string, k: string, v: Option<string>, p: (string, Option<string>), after: string)
    requires AssignsPair(cur, k, v, p, after) && TextOf(v) == ""
    ensures p == (cur + ":" + k, Some(""))
  {
    var u :| ReadAs(u, k, v) && p == (cur + ":" + k, Some(ValueOf(Strip(u))));
    assert u == "" && Strip("") == "";
  }

  /** A pair with an empty value is read in its own section: else it would create a key with more
      colons that has an empty value too, and so on without end. */
  lemma {:induction false} EmptyInPlace(items: seq<Item>, ps: Pairs, curs: seq<string>, m: Entries, i: nat)
    requires Rearranged(items, ps, curs, m) && i < |items| && items[i].Member? && TextOf(items[i].v) == ""
    ensures curs[i] == items[i].section
    ensures ps[i] == (KeyOf(items[i]), Some(""))
    decreases AllColons(items) - Colons(KeyOf(items[i]))
  {
    hide Assigns, Colons, AllColons, ValueOf, Strip;
    assert !Turned(items, ps, i) by {
      if Turned(items, ps, i) { TurnedAssigns(items, ps, curs, m, i); }
    }
    PairAssigns(items, ps, curs, m, i);
    EmptyAssigns(curs[i], items[i].k, items[i].v, ps[i], curs[i + 1]);
    CurrentSection(items, ps, curs, m, i);
    assert OwnEntry(items, i, m);
    if curs[i] != items[i].section {
      var key := ps[i].0;
      MoreColons(items[i].section, curs[i], items[i].k);
      var j :| 0 <= j < |items| && KeyOf(items[j]) == key;
      AllColonsBound(items, j);
      assert OwnEntry(items, j, m);
      assert key[|curs[i]|] == ':';
      assert items[j].Member?;
      EmptyInPlace(items, ps, curs, m, j);
      SameLine(items, ps, curs, m, i, j);
    }
  }

  /** So no pair was read as a header. */
  lemma NoneTurned(items: seq<Item>, ps: Pairs, curs: seq<string>, m: Entries, i: nat)
    requires Rearranged(items, ps, curs, m) && i < |items|
    ensures !Turned(items, ps, i)
  {
    hide Assigns;
    if Turned(items, ps, i) {
      TurnedHasColon(items, ps, curs, m, i);
      var key := ps[i].0;
      var j :| 0 <= j < |items| && KeyOf(items[j]) == key;
      assert OwnEntry(items, j, m);
      assert items[j].Member?;
      EmptyInPlace(items, ps, curs, m, j);
    }
  }

  lemma {:induction false} InPlace(items: seq<Item>, ps: Pairs, curs: seq<string>, m: Entries, i: nat)
    requires Rearranged(items, ps, curs, m) && i <= |items|
    ensures curs[i] == Context("", items, i)
    decreases i
  {
    hide Assigns, OwnEntry;
    if i > 0 {
      InPlace(items, ps, curs, m, i - 1);
      if items[i - 1].Head? {
        HeadAssignsName(items, ps, curs, m, i - 1);
      } else {
        NoneTurned(items, ps, curs, m, i - 1);
        PairAssigns(items, ps, curs, m, i - 1);
      }
    }
  }

  lemma ValueNotLonger(u: string)
    ensures |ValueOf(Strip(u))| <= |u|
  {
    hide ValueOf, Strip;
    StripIsTrimmed(u);
    ValueOfIff(Strip(u));
    StripShorter(u);
  }

  lemma WholeValue(k: string, v: Option<string>, u: string)
    requires ReadAs(u, k, v) && v == Some(ValueOf(Strip(u)))
    ensures ValueSurvives(v.value) && NoHeader(k, v.value)
  {
    hide ValueOf, Strip, Quoted;
    ValueNotLonger(u);
    StripIsTrimmed(u);
    ValueOfIff(Strip(u));
    StripShorter(u);
  }

  /** No printed name has a blank at either end. */
  lemma NamesTrimmed(items: seq<Item>, ps: Pairs, curs: seq<string>, m: Entries, i: nat)
    requires Rearranged(items, ps, curs, m) && i < |items| && items[i].Head?
    ensures Trimmed(items[i].name)
  {
    hide Rearranged, Strip, Lower;
    HeadReadAs(items, ps, curs, m, i);
    HeadAssignsName(items, ps, curs, m, i);
    StripIsTrimmed(items[i].name);
    LowerTrimmed(Strip(items[i].name));
  }

  lemma {:induction false} ContextHead(items: seq<Item>, i: nat) returns (h: nat)
    requires 0 < i <= |items| && items[0].Head?
    ensures h < i && items[h] == Head(Context("", items, i))
  {
    if items[i - 1].Head? {
      h := i - 1;
    } else {
      h := ContextHead(items, i - 1);
    }
  }

  lemma BlankCut(cur: string)
    requires Trimmed(cur) && HeadName(cur, "") == ""
    ensures cur == ""
  {
    hide Strip;
    StripTrimmed(cur);
  }

  /** Only the first name can be empty: behind another one it would not be read as empty. */
  lemma EmptyNameFirst(items: seq<Item>, ps: Pairs, curs: seq<string>, m: Entries, i: nat)
    requires Rearranged(items, ps, curs, m) && i < |items| && items[i] == Head("") && items[0].Head?
    ensures i == 0
  {
    hide Rearranged, HeadName;
    Sizes(items, ps, curs, m);
    if i > 0 {
      var h := ContextHead(items, i);
      InPlace(items, ps, curs, m, i);
      NamesTrimmed(items, ps, curs, m, h);
      HeadReadAs(items, ps, curs, m, i);
      EmptyHeadAssignsName(items, ps, curs, m, i);
      BlankCut(curs[i]);
      EmptyHeadAssignsName(items, ps, curs, m, h);
      SameLine(items, ps, curs, m, i, h);
    }
  }

  /** Every line assigns its own entry, with a value that survives. */
  lemma OwnLine(items: seq<Item>, ps: Pairs, curs: seq<string>, m: Entries, i: nat)
    requires Rearranged(items, ps, curs, m) && i < |items|
    ensures ps[i].0 == KeyOf(items[i])
    ensures items[i].Head? ==> ps[i].1 == None
    ensures items[i].Member? ==>
              items[i].v.Some? && ValueSurvives(items[i].v.value) && NoHeader(items[i].k, items[i].v.value)
  {
    hide ValueOf, Strip, ValueSurvives, NoHeader, ReadAs, HeadName;
    if items[i].Head? {
      HeadAssignsName(items, ps, curs, m, i);
      assert Assigns(curs[i], items[i], ps[i], curs[i + 1]);
    } else {
      OwnPair(items, ps, curs, m, i);
    }
  }

  lemma OwnPair(items: seq<Item>, ps: Pairs, curs: seq<string>, m: Entries, i: nat)
    requires Rearranged(items, ps, curs, m) && i < |items| && items[i].Member?
    ensures ps[i].0 == KeyOf(items[i])
    ensures items[i].v.Some? && ValueSurvives(items[i].v.value) && NoHeader(items[i].k, items[i].v.value)
  {
    hide ValueOf, Strip, ValueSurvives, NoHeader, ReadAs, Assigns;
    InPlace(items, ps, curs, m, i);
    NoneTurned(items, ps, curs, m, i);
    PairAssigns(items, ps, curs, m, i);
    assert OwnEntry(items, i, m);
    var k, v := items[i].k, items[i].v;
    var u :| ReadAs(u, k, v) && ps[i] == (curs[i] + ":" + k, Some(ValueOf(Strip(u))));
    assert v == Some(ValueOf(Strip(u)));
    WholeValue(k, v, u);
  }
}
