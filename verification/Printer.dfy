/** iniparser_dump_ini and iniparser_dumpsection_ini: the text they write. */
module Printer {
  import opened Options
  import opened CStrings
  import opened Slots
  import opened DictionaryStore
  import opened IniEntries
  import opened Sections

  function Spaces(n: nat): (r: string)
    ensures |r| == n && AllSpace(r) && forall i :: 0 <= i < n ==> r[i] == ' '
  {
    seq(n, _ => ' ')
  }

  // printf's "%-30s", section 7.19.6.1 of ISO C99.
  function Padded(s: string): string {
    s + Spaces(if |s| < 30 then 30 - |s| else 0)
  }

  function TextOf(v: Option<string>): string {
    if v.Some? then v.value else ""
  }

  function PairLine(k: string, v: Option<string>): string {
    Padded(k) + " = " + TextOf(v) + "\n"
  }

  /** The '=' of a pair stands in column 31, counted from 0, or one behind a key that is longer than
      30 characters; a NULL value is printed as nothing. */
  lemma PairColumns(k: string, v: Option<string>)
    ensures var l, e := PairLine(k, v), (if |k| < 30 then 30 else |k|) + 1;
            && |l| > e + 1 && l[..|k|] == k && (forall i :: |k| <= i < e ==> l[i] == ' ')
            && l[e] == '=' && l[e + 1] == ' '
            && l[e + 2..] == (match v case None => "" case Some(u) => u) + "\n"
  {
    var p := Spaces(if |k| < 30 then 30 - |k| else 0);
    assert PairLine(k, v) == k + p + " = " + (TextOf(v) + "\n");
  }

  // The pairs whose key starts with a prefix, in slot order.
  function PairsText(ks: Keys, vs: Vals, prefix: string): string
    requires |ks| == |vs|
  {
    if ks == [] then ""
    else
      (if ks[0].Some? && prefix <= ks[0].value then PairLine(ks[0].value[|prefix|..], vs[0]) else "")
      + PairsText(ks[1..], vs[1..], prefix)
  }

  ghost function SectionText(ks: Keys, vs: Vals, name: string): string
    requires |ks| == |vs|
  {
    if Some(NormalForm(name)) in ks then "\n[" + name + "]\n" + PairsText(ks, vs, name + ":") + "\n" else ""
  }

  ghost function SectionsText(ks: Keys, vs: Vals, names: seq<string>): string
    requires |ks| == |vs|
  {
    if names == [] then "" else SectionText(ks, vs, names[0]) + SectionsText(ks, vs, names[1..])
  }

  function PlainText(ks: Keys, vs: Vals): string
    requires |ks| == |vs|
  {
    if ks == [] then ""
    else (if ks[0].Some? then ks[0].value + " = " + TextOf(vs[0]) + "\n" else "") + PlainText(ks[1..], vs[1..])
  }

  ghost function DumpText(ks: Keys, vs: Vals): string
    requires |ks| == |vs|
  {
    if SectionNames(ks) == [] then PlainText(ks, vs) else SectionsText(ks, vs, SectionNames(ks)) + "\n"
  }

  // ----- The methods -----

  class OutFile {
    var text: string

    constructor ()
      ensures text == ""
    {
      text := "";
    }

    method Print(s: string)
      modifies this
      ensures text == old(text) + s
    {
      text := text + s;
    }
  }

  method BufferOf(s: string) returns (a: array<char>)
    requires NulFree(s)
    ensures fresh(a) && Terminated(a[..]) && CStr(a[..]) == s
  {
    a := new char[|s| + 1](i => if 0 <= i < |s| then s[i] else NUL);
    assert a[..][..|s|] == s;
    CStrIs(a[..], s);
  }

  lemma PairsNext(ks: Keys, vs: Vals, prefix: string, j: nat)
    requires |ks| == |vs| && j < |ks|
    ensures PairsText(ks[j..], vs[j..], prefix) ==
            (if ks[j].Some? && prefix <= ks[j].value then PairLine(ks[j].value[|prefix|..], vs[j]) else "")
            + PairsText(ks[j + 1..], vs[j + 1..], prefix)
  {
    assert ks[j..][1..] == ks[j + 1..] && vs[j..][1..] == vs[j + 1..];
  }

  lemma NoneLeft(ks: Keys, vs: Vals, prefix: string)
    requires |ks| == |vs|
    ensures PairsText(ks[|ks|..], vs[|ks|..], prefix) == ""
  {}

  lemma Concat2(a: string, b: string, c: string)
    ensures a + (b + c) == a + b + c
    ensures a + "" == a
  {}

  // The printing loop of a section; the prefix fits the 1025-byte `keym`.
  method PrintPairs(d: Dictionary, prefix: string, f: OutFile)
    requires d.Valid() && |prefix| <= ASCIILINESZ
    modifies f
    ensures f.text == old(f.text) + PairsText(d.key[..], d.val[..], prefix)
  {
    hide WellFormed, SlotMap, PairLine, PairsText;
    ghost var ks, vs, before := d.key[..], d.val[..], f.text;
    assert ks[0..] == ks && vs[0..] == vs;
    for j := 0 to d.size
      invariant d.key[..] == ks && d.val[..] == vs
      invariant before + PairsText(ks, vs, prefix) == f.text + PairsText(ks[j..], vs[j..], prefix)
    {
      PairsNext(ks, vs, prefix, j);
      ghost var text, tail := f.text, PairsText(ks[j + 1..], vs[j + 1..], prefix);
      if d.key[j].Some? && prefix <= d.key[j].value {
        var line := PairLine(d.key[j].value[|prefix|..], d.val[j]);
        f.Print(line);
        Concat2(text, line, tail);
      } else {
        Concat2(text, "", tail);
      }
    }
    NoneLeft(ks, vs, prefix);
  }

  /** iniparser_dumpsection_ini */
  method DumpSection(d: Dictionary, s: string, f: OutFile)
    requires d.Valid() && NulFree(s) && |s| < ASCIILINESZ
    modifies f
    ensures f.text == old(f.text) + SectionText(d.key[..], d.val[..], s)
    ensures Some(NormalForm(s)) !in d.key[..] ==> f.text == old(f.text)
  {
    hide SlotMap, PairsText;
    InSlotMap(d.key[..], d.val[..], NormalForm(s));
    var name := BufferOf(s);
    var found := FindEntry(d, name);
    if !found {
      return;
    }
    hide CStr, NormalForm, WellFormed;
    ghost var before, head, pairs := f.text, "\n[" + s + "]\n", PairsText(d.key[..], d.val[..], s + ":");
    f.Print("\n[" + s + "]\n");
    PrintPairs(d, s + ":", f);
    f.Print("\n");
    Concat3(before, head, pairs, "\n");
  }

  lemma Concat3(a: string, b: string, c: string, d: string)
    ensures a + b + c + d == a + (b + c + d)
  {}

  lemma PlainNext(ks: Keys, vs: Vals, j: nat)
    requires |ks| == |vs| && j < |ks|
    ensures PlainText(ks[j..], vs[j..]) ==
            (if ks[j].Some? then ks[j].value + " = " + TextOf(vs[j]) + "\n" else "") + PlainText(ks[j + 1..], vs[j + 1..])
  {
    assert ks[j..][1..] == ks[j + 1..] && vs[j..][1..] == vs[j + 1..];
  }

  // The branch of iniparser_dump_ini for a dictionary without sections.
  method PrintPlain(d: Dictionary, f: OutFile)
    requires d.Valid()
    requires forall j :: 0 <= j < d.size && d.key[j].Some? ==> d.val[j].Some?
    modifies f
    ensures f.text == old(f.text) + PlainText(d.key[..], d.val[..])
  {
    ghost var ks, vs, before := d.key[..], d.val[..], f.text;
    hide WellFormed, PlainText;
    assert ks[0..] == ks && vs[0..] == vs;
    for j := 0 to d.size
      invariant d.key[..] == ks && d.val[..] == vs
      invariant before + PlainText(ks, vs) == f.text + PlainText(ks[j..], vs[j..])
    {
      PlainNext(ks, vs, j);
      ghost var text, tail := f.text, PlainText(ks[j + 1..], vs[j + 1..]);
      if d.key[j].Some? {
        var line := d.key[j].value + " = " + d.val[j].value + "\n";
        f.Print(line);
        Concat2(text, line, tail);
      } else {
        Concat2(text, "", tail);
      }
    }
  }

  /** iniparser_dump_ini. Printing a NULL value without sections and a name that overflows `keym`
      are undefined in the source and excluded. */
  method DumpIni(d: Dictionary, f: OutFile)
    requires d.Valid()
    requires forall j :: 0 <= j < d.size && d.key[j].Some? ==> NulFree(d.key[j].value)
    requires forall j :: 0 <= j < d.size && d.key[j].Some? && ':' !in d.key[j].value ==> |d.key[j].value| < ASCIILINESZ
    requires SectionNames(d.key[..]) == [] ==> forall j :: 0 <= j < d.size && d.key[j].Some? ==> d.val[j].Some?
    modifies f
    ensures f.text == old(f.text) + DumpText(d.key[..], d.val[..])
  {
    hide WellFormed, SlotMap, SectionText, SectionsText, PlainText, SectionNames;
    ghost var ks, vs, before := d.key[..], d.val[..], f.text;
    ghost var names := SectionNames(ks);
    var nsec := GetNSec(d);
    if nsec < 1 {
      PrintPlain(d, f);
      return;
    }
    assert names[0..] == names;
    for i := 0 to nsec
      invariant d.Valid() && d.key[..] == ks && d.val[..] == vs
      invariant before + SectionsText(ks, vs, names) == f.text + SectionsText(ks, vs, names[i..])
    {
      var name := GetSecName(d, i);
      SectionNameSlot(ks, names, i);
      SectionsNext(ks, vs, names, i);
      ghost var text, tail := f.text, SectionsText(ks, vs, names[i + 1..]);
      DumpSection(d, name.value, f);
      Concat2(text, SectionText(ks, vs, names[i]), tail);
    }
    NoSections(ks, vs, names);
    f.Print("\n");
    Concat2(before, SectionsText(ks, vs, names), "\n");
  }

  lemma SectionsNext(ks: Keys, vs: Vals, names: seq<string>, i: nat)
    requires |ks| == |vs| && i < |names|
    ensures SectionsText(ks, vs, names[i..]) == SectionText(ks, vs, names[i]) + SectionsText(ks, vs, names[i + 1..])
  {
    hide SectionText;
    assert names[i..][1..] == names[i + 1..];
  }

  lemma NoSections(ks: Keys, vs: Vals, names: seq<string>)
    requires |ks| == |vs|
    ensures SectionsText(ks, vs, names[|names|..]) == ""
  {}

  lemma SectionNameSlot(ks: Keys, names: seq<string>, i: nat)
    requires names == SectionNames(ks) && i < |names|
    ensures exists p :: 0 <= p < |ks| && ks[p] == Some(names[i]) && ':' !in names[i]
  {
    var p := SelectSlot(ks, IsSectionName(), i);
    SelectMembers(ks, IsSectionName(), names[i]);
  }

  /** The layout of a dump: a blank line, the header, the pairs and a blank line for each section, and
      a blank line at the end. */
  lemma DumpLayout(s: string, k: string, v: Option<string>)
    requires ':' !in s && Lower(s) == s && |s| <= 1024
    ensures DumpText([Some(s), None, Some(s + ":" + k)], [None, None, v]) == "\n[" + s + "]\n" + PairLine(k, v) + "\n\n"
  {
    LowerIsNormal(s);
    hide NormalForm, PairLine, PairsText, SectionNames, SectionText, SectionsText, PlainText, Lower;
    var ks, vs: Vals := [Some(s), None, Some(s + ":" + k)], [None, None, v];
    NamesOfOne(s, k);
    PairsOfOne(s, k, v);
    OneSection(ks, vs, s);
    assert ks[0] == Some(s);
    SectionTextOf(ks, vs, s);
    TwoNewlines("\n[" + s + "]\n" + PairLine(k, v));
  }

  lemma TwoNewlines(x: string)
    ensures x + "\n" + "\n" == x + "\n\n"
  {}

  lemma OneSection(ks: Keys, vs: Vals, s: string)
    requires |ks| == |vs|
    ensures SectionsText(ks, vs, [s]) == SectionText(ks, vs, s)
  {
    hide SectionText;
    assert [s][1..] == [] && SectionText(ks, vs, s) + "" == SectionText(ks, vs, s);
  }

  lemma SectionTextOf(ks: Keys, vs: Vals, s: string)
    requires |ks| == |vs| && Some(NormalForm(s)) in ks
    ensures SectionText(ks, vs, s) == "\n[" + s + "]\n" + PairsText(ks, vs, s + ":") + "\n"
  {
    hide NormalForm, PairsText;
  }

  lemma NamesOfOne(s: string, k: string)
    requires ':' !in s
    ensures SectionNames([Some(s), None, Some(s + ":" + k)]) == [s]
  {
    var ks := [Some(s), None, Some(s + ":" + k)];
    assert (s + ":" + k)[|s|] == ':';
    assert ks[1..] == [None, Some(s + ":" + k)] && ks[1..][1..] == [Some(s + ":" + k)] && ks[1..][1..][1..] == [];
    assert Select(ks[1..][1..], IsSectionName()) == [];
    assert Select(ks[1..], IsSectionName()) == [];
  }

  lemma PairsOfOne(s: string, k: string, v: Option<string>)
    ensures PairsText([Some(s), None, Some(s + ":" + k)], [None, None, v], s + ":") == PairLine(k, v)
  {
    hide PairLine;
    var ks, vs: Vals, p := [Some(s), None, Some(s + ":" + k)], [None, None, v], s + ":";
    assert !(p <= s) && p <= p + k && (p + k)[|p|..] == k && p + k == s + ":" + k;
    assert ks[1..] == [None, Some(s + ":" + k)] && ks[1..][1..] == [Some(s + ":" + k)] && ks[1..][1..][1..] == [];
    assert vs[1..] == [None, v] && vs[1..][1..] == [v];
    assert PairsText(ks[1..][1..], vs[1..][1..], p) == PairLine(k, v) + "";
    assert PairsText(ks[1..], vs[1..], p) == "" + PairLine(k, v);
  }

  /** Without sections, one line for each key. */
  lemma PlainLayout(k: string, v: string)
    requires ':' in k
    ensures DumpText([None, Some(k)], [None, Some(v)]) == k + " = " + v + "\n"
  {
    var ks, vs: Vals := [None, Some(k)], [None, Some(v)];
    assert ks[1..] == [Some(k)] && ks[1..][1..] == [] && vs[1..] == [Some(v)];
    assert Select(ks[1..], IsSectionName()) == [];
    assert SectionNames(ks) == [];
    assert PlainText(ks[1..], vs[1..]) == k + " = " + v + "\n" + "";
  }
}
