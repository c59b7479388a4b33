/** Loading what iniparser_dump_ini prints gives back the same map. */
module RoundTrip {
  import opened Options
  import opened CStrings
  import opened Slots
  import opened LineGrammar
  import opened LoadSpec
  import opened IniEntries
  import opened Sections
  import opened Partition
  import opened Printer
  import opened PrintedLines

  // The text behind the first colon.
  function After(k: string): string
    requires ':' in k
  {
    k[|Before(k)| + 1..]
  }

  // A pair whose printed line is read back as itself and fits the line buffer.
  predicate PairPrints(k: string, v: Option<string>) {
    && v.Some? && KeySurvives(k) && ValueSurvives(v.value) && NoHeader(k, v.value)
    && '\n' !in v.value && |PairLine(k, v)| < ASCIILINESZ
  }

  predicate SectionPrints(s: string) {
    SectionSurvives(s) && |s| + 3 < ASCIILINESZ
  }

  // An entry that comes back: a section without a value and with a printable name, which is empty
  // for the first one printed at most; or a pair that prints, under a section that is present.
  ghost predicate EntryPrints(ks: Keys, vs: Vals, i: nat)
    requires i < |ks| == |vs| && ks[i].Some?
  {
    var k := ks[i].value;
    if ':' !in k
    then SectionPrints(k) && vs[i] == None && (k == "" ==> [""] <= SectionNames(ks))
    else Some(Before(k)) in ks && PairPrints(After(k), vs[i])
  }

  /** The dictionaries that survive printing: at least one section, and every entry prints. */
  ghost predicate Printable(ks: Keys, vs: Vals) {
    && |ks| == |vs| && Distinct(ks) && SectionNames(ks) != []
    && forall i :: 0 <= i < |ks| && ks[i].Some? ==> EntryPrints(ks, vs, i)
  }

  // ----- Text to logical lines -----

  function Prepend(lines: seq<string>, more: Option<seq<string>>): Option<seq<string>> {
    if more.None? then None else Some(lines + more.value)
  }

  lemma PrependTwice(x: seq<string>, y: seq<string>, more: Option<seq<string>>)
    ensures Prepend(x, Prepend(y, more)) == Prepend(x + y, more)
    ensures Prepend([], more) == more
  {
    if more.Some? {
      assert x + (y + more.value) == (x + y) + more.value;
      assert [] + more.value == more.value;
    }
  }

  lemma OneLine(w: string, rest: string)
    requires '\n' !in w
    ensures FirstLine(w + "\n" + rest) == w + "\n"
    ensures (w + "\n" + rest)[|w| + 1..] == rest
  {
    var s := w + "\n" + rest;
    forall i | 0 <= i < |w| ensures s[i] != '\n' {
      assert s[i] == w[i] && w[i] in w;
    }
    assert s[|w|] == '\n';
    RunExceptIs(s, {'\n'}, |w|);
    assert s[..|w| + 1] == w + "\n";
  }

  lemma LineThen(w: string, rest: string)
    requires '\n' !in w && w != "" && |w| + 1 < ASCIILINESZ && !Continues(TrimRight(w + "\n"))
    ensures LogicalLines("", w + "\n" + rest) == Prepend([TrimRight(w + "\n")], LogicalLines("", rest))
  {
    hide TrimRight, FirstLine, Continues;
    OneLine(w, rest);
    assert "" + (w + "\n") == w + "\n";
    assert EndsLine(w + "\n");
  }

  lemma BlankThen(rest: string)
    ensures LogicalLines("", "\n" + rest) == LogicalLines("", rest)
  {
    hide TrimRight, FirstLine;
    assert "" + "\n" + rest == "\n" + rest;
    OneLine("", rest);
    assert "" + "\n" == "\n";
  }

  // The logical lines of the printed pairs.
  function PairLines(ks: Keys, vs: Vals, prefix: string): seq<string>
    requires |ks| == |vs|
  {
    if ks == [] then []
    else
      (if ks[0].Some? && prefix <= ks[0].value then [TrimRight(PairLine(ks[0].value[|prefix|..], vs[0]))] else [])
      + PairLines(ks[1..], vs[1..], prefix)
  }

  // The pairs a section prints all survive.
  ghost predicate PairsPrint(ks: Keys, vs: Vals, prefix: string)
    requires |ks| == |vs|
  {
    forall i :: 0 <= i < |ks| && ks[i].Some? && prefix <= ks[i].value ==> PairPrints(ks[i].value[|prefix|..], vs[i])
  }

  lemma PairLineShape(k: string, v: Option<string>, section: string) returns (w: string)
    requires PairPrints(k, v)
    ensures PairLine(k, v) == w + "\n" && '\n' !in w && w != "" && !Continues(TrimRight(w + "\n"))
    ensures Meaning(TrimRight(PairLine(k, v)), section) == KeyValue(k, v.value)
  {
    hide TrimRight, Meaning, ValueSurvives, Continues;
    w := Padded(k) + " = " + v.value;
    assert '\n' !in Padded(k);
    PrintedPairIff(k, v.value, section);
    assert v == Some(v.value);
  }

  lemma {:induction false} PairsToLines(ks: Keys, vs: Vals, prefix: string, rest: string)
    requires |ks| == |vs| && PairsPrint(ks, vs, prefix)
    ensures LogicalLines("", PairsText(ks, vs, prefix) + rest) == Prepend(PairLines(ks, vs, prefix), LogicalLines("", rest))
    decreases |ks|
  {
    hide TrimRight, PairLine, LogicalLines, PairPrints;
    if ks == [] {
      assert "" + rest == rest;
      PrependTwice([], [], LogicalLines("", rest));
    } else {
      PairsToLines(ks[1..], vs[1..], prefix, rest);
      var tail := PairsText(ks[1..], vs[1..], prefix) + rest;
      if ks[0].Some? && prefix <= ks[0].value {
        var p := PairLine(ks[0].value[|prefix|..], vs[0]);
        PairThen(ks[0].value[|prefix|..], vs[0], tail);
        assert PairsText(ks, vs, prefix) + rest == p + tail;
        PrependTwice([TrimRight(p)], PairLines(ks[1..], vs[1..], prefix), LogicalLines("", rest));
      } else {
        assert PairLines(ks, vs, prefix) == PairLines(ks[1..], vs[1..], prefix);
        assert PairsText(ks, vs, prefix) == PairsText(ks[1..], vs[1..], prefix);
      }
    }
  }

  lemma PairThen(k: string, v: Option<string>, rest: string)
    requires PairPrints(k, v)
    ensures LogicalLines("", PairLine(k, v) + rest) == Prepend([TrimRight(PairLine(k, v))], LogicalLines("", rest))
  {
    hide TrimRight, LogicalLines, PairLine, Continues;
    var w := PairLineShape(k, v, "");
    LineThen(w, rest);
  }

  ghost function SectionLines(ks: Keys, vs: Vals, name: string): seq<string>
    requires |ks| == |vs|
  {
    ["[" + name + "]"] + PairLines(ks, vs, name + ":")
  }

  lemma SectionTextIs(ks: Keys, vs: Vals, name: string, rest: string)
    requires |ks| == |vs| && Some(NormalForm(name)) in ks
    ensures SectionText(ks, vs, name) + rest ==
            "\n" + ("[" + name + "]" + "\n" + (PairsText(ks, vs, name + ":") + ("\n" + rest)))
  {
    hide PairsText, NormalForm;
    var pairs := PairsText(ks, vs, name + ":");
    assert "\n[" + name + "]\n" + pairs + "\n" + rest == "\n" + ("[" + name + "]" + "\n" + (pairs + ("\n" + rest)));
  }

  lemma SectionToLines(ks: Keys, vs: Vals, name: string, rest: string)
    requires |ks| == |vs| && PairsPrint(ks, vs, name + ":")
    requires SectionPrints(name) && Some(NormalForm(name)) in ks
    ensures LogicalLines("", SectionText(ks, vs, name) + rest) == Prepend(SectionLines(ks, vs, name), LogicalLines("", rest))
  {
    hide TrimRight, LogicalLines, PairsText, PairLines, NormalForm, PairsPrint;
    var pairs := PairsText(ks, vs, name + ":");
    var header := "[" + name + "]";
    SectionTextIs(ks, vs, name, rest);
    hide SectionText;
    BlankThen(header + "\n" + (pairs + ("\n" + rest)));
    HeadLine(name);
    assert header + "\n" == "[" + name + "]\n";
    LineThen(header, pairs + ("\n" + rest));
    PairsToLines(ks, vs, name + ":", "\n" + rest);
    BlankThen(rest);
    PrependTwice([header], PairLines(ks, vs, name + ":"), LogicalLines("", rest));
  }

  ghost function AllLines(ks: Keys, vs: Vals, names: seq<string>): seq<string>
    requires |ks| == |vs|
  {
    if names == [] then [] else SectionLines(ks, vs, names[0]) + AllLines(ks, vs, names[1..])
  }

  ghost predicate SectionReady(ks: Keys, vs: Vals, name: string)
    requires |ks| == |vs|
  {
    && SectionPrints(name) && ':' !in name && Some(name) in ks && Some(NormalForm(name)) in ks
    && PairsPrint(ks, vs, name + ":")
  }

  lemma {:induction false} SectionsToLines(ks: Keys, vs: Vals, names: seq<string>, rest: string)
    requires |ks| == |vs| && forall i :: 0 <= i < |names| ==> SectionReady(ks, vs, names[i])
    ensures LogicalLines("", SectionsText(ks, vs, names) + rest) == Prepend(AllLines(ks, vs, names), LogicalLines("", rest))
    decreases |names|
  {
    hide LogicalLines, SectionText, SectionLines, Prepend;
    if names == [] {
      assert "" + rest == rest;
      PrependTwice([], [], LogicalLines("", rest));
    } else {
      assert SectionReady(ks, vs, names[0]);
      PrependTwice(SectionLines(ks, vs, names[0]), AllLines(ks, vs, names[1..]), LogicalLines("", rest));
      SectionsToLines(ks, vs, names[1..], rest);
      SectionToLines(ks, vs, names[0], SectionsText(ks, vs, names[1..]) + rest);
      assert SectionsText(ks, vs, names) + rest == SectionText(ks, vs, names[0]) + (SectionsText(ks, vs, names[1..]) + rest);
    }
  }

  // ----- Logical lines to map -----

  lemma {:induction false} FoldAppend(a: Acc, x: seq<string>, y: seq<string>)
    ensures FoldLines(a, x + y) == FoldLines(FoldLines(a, x), y)
    decreases |x|
  {
    hide Step;
    if x == [] {
      assert x + y == y;
    } else {
      assert (x + y)[1..] == x[1..] + y;
      FoldAppend(Step(a, x[0]), x[1..], y);
    }
  }

  // The pairs of a section stored in slot order.
  ghost function StorePairs(e: Entries, ks: Keys, vs: Vals, prefix: string): Entries
    requires |ks| == |vs|
    decreases |ks|
  {
    if ks == [] then e
    else
      StorePairs(if ks[0].Some? && prefix <= ks[0].value then e[ks[0].value := vs[0]] else e, ks[1..], vs[1..], prefix)
  }

  lemma StepPair(a: Acc, k: string, v: Option<string>)
    requires PairPrints(k, v)
    ensures Step(a, TrimRight(PairLine(k, v))) == Acc(a.section, a.entries[a.section + ":" + k := v], a.errs)
  {
    hide TrimRight, PairLine, Meaning, PairPrints, Continues;
    var w := PairLineShape(k, v, a.section);
    assert v == Some(v.value) by { PairHasValue(k, v); }
  }

  lemma PairHasValue(k: string, v: Option<string>)
    requires PairPrints(k, v)
    ensures v.Some?
  {}

  lemma {:induction false} FoldPairs(section: string, e: Entries, ks: Keys, vs: Vals)
    requires |ks| == |vs| && PairsPrint(ks, vs, section + ":")
    ensures FoldLines(Acc(section, e, 0), PairLines(ks, vs, section + ":")) ==
            Acc(section, StorePairs(e, ks, vs, section + ":"), 0)
    decreases |ks|
  {
    hide TrimRight, PairLine, Step, PairPrints;
    if ks != [] {
      var prefix := section + ":";
      var lines := PairLines(ks[1..], vs[1..], prefix);
      if ks[0].Some? && prefix <= ks[0].value {
        var k := ks[0].value[|prefix|..];
        assert ks[0].value == section + ":" + k;
        StepPair(Acc(section, e, 0), k, vs[0]);
        FoldPairs(section, e[ks[0].value := vs[0]], ks[1..], vs[1..]);
        assert ([TrimRight(PairLine(k, vs[0]))] + lines)[1..] == lines;
      } else {
        assert PairLines(ks, vs, prefix) == lines;
        FoldPairs(section, e, ks[1..], vs[1..]);
      }
    }
  }

  lemma FoldSection(a: Acc, ks: Keys, vs: Vals, name: string)
    requires |ks| == |vs| && SectionReady(ks, vs, name) && a.errs == 0 && (name != "" || a.section == "")
    ensures FoldLines(a, SectionLines(ks, vs, name)) ==
            Acc(name, StorePairs(a.entries[name := None], ks, vs, name + ":"), 0)
  {
    hide TrimRight, Meaning, PairLines, StorePairs, PairsPrint;
    PrintedHeader(name, a.section);
    FoldPairs(name, a.entries[name := None], ks, vs);
    var lines := PairLines(ks, vs, name + ":");
    assert SectionLines(ks, vs, name)[1..] == lines;
  }

  // Every section and its pairs stored in printing order.
  ghost function StoreSections(e: Entries, ks: Keys, vs: Vals, names: seq<string>): Entries
    requires |ks| == |vs|
    decreases |names|
  {
    if names == [] then e
    else StoreSections(StorePairs(e[names[0] := None], ks, vs, names[0] + ":"), ks, vs, names[1..])
  }

  lemma {:induction false} FoldSections(a: Acc, ks: Keys, vs: Vals, names: seq<string>)
    requires |ks| == |vs| && a.errs == 0 && forall i :: 0 <= i < |names| ==> SectionReady(ks, vs, names[i])
    requires forall i :: 0 <= i < |names| && names[i] == "" ==> i == 0 && a.section == ""
    ensures FoldLines(a, AllLines(ks, vs, names)).entries == StoreSections(a.entries, ks, vs, names)
    ensures FoldLines(a, AllLines(ks, vs, names)).errs == 0
    decreases |names|
  {
    hide SectionLines, StorePairs, Step;
    if names != [] {
      assert SectionReady(ks, vs, names[0]);
      var x, y := SectionLines(ks, vs, names[0]), AllLines(ks, vs, names[1..]);
      FoldAppend(a, x, y);
      FoldSection(a, ks, vs, names[0]);
      FoldSections(FoldLines(a, x), ks, vs, names[1..]);
    }
  }

  // ----- The stored map is the dictionary's -----

  ghost predicate Within(e: Entries, m: Entries) {
    forall k :: k in e ==> k in m && e[k] == m[k]
  }

  lemma {:induction false} StorePairsExact(e: Entries, ks: Keys, vs: Vals, prefix: string, m: Entries)
    requires |ks| == |vs| && Within(e, m)
    requires forall i :: 0 <= i < |ks| && ks[i].Some? ==> ks[i].value in m && m[ks[i].value] == vs[i]
    ensures Within(StorePairs(e, ks, vs, prefix), m)
    ensures e.Keys <= StorePairs(e, ks, vs, prefix).Keys
    ensures forall k :: Some(k) in ks && prefix <= k ==> k in StorePairs(e, ks, vs, prefix)
    decreases |ks|
  {
    if ks != [] {
      var e' := if ks[0].Some? && prefix <= ks[0].value then e[ks[0].value := vs[0]] else e;
      StorePairsExact(e', ks[1..], vs[1..], prefix, m);
      assert ks == [ks[0]] + ks[1..];
    }
  }

  lemma {:induction false} StoreSectionsExact(e: Entries, ks: Keys, vs: Vals, names: seq<string>, m: Entries)
    requires |ks| == |vs| && Within(e, m)
    requires forall i :: 0 <= i < |ks| && ks[i].Some? ==> ks[i].value in m && m[ks[i].value] == vs[i]
    requires forall i :: 0 <= i < |names| ==> names[i] in m && m[names[i]] == None
    ensures Within(StoreSections(e, ks, vs, names), m)
    ensures e.Keys <= StoreSections(e, ks, vs, names).Keys
    ensures forall i :: 0 <= i < |names| ==> names[i] in StoreSections(e, ks, vs, names)
    ensures forall i, k :: 0 <= i < |names| && Some(k) in ks && names[i] + ":" <= k ==> k in StoreSections(e, ks, vs, names)
    decreases |names|
  {
    hide StorePairs;
    if names != [] {
      var e1 := StorePairs(e[names[0] := None], ks, vs, names[0] + ":");
      StorePairsExact(e[names[0] := None], ks, vs, names[0] + ":", m);
      StoreSectionsExact(e1, ks, vs, names[1..], m);
      forall i | 0 <= i < |names| ensures names[i] in StoreSections(e, ks, vs, names) {
        if i > 0 { assert names[i] == names[1..][i - 1]; }
      }
      forall i, k | 0 <= i < |names| && Some(k) in ks && names[i] + ":" <= k
        ensures k in StoreSections(e, ks, vs, names)
      {
        if i > 0 { assert names[i] == names[1..][i - 1]; }
      }
    }
  }

  lemma BeforeAfter(k: string)
    requires ':' in k
    ensures Before(k) + ":" <= k && k[|Before(k)| + 1..] == After(k) && ':' !in Before(k)
  {
    BeforeIs(Before(k), k) by { BeforeNoColon(k); }
    BeforeNoColon(k);
  }

  lemma SectionReadyAt(ks: Keys, vs: Vals, p: nat)
    requires Printable(ks, vs) && p < |ks| && ks[p].Some? && ':' !in ks[p].value
    ensures SectionReady(ks, vs, ks[p].value) && vs[p] == None
    ensures ks[p].value == "" ==> SectionNames(ks)[0] == ""
  {
    hide SectionNames, PairsPrint, SectionSurvives;
    var name := ks[p].value;
    assert EntryPrints(ks, vs, p);
    assert NormalForm(name) == name by { LowerNormal(name); }
    PairsReady(ks, vs, name);
  }

  lemma LowerNormal(name: string)
    requires SectionPrints(name)
    ensures NormalForm(name) == name
  {}

  lemma SectionsReady(ks: Keys, vs: Vals)
    requires Printable(ks, vs)
    ensures forall i :: 0 <= i < |SectionNames(ks)| ==> SectionReady(ks, vs, SectionNames(ks)[i])
    ensures forall i :: 0 <= i < |SectionNames(ks)| ==>
              SectionNames(ks)[i] in SlotMap(ks, vs) && SlotMap(ks, vs)[SectionNames(ks)[i]] == None
    ensures forall i :: 0 <= i < |SectionNames(ks)| && SectionNames(ks)[i] == "" ==> i == 0
  {
    hide SectionNames, EntryPrints, SectionReady;
    var names := SectionNames(ks);
    SectionNamesExact(ks);
    forall i | 0 <= i < |names|
      ensures SectionReady(ks, vs, names[i]) && names[i] in SlotMap(ks, vs) && SlotMap(ks, vs)[names[i]] == None
      ensures names[i] == "" ==> i == 0
    {
      var name := names[i];
      assert name in names;
      var p :| 0 <= p < |ks| && ks[p] == Some(name);
      SectionReadyAt(ks, vs, p);
    }
  }

  lemma PairsReady(ks: Keys, vs: Vals, name: string)
    requires Printable(ks, vs) && ':' !in name
    ensures PairsPrint(ks, vs, name + ":")
  {
    hide PairPrints, SectionPrints;
    forall i | 0 <= i < |ks| && ks[i].Some? && name + ":" <= ks[i].value
      ensures PairPrints(ks[i].value[|name + ":"|..], vs[i])
    {
      assert EntryPrints(ks, vs, i);
      BeforeIs(name, ks[i].value);
    }
  }

  // A key is a section, or belongs to one.
  lemma SectionOf(ks: Keys, vs: Vals, i: nat) returns (j: nat)
    requires Printable(ks, vs) && i < |ks| && ks[i].Some?
    ensures j < |SectionNames(ks)|
    ensures SectionNames(ks)[j] == ks[i].value || SectionNames(ks)[j] + ":" <= ks[i].value
  {
    hide SectionNames, PairPrints, SectionPrints;
    var k := ks[i].value;
    SectionNamesExact(ks);
    assert EntryPrints(ks, vs, i);
    if ':' in k {
      BeforeAfter(k);
      hide Before;
      assert Before(k) in SectionNames(ks);
      j :| 0 <= j < |SectionNames(ks)| && SectionNames(ks)[j] == Before(k);
    } else {
      assert k in SectionNames(ks);
      j :| 0 <= j < |SectionNames(ks)| && SectionNames(ks)[j] == k;
    }
  }

  /** Every entry of a printable dictionary is printed under its section. */
  lemma StoresEverything(ks: Keys, vs: Vals)
    requires Printable(ks, vs)
    ensures StoreSections(map[], ks, vs, SectionNames(ks)) == SlotMap(ks, vs)
  {
    hide EntryPrints, SectionReady, StoreSections, SectionNames;
    var m, names := SlotMap(ks, vs), SectionNames(ks);
    var e := StoreSections(map[], ks, vs, names);
    SectionsReady(ks, vs);
    StoreSectionsExact(map[], ks, vs, names, m);
    forall k | k in m ensures k in e {
      var i :| 0 <= i < |ks| && ks[i] == Some(k);
      var j := SectionOf(ks, vs, i);
    }
    assert e == m;
  }

  /** The round trip: loading the text of iniparser_dump_ini gives the map that was dumped. */
  lemma DumpThenLoad(ks: Keys, vs: Vals)
    requires Printable(ks, vs)
    ensures LoadMeaning(DumpText(ks, vs)) == Loaded(SlotMap(ks, vs))
  {
    hide LogicalLines, FoldLines, SectionsText, AllLines, StoreSections, Printable, SectionReady, SectionNames;
    var names := SectionNames(ks);
    PrintableHasSections(ks, vs);
    SectionsReady(ks, vs);
    SectionsToLines(ks, vs, names, "\n");
    BlankThen("");
    assert LogicalLines("", "") == Some([]) by { NoLines(); }
    assert "\n" + "" == "\n";
    assert AllLines(ks, vs, names) + [] == AllLines(ks, vs, names);
    FoldSections(START, ks, vs, names);
    StoresEverything(ks, vs);
  }

  lemma NoLines()
    ensures LogicalLines("", "") == Some([])
  {}

  lemma PrintableHasSections(ks: Keys, vs: Vals)
    requires Printable(ks, vs)
    ensures SectionNames(ks) != [] && |ks| == |vs| && Distinct(ks)
  {}

  /** The same for the loader of the source, while memory lasts. */
  lemma DumpThenLoadPass(ks: Keys, vs: Vals, size: nat, memory: nat -> bool)
    requires Printable(ks, vs) && forall i :: memory(i)
    ensures LoadFrom(START, size, "", DumpText(ks, vs), 0, memory) == Loaded(SlotMap(ks, vs))
  {
    hide LogicalLines, FoldLines, Printable, DumpText;
    PrintableHasSections(ks, vs);
    DumpThenLoad(ks, vs);
    LoadIsFold(START, size, "", DumpText(ks, vs), 0, memory);
  }
}
