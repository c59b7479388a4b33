/** Exactly when a dictionary survives printing and loading. */
module RoundTripExact {
  import opened Options
  import opened CStrings
  import opened Slots
  import opened LineGrammar
  import opened LoadSpec
  import opened LoadFacts
  import opened LoadedNames
  import opened IniEntries
  import opened Sections
  import opened Partition
  import opened Printer
  import opened PrintedLines
  import opened RoundTrip
  import opened DumpRows
  import opened DumpItems
  import opened Permutation

  /** At least one section, and keys within their sections that print as they will be read. */
  ghost predicate Keyed(ks: Keys, vs: Vals) {
    && |ks| == |vs| && Distinct(ks) && SectionNames(ks) != []
    && forall i :: 0 <= i < |ks| && ks[i].Some? ==> KeyPrints(ks[i].value)
  }

  predicate KeyPrints(k: string) {
    ':' in k ==> KeySurvives(RoundTrip.After(k))
  }

  // Every plain key is a name that a section can have during a load.
  ghost predicate Named(ks: Keys, vs: Vals) {
    Keyed(ks, vs) && forall i :: 0 <= i < |ks| && ks[i].Some? && ':' !in ks[i].value ==> SectionLike(ks[i].value)
  }

  // Every key with a colon belongs to a section that is present.
  ghost predicate Owned(ks: Keys) {
    forall k :: Some(k) in ks && ':' in k ==> Some(Before(k)) in ks
  }

  // ----- Counting -----

  lemma {:induction false} CardBound(xs: seq<string>, s: set<string>)
    requires forall k :: k in s ==> k in xs
    ensures |s| <= |xs|
    decreases |xs|
  {
    if xs != [] {
      assert xs == [xs[0]] + xs[1..];
      CardBound(xs[1..], s - {xs[0]});
    }
  }

  // A list no longer than a set it covers has no repetition and nothing else.
  lemma {:induction false} CardExact(xs: seq<string>, s: set<string>)
    requires (forall k :: k in s ==> k in xs) && |s| == |xs|
    ensures forall i, j :: 0 <= i < j < |xs| ==> xs[i] != xs[j]
    ensures forall i :: 0 <= i < |xs| ==> xs[i] in s
    decreases |xs|
  {
    if xs != [] {
      assert xs == [xs[0]] + xs[1..];
      CardBound(xs[1..], s - {xs[0]});
      CardExact(xs[1..], s - {xs[0]});
    }
  }

  function Firsts(ps: Pairs): (r: seq<string>)
    ensures |r| == |ps| && forall i :: 0 <= i < |ps| ==> r[i] == ps[i].0
  {
    seq(|ps|, i requires 0 <= i < |ps| => ps[i].0)
  }

  lemma {:induction false} LastForIn(k: string, ps: Pairs)
    ensures LastFor(k, ps).Some? ==> k in Firsts(ps)
    decreases |ps|
  {
    if ps != [] {
      var n := |ps| - 1;
      LastForIn(k, ps[..n]);
      assert Firsts(ps)[n] == ps[n].0;
      if k in Firsts(ps[..n]) {
        var i :| 0 <= i < n && Firsts(ps[..n])[i] == k;
        assert Firsts(ps)[i] == k;
      }
    }
  }

  lemma {:induction false} LastForDistinct(ps: Pairs, i: nat)
    requires i < |ps| && forall a, b :: 0 <= a < b < |ps| ==> ps[a].0 != ps[b].0
    ensures LastFor(ps[i].0, ps) == Some(ps[i].1)
    decreases |ps|
  {
    var n := |ps| - 1;
    if i < n {
      LastForDistinct(ps[..n], i);
    }
  }

  // ----- Lines and their sections -----

  function NextSection(section: string, text: string): string {
    var m := Meaning(text, section);
    if m.Section? then m.name else section
  }

  // The sections before each line, and after the last.
  function SectionsOf(section: string, lines: seq<string>): (r: seq<string>)
    ensures |r| == |lines| + 1 && r[0] == section
    decreases |lines|
  {
    if lines == [] then [section] else [section] + SectionsOf(NextSection(section, lines[0]), lines[1..])
  }

  lemma {:induction false} AssignmentsBound(section: string, lines: seq<string>)
    ensures |Assignments(section, lines)| <= |lines|
    decreases |lines|
  {
    hide Meaning;
    if lines != [] {
      AssignmentsBound(NextSection(section, lines[0]), lines[1..]);
    }
  }

  // When every line assigns something, the i-th assignment is the i-th line's.
  lemma {:induction false} AssignmentAt(section: string, lines: seq<string>, i: nat)
    requires |Assignments(section, lines)| == |lines| && i < |lines|
    ensures var curs := SectionsOf(section, lines);
            && Pair(curs[i], Meaning(lines[i], curs[i])) == Some(Assignments(section, lines)[i])
            && curs[i + 1] == NextSection(curs[i], lines[i])
    decreases |lines|
  {
    hide Meaning;
    var next := NextSection(section, lines[0]);
    AssignmentsBound(next, lines[1..]);
    if i == 0 {
      assert SectionsOf(section, lines)[1] == SectionsOf(next, lines[1..])[0];
    } else {
      AssignmentAt(next, lines[1..], i - 1);
      assert SectionsOf(section, lines)[1..] == SectionsOf(next, lines[1..]);
    }
  }

  // What the printed line of an item assigns.
  lemma LineAssigns(cur: string, it: Item, t: string, p: (string, Option<string>))
    requires Emits(t, it)
    requires if it.Head? then ']' !in it.name else KeySurvives(it.k)
    requires Pair(cur, Meaning(t, cur)) == Some(p)
    ensures Assigns(cur, it, p, NextSection(cur, t))
  {
    hide Meaning, TrimRight, PairLine, ValueOf, Strip, Continues, KeySurvives, HeadName;
    match it
    case Head(name) => HeadReads(name, cur);
    case Member(_, k, v) =>
      var u :| Shortened(u, v) && t == TrimRight(PairLine(k, Some(u))) && !Continues(t);
      PrintedPair(k, u, cur);
      if NoHeader(k, Strip(u)) {
        assert ReadAs(u, k, v);
      } else {
        assert Strip(u) != "";
        StripShorter(u);
        assert u != "";
      }
  }

  // ----- The dump as rows -----

  lemma NamesOk(ks: Keys, vs: Vals)
    requires Named(ks, vs)
    ensures forall i :: 0 <= i < |SectionNames(ks)| ==> NameOk(ks, SectionNames(ks)[i])
  {
    hide SectionNames, SectionLike;
    SectionNamesExact(ks);
    forall i | 0 <= i < |SectionNames(ks)| ensures NameOk(ks, SectionNames(ks)[i]) {
      var name := SectionNames(ks)[i];
      assert name in SectionNames(ks);
      var p :| 0 <= p < |ks| && ks[p] == Some(name);
      LikeNormal(name);
    }
  }

  lemma LikeNormal(name: string)
    requires SectionLike(name)
    ensures NormalForm(name) == name && Lower(name) == name && |name| <= ASCIILINESZ
  {}

  lemma DumpTextIsRows(ks: Keys, vs: Vals)
    requires Named(ks, vs)
    ensures DumpText(ks, vs) == Text(DumpedRows(ks, vs))
    ensures Items(DumpedRows(ks, vs)) == Items(AllRows(ks, vs, SectionNames(ks)))
  {
    hide AllRows, SectionsText, Text, Items, SectionNames, NormalForm, KeyPrints, SectionLike;
    var names := SectionNames(ks);
    NamesOk(ks, vs);
    assert forall i :: 0 <= i < |names| ==> Some(NormalForm(names[i])) in ks by {
      forall i | 0 <= i < |names| ensures Some(NormalForm(names[i])) in ks { assert NameOk(ks, names[i]); }
    }
    AllRowsText(ks, vs, names);
    TextAppend(AllRows(ks, vs, names), [None]);
    BlankRow();
    ItemsAppend(AllRows(ks, vs, names), [None]);
    BlankItems();
  }

  lemma FirstIsHead(ks: Keys, vs: Vals)
    requires Named(ks, vs)
    ensures var items := Items(DumpedRows(ks, vs)); items != [] && items[0] == Head(SectionNames(ks)[0])
  {
    hide AllRows, Items, SectionNames, DumpedRows, NameOk, Named, MemberRows;
    NamesOk(ks, vs);
    DumpTextIsRows(ks, vs);
    assert SectionNames(ks) != [] && |ks| == |vs| by { NamedShape(ks, vs); }
    SplitItems(ks, vs, SectionNames(ks));
  }

  lemma NamedShape(ks: Keys, vs: Vals)
    requires Named(ks, vs)
    ensures SectionNames(ks) != [] && |ks| == |vs| && Distinct(ks)
  {}

  lemma ItemCount(ks: Keys, vs: Vals)
    requires Named(ks, vs)
    ensures |Items(DumpedRows(ks, vs))| <= |SlotMap(ks, vs)|
    ensures |Items(DumpedRows(ks, vs))| == |SlotMap(ks, vs)| ==> Owned(ks)
    ensures forall cur :: Grouped(cur, Items(DumpedRows(ks, vs)))
  {
    hide AllRows, Items, SectionNames, SumKeys, SectionLike, KeyPrints, Grouped, DumpedRows;
    NamesOk(ks, vs);
    DumpTextIsRows(ks, vs);
    CountItems(ks, vs, SectionNames(ks));
    OccupiedIsCardinality(ks, vs);
    forall k | Some(k) in ks && ':' !in k ensures Lower(k) == k && |k| <= ASCIILINESZ {
      var i :| 0 <= i < |ks| && ks[i] == Some(k);
      LikeNormal(k);
    }
    SectionsPartition(ks);
  }

  // What is known of each item.
  ghost predicate ItemOk(it: Item, m: Entries) {
    match it
    case Head(name) => ':' !in name && SectionLike(name) && name in m
    case Member(section, k, v) => ':' !in section && KeySurvives(k) && KeyOf(it) in m && m[KeyOf(it)] == v
  }

  lemma ItemsOk(ks: Keys, vs: Vals)
    requires Named(ks, vs)
    ensures forall it :: it in Items(DumpedRows(ks, vs)) ==> ItemOk(it, SlotMap(ks, vs))
  {
    hide AllRows, Items, SectionNames, SectionLike, KeySurvives, DumpedRows, Named, FromSlot;
    var names := SectionNames(ks);
    NamesOk(ks, vs);
    NamedShape(ks, vs);
    DumpTextIsRows(ks, vs);
    ListedItems(ks, vs, names);
    SectionNamesExact(ks);
    forall it | it in Items(DumpedRows(ks, vs)) ensures ItemOk(it, SlotMap(ks, vs)) {
      assert Listed(ks, vs, names, it);
      var name := if it.Head? then it.name else it.section;
      var i :| 0 <= i < |names| && names[i] == name;
      assert NameOk(ks, names[i]);
      if it.Head? {
        InSlotMap(ks, vs, name);
      } else {
        MemberOk(ks, vs, it);
      }
    }
  }

  lemma MemberOk(ks: Keys, vs: Vals, it: Item)
    requires Named(ks, vs) && it.Member? && ':' !in it.section && FromSlot(ks, vs, it)
    ensures ItemOk(it, SlotMap(ks, vs))
  {
    hide SectionNames, SectionLike, KeySurvives;
    var i :| 0 <= i < |ks| && ks[i] == Some(KeyOf(it)) && vs[i] == it.v;
    assert KeyPrints(ks[i].value);
    MemberKey(it.section, it.k);
  }

  lemma MemberKey(section: string, k: string)
    requires ':' !in section
    ensures var key := section + ":" + k; ':' in key && Before(key) == section && RoundTrip.After(key) == k
  {
    var key := section + ":" + k;
    assert key == (section + ":") + k;
    BeforeIs(section, key);
  }

  lemma ItemOfMember(ks: Keys, vs: Vals, p: nat) returns (it: Item)
    requires Named(ks, vs) && Owned(ks) && p < |ks| && ks[p].Some? && ':' in ks[p].value
    ensures it in Items(DumpedRows(ks, vs)) && KeyOf(it) == ks[p].value
  {
    hide AllRows, Items, SectionNames, Named, DumpedRows, NameOk, Before;
    var names, k := SectionNames(ks), ks[p].value;
    NamesOk(ks, vs);
    NamedShape(ks, vs);
    DumpTextIsRows(ks, vs);
    BeforeAfter(k);
    assert Before(k) in names by { SectionNamesExact(ks); }
    MembersCovered(ks, vs, names, Before(k), p);
    it := Member(Before(k), k[|Before(k)| + 1..], vs[p]);
    MemberSplits(k);
  }

  lemma MemberSplits(k: string)
    requires ':' in k
    ensures k == Before(k) + ":" + k[|Before(k)| + 1..]
  {
    BeforeAfter(k);
    hide Before;
  }

  lemma ItemOfHead(ks: Keys, vs: Vals, p: nat) returns (it: Item)
    requires Named(ks, vs) && p < |ks| && ks[p].Some? && ':' !in ks[p].value
    ensures it in Items(DumpedRows(ks, vs)) && KeyOf(it) == ks[p].value
  {
    hide AllRows, Items, SectionNames, Named, DumpedRows, NameOk, Before;
    var names, k := SectionNames(ks), ks[p].value;
    NamesOk(ks, vs);
    NamedShape(ks, vs);
    DumpTextIsRows(ks, vs);
    SectionNamesExact(ks);
    assert k in names;
    HeadsCovered(ks, vs, names, k);
    it := Head(k);
  }

  lemma ItemOfSlot(ks: Keys, vs: Vals, p: nat) returns (it: Item)
    requires Named(ks, vs) && Owned(ks) && p < |ks| && ks[p].Some?
    ensures it in Items(DumpedRows(ks, vs)) && KeyOf(it) == ks[p].value
  {
    hide Named, Owned, Items, DumpedRows, KeyOf;
    NamedShape(ks, vs);
    if ':' in ks[p].value {
      it := ItemOfMember(ks, vs, p);
    } else {
      it := ItemOfHead(ks, vs, p);
    }
  }

  lemma ItemsCover(ks: Keys, vs: Vals, k: string)
    requires Named(ks, vs) && Owned(ks) && k in SlotMap(ks, vs)
    ensures exists i :: 0 <= i < |Items(DumpedRows(ks, vs))| && KeyOf(Items(DumpedRows(ks, vs))[i]) == k
  {
    hide Named, Owned, Items, DumpedRows, KeyOf;
    NamedShape(ks, vs);
    var p :| 0 <= p < |ks| && ks[p] == Some(k);
    var it := ItemOfSlot(ks, vs, p);
    var items := Items(DumpedRows(ks, vs));
    var i :| 0 <= i < |items| && items[i] == it;
    assert KeyOf(items[i]) == k;
  }

  // ----- The text of rows -----

  lemma {:induction false} RowsOkFromItems(rows: seq<Row>)
    requires forall it :: it in Items(rows) ==> RowOk(Some(it))
    ensures RowsOk(rows)
    decreases |rows|
  {
    hide RowOk;
    if rows != [] {
      if rows[0].None? { assert RowOk(rows[0]) by { NoneOk(); } }
      RowsOkFromItems(rows[1..]);
    }
  }

  lemma NoneOk()
    ensures RowOk(None)
  {}

  lemma ItemRow(it: Item, m: Entries)
    requires ItemOk(it, m) && OneLineValues(m)
    ensures RowOk(Some(it))
  {
    hide SectionLike, Lower;
    match it
    case Head(name) =>
      assert '\n' !in name by { LikeOneLine(name); }
      assert LineText(it)[..|LineText(it)| - 1] == "[" + name + "]";
    case Member(_, k, v) =>
      var w := Padded(k) + " = " + TextOf(v);
      assert '\n' !in Padded(k);
      assert '\n' !in TextOf(v);
      assert LineText(it) == w + "\n" && LineText(it)[..|LineText(it)| - 1] == w;
  }

  lemma LikeOneLine(s: string)
    requires SectionLike(s)
    ensures '\n' !in s
  {}

  lemma {:induction false} RowsFit(pending: string, rows: seq<Row>)
    requires RowsOk(rows) && RowsToLines(pending, rows).Some?
    ensures forall it :: it in Items(rows) ==> |LineText(it)| < ASCIILINESZ
    decreases |rows|
  {
    hide TrimRight, LineText;
    if rows != [] {
      var p := RowText(rows[0]);
      var t := TrimRight(pending + p);
      if Skipped(pending, p) {
        RowsFit(pending, rows[1..]);
      } else if Continues(t) {
        RowsFit(t[..|t| - 1], rows[1..]);
      } else {
        RowsFit("", rows[1..]);
      }
    }
  }

  // ----- The exact condition -----

  // The assignments of a load that gives back m, when there are no more lines than entries.
  lemma AssignmentsFill(ls: seq<string>, n: nat, m: Entries)
    requires FoldLines(START, ls).entries == m && |ls| <= n == |m|
    ensures var ps := Assignments("", ls);
            && |ps| == |ls| == n
            && (forall i, j :: 0 <= i < j < |ps| ==> ps[i].0 != ps[j].0)
            && (forall i :: 0 <= i < |ps| ==> ps[i].0 in m && m[ps[i].0] == ps[i].1)
  {
    hide Assignments, FoldLines;
    var ps := Assignments("", ls);
    AssignmentsBound("", ls);
    forall k | k in m.Keys ensures k in Firsts(ps) {
      LastAssignmentWins(START, ls, k);
      LastForIn(k, ps);
    }
    CardBound(Firsts(ps), m.Keys);
    CardExact(Firsts(ps), m.Keys);
    assert forall i, j :: 0 <= i < j < |ps| ==> ps[i].0 == Firsts(ps)[i] != Firsts(ps)[j] == ps[j].0;
    forall i | 0 <= i < |ps| ensures ps[i].0 in m && m[ps[i].0] == ps[i].1 {
      assert Firsts(ps)[i] in m.Keys;
      LastForDistinct(ps, i);
      LastAssignmentWins(START, ls, ps[i].0);
    }
  }

  // A load that gives back m from no more lines than m has entries fills them one by one.
  lemma LinesRearrange(items: seq<Item>, ls: seq<string>, m: Entries)
    requires AllEmit(ls, items) && FoldLines(START, ls).entries == m && |items| == |m|
    requires forall it :: it in items ==> ItemOk(it, m)
    requires forall k :: k in m ==> exists i :: 0 <= i < |items| && KeyOf(items[i]) == k
    requires Grouped("", items)
    ensures Rearranged(items, Assignments("", ls), SectionsOf("", ls), m)
  {
    hide Emits, Assigns, FoldLines, Assignments, OwnEntry, ItemOk, Meaning, KeyOf;
    var ps, curs := Assignments("", ls), SectionsOf("", ls);
    AssignmentsFill(ls, |items|, m);
    forall i | 0 <= i < |items| ensures Assigns(curs[i], items[i], ps[i], curs[i + 1]) && OwnEntry(items, i, m) {
      assert ItemOk(items[i], m);
      ItemReads(items[i], m);
      AssignmentAt("", ls, i);
      LineAssigns(curs[i], items[i], ls[i], ps[i]);
      ItemOwned(items, i, m);
    }
  }

  lemma ItemReads(it: Item, m: Entries)
    requires ItemOk(it, m)
    ensures if it.Head? then ']' !in it.name else KeySurvives(it.k)
  {}

  lemma ItemOwned(items: seq<Item>, i: nat, m: Entries)
    requires i < |items| && ItemOk(items[i], m) && Grouped("", items)
    ensures OwnEntry(items, i, m)
  {
    hide KeyOf, SectionLike, Grouped;
    if items[i].Member? {
      ContextShift("", items, i);
    }
  }

  // What a dump that loads back says about its dictionary.
  lemma LoadedIsNamed(ks: Keys, vs: Vals)
    requires Keyed(ks, vs) && LoadMeaning(DumpText(ks, vs)) == Loaded(SlotMap(ks, vs))
    ensures Named(ks, vs) && OneLineValues(SlotMap(ks, vs))
  {
    hide LoadMeaning, DumpText, SectionNames, KeyPrints, SectionLike;
    LoadedEntriesLike(DumpText(ks, vs));
    forall i | 0 <= i < |ks| && ks[i].Some? && ':' !in ks[i].value ensures SectionLike(ks[i].value) {
      InSlotMap(ks, vs, ks[i].value);
    }
  }

  lemma RowsFine(ks: Keys, vs: Vals)
    requires Named(ks, vs) && OneLineValues(SlotMap(ks, vs))
    ensures RowsOk(DumpedRows(ks, vs))
    ensures LogicalLines("", DumpText(ks, vs)) == RowsToLines("", DumpedRows(ks, vs))
  {
    hide Named, Items, DumpedRows, DumpText, RowOk, RowsOk, OneLineValues, ItemOk, Text, LogicalLines, RowsToLines;
    NamedShape(ks, vs);
    var rows, m := DumpedRows(ks, vs), SlotMap(ks, vs);
    DumpTextIsRows(ks, vs);
    ItemsOk(ks, vs);
    forall it | it in Items(rows) ensures RowOk(Some(it)) {
      ItemRow(it, m);
    }
    RowsOkFromItems(rows);
    RowsAreLines("", rows);
  }

  // The loaded lines of a dump that loads back, aligned with its items: as many as entries.
  lemma LoadedLines(ks: Keys, vs: Vals) returns (ls: seq<string>)
    requires Named(ks, vs) && OneLineValues(SlotMap(ks, vs))
    requires LoadMeaning(DumpText(ks, vs)) == Loaded(SlotMap(ks, vs))
    ensures AllEmit(ls, Items(DumpedRows(ks, vs)))
    ensures FoldLines(START, ls).entries == SlotMap(ks, vs)
    ensures |Items(DumpedRows(ks, vs))| == |SlotMap(ks, vs)|
    ensures forall it :: it in Items(DumpedRows(ks, vs)) ==> |LineText(it)| < ASCIILINESZ
  {
    hide FoldLines, LogicalLines, RowsToLines, Items, DumpedRows, DumpText, RowsOk, AllEmit, Named,
         OneLineValues, LineText;
    NamedShape(ks, vs);
    var rows, m := DumpedRows(ks, vs), SlotMap(ks, vs);
    RowsFine(ks, vs);
    ItemCount(ks, vs);
    ls := LogicalLines("", DumpText(ks, vs)).value;
    LinesBound("", rows);
    AssignmentsFill(ls, |m|, m);
    Aligned(rows);
    RowsFit("", rows);
  }

  lemma SlotValue(ks: Keys, vs: Vals, p: nat)
    requires |ks| == |vs| && Distinct(ks) && p < |ks| && ks[p].Some?
    ensures ks[p].value in SlotMap(ks, vs) && SlotMap(ks, vs)[ks[p].value] == vs[p]
  {}

  // The dump's items and what its lines assign.
  lemma DumpRearranged(ks: Keys, vs: Vals) returns (ls: seq<string>)
    requires Named(ks, vs) && OneLineValues(SlotMap(ks, vs))
    requires LoadMeaning(DumpText(ks, vs)) == Loaded(SlotMap(ks, vs))
    ensures Rearranged(Items(DumpedRows(ks, vs)), Assignments("", ls), SectionsOf("", ls), SlotMap(ks, vs))
    ensures forall it :: it in Items(DumpedRows(ks, vs)) ==> |LineText(it)| < ASCIILINESZ
    ensures Owned(ks)
  {
    hide FoldLines, LoadMeaning, Items, DumpedRows, DumpText, AllEmit, Named, Owned, ItemOk, LineText,
         OneLineValues, Rearranged, KeyOf, Grouped;
    NamedShape(ks, vs);
    var items, m := Items(DumpedRows(ks, vs)), SlotMap(ks, vs);
    ls := LoadedLines(ks, vs);
    ItemsOk(ks, vs);
    ItemCount(ks, vs);
    forall k | k in m ensures exists i :: 0 <= i < |items| && KeyOf(items[i]) == k {
      ItemsCover(ks, vs, k);
    }
    LinesRearrange(items, ls, m);
  }

  // An item whose line is in place prints its entry.
  lemma HeadPrints(ks: Keys, vs: Vals, p: nat, ps: Pairs, curs: seq<string>, i: nat)
    requires Named(ks, vs) && p < |ks| && ks[p].Some?
    requires Rearranged(Items(DumpedRows(ks, vs)), ps, curs, SlotMap(ks, vs))
    requires i < |Items(DumpedRows(ks, vs))| && Items(DumpedRows(ks, vs))[i] == Head(ks[p].value)
    requires ItemOk(Head(ks[p].value), SlotMap(ks, vs)) && |LineText(Head(ks[p].value))| < ASCIILINESZ
    ensures EntryPrints(ks, vs, p)
  {
    hide Items, DumpedRows, SectionNames, Named, Lower, Rearranged;
    NamedShape(ks, vs);
    var items, m := Items(DumpedRows(ks, vs)), SlotMap(ks, vs);
    OwnLine(items, ps, curs, m, i);
    NamesTrimmed(items, ps, curs, m, i);
    LineStored(items, ps, curs, m, i);
    SlotValue(ks, vs, p);
    FirstIsHead(ks, vs);
    if ks[p].value == "" {
      EmptyNameFirst(items, ps, curs, m, i);
    }
  }

  lemma LineStored(items: seq<Item>, ps: Pairs, curs: seq<string>, m: Entries, i: nat)
    requires Rearranged(items, ps, curs, m) && i < |items|
    ensures i < |ps| && ps[i].0 in m && m[ps[i].0] == ps[i].1
  {}

  lemma MemberPrints(ks: Keys, vs: Vals, p: nat, it: Item, ps: Pairs, curs: seq<string>, i: nat)
    requires Named(ks, vs) && Owned(ks) && p < |ks| && ks[p].Some? && it.Member? && KeyOf(it) == ks[p].value
    requires Rearranged(Items(DumpedRows(ks, vs)), ps, curs, SlotMap(ks, vs))
    requires i < |Items(DumpedRows(ks, vs))| && Items(DumpedRows(ks, vs))[i] == it
    requires ItemOk(it, SlotMap(ks, vs)) && OneLineValues(SlotMap(ks, vs)) && |LineText(it)| < ASCIILINESZ
    ensures EntryPrints(ks, vs, p)
  {
    hide Items, DumpedRows, SectionNames, Named, KeySurvives, ValueSurvives, NoHeader, Rearranged;
    NamedShape(ks, vs);
    var items, m := Items(DumpedRows(ks, vs)), SlotMap(ks, vs);
    OwnLine(items, ps, curs, m, i);
    SlotValue(ks, vs, p);
    KeyColon(it);
    MemberKey(it.section, it.k);
  }

  lemma Necessary(ks: Keys, vs: Vals)
    requires Keyed(ks, vs) && LoadMeaning(DumpText(ks, vs)) == Loaded(SlotMap(ks, vs))
    ensures Printable(ks, vs)
  {
    hide LoadMeaning, Items, DumpedRows, DumpText, SectionNames, ItemOk, LineText, OneLineValues, Rearranged,
         EntryPrints, KeyOf, Named, Owned;
    LoadedIsNamed(ks, vs);
    NamedShape(ks, vs);
    var items, m := Items(DumpedRows(ks, vs)), SlotMap(ks, vs);
    ItemsOk(ks, vs);
    var ls := DumpRearranged(ks, vs);
    forall p | 0 <= p < |ks| && ks[p].Some? ensures EntryPrints(ks, vs, p) {
      var it := ItemOfSlot(ks, vs, p);
      var i :| 0 <= i < |items| && items[i] == it;
      if it.Head? {
        assert it == Head(ks[p].value) by { HeadKey(it); }
        HeadPrints(ks, vs, p, Assignments("", ls), SectionsOf("", ls), i);
      } else {
        MemberPrints(ks, vs, p, it, Assignments("", ls), SectionsOf("", ls), i);
      }
    }
  }

  lemma HeadKey(it: Item)
    requires it.Head?
    ensures it == Head(KeyOf(it))
  {}

  /** The round trip, both ways: among dictionaries with sections and printable keys, loading the
      text of iniparser_dump_ini gives the map that was dumped exactly when every section has a
      printable name and no value, the empty name comes first, no entry is orphaned and every
      value prints. */
  lemma DumpThenLoadIff(ks: Keys, vs: Vals)
    requires Keyed(ks, vs)
    ensures LoadMeaning(DumpText(ks, vs)) == Loaded(SlotMap(ks, vs)) <==> Printable(ks, vs)
  {
    hide LoadMeaning, DumpText, EntryPrints, KeyPrints, SectionNames;
    if LoadMeaning(DumpText(ks, vs)) == Loaded(SlotMap(ks, vs)) {
      Necessary(ks, vs);
    }
    if Printable(ks, vs) {
      DumpThenLoad(ks, vs);
    }
  }

  lemma LetterSurvives()
    ensures KeySurvives("k")
  {
    assert Lower("k") == "k";
  }

  lemma SemicolonDoesNotPrint(ks: Keys, vs: Vals)
    requires |ks| == |vs| == 2 && ks[1] == Some("s:k") && vs[1] == Some("a;b")
    ensures !EntryPrints(ks, vs, 1)
  {
    hide SectionNames, Before, KeySurvives, Padded;
    assert "s:k"[1] == ':' && "a;b"[1] == ';';
  }

  /** A value with a semicolon does not come back. */
  lemma SemicolonIsLost()
    ensures var ks, vs := [Some("s"), Some("s:k")], [None, Some("a;b")];
            Keyed(ks, vs) && LoadMeaning(DumpText(ks, vs)) != Loaded(SlotMap(ks, vs))
  {
    hide LoadMeaning, DumpText, SlotMap, SectionNames, KeySurvives, Before, EntryPrints;
    var ks, vs: Vals := [Some("s"), Some("s:k")], [None, Some("a;b")];
    SectionNamesExact(ks);
    assert ks[0] == Some("s") && "s" in SectionNames(ks);
    MemberKey("s", "k");
    assert "s" + ":" + "k" == "s:k";
    assert KeySurvives("k") by { LetterSurvives(); }
    assert !EntryPrints(ks, vs, 1) by { SemicolonDoesNotPrint(ks, vs); }
    DumpThenLoadIff(ks, vs);
  }

  /** A dictionary whose one section has an empty name does. */
  lemma EmptySectionComesBack()
    ensures var ks: Keys, vs: Vals := [Some("")], [None];
            Keyed(ks, vs) && LoadMeaning(DumpText(ks, vs)) == Loaded(SlotMap(ks, vs))
  {
    hide LoadMeaning, DumpText, SlotMap;
    var ks: Keys, vs: Vals := [Some("")], [None];
    assert ks[1..] == [] && Select(ks[1..], IsSectionName()) == [];
    assert SectionNames(ks) == [""];
    assert EntryPrints(ks, vs, 0) by { assert Lower("") == ""; }
    DumpThenLoadIff(ks, vs);
  }
}
