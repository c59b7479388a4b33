/** The printed text of a dictionary as rows, and how the loader's logical lines align with them. */
module DumpRows {
  import opened Options
  import opened CStrings
  import opened Slots
  import opened LoadSpec
  import opened IniEntries
  import opened Sections
  import opened Printer
  import opened PrintedLines
  import opened RoundTrip

  // What one printed line stands for: a section header or a pair of a section.
  datatype Item = Head(name: string) | Member(section: string, k: string, v: Option<string>)

  // A printed physical line: an item, or an empty line.
  type Row = Option<Item>

  function KeyOf(it: Item): string {
    match it
    case Head(name) => name
    case Member(section, k, _) => section + ":" + k
  }

  function LineText(it: Item): string {
    match it
    case Head(name) => "[" + name + "]\n"
    case Member(_, k, v) => PairLine(k, v)
  }

  function RowText(r: Row): string {
    if r.None? then "\n" else LineText(r.value)
  }

  function Text(rows: seq<Row>): string {
    if rows == [] then "" else RowText(rows[0]) + Text(rows[1..])
  }

  lemma {:induction false} TextAppend(a: seq<Row>, b: seq<Row>)
    ensures Text(a + b) == Text(a) + Text(b)
  {
    if a == [] {
      assert a + b == b;
    } else {
      assert (a + b)[1..] == a[1..] + b;
      TextAppend(a[1..], b);
      assert RowText(a[0]) + (Text(a[1..]) + Text(b)) == RowText(a[0]) + Text(a[1..]) + Text(b);
    }
  }

  // ----- The rows of a dump -----

  function MemberRows(ks: Keys, vs: Vals, section: string): seq<Row>
    requires |ks| == |vs|
  {
    if ks == [] then []
    else
      var prefix := section + ":";
      (if ks[0].Some? && prefix <= ks[0].value then [Some(Member(section, ks[0].value[|prefix|..], vs[0]))] else [])
      + MemberRows(ks[1..], vs[1..], section)
  }

  function SectionRows(ks: Keys, vs: Vals, name: string): seq<Row>
    requires |ks| == |vs|
  {
    [None, Some(Head(name))] + (MemberRows(ks, vs, name) + [None])
  }

  function AllRows(ks: Keys, vs: Vals, names: seq<string>): seq<Row>
    requires |ks| == |vs|
  {
    if names == [] then [] else SectionRows(ks, vs, names[0]) + AllRows(ks, vs, names[1..])
  }

  ghost function DumpedRows(ks: Keys, vs: Vals): seq<Row>
    requires |ks| == |vs|
  {
    AllRows(ks, vs, SectionNames(ks)) + [None]
  }

  lemma {:induction false} MembersText(ks: Keys, vs: Vals, section: string)
    requires |ks| == |vs|
    ensures Text(MemberRows(ks, vs, section)) == PairsText(ks, vs, section + ":")
    decreases |ks|
  {
    hide PairLine;
    if ks != [] {
      MembersText(ks[1..], vs[1..], section);
      var rest := MemberRows(ks[1..], vs[1..], section);
      var prefix := section + ":";
      if ks[0].Some? && prefix <= ks[0].value {
        var it := Member(section, ks[0].value[|prefix|..], vs[0]);
        assert ([Some(it)] + rest)[1..] == rest;
      } else {
        assert MemberRows(ks, vs, section) == rest;
        assert PairsText(ks, vs, prefix) == PairsText(ks[1..], vs[1..], prefix);
      }
    }
  }

  lemma SectionRowsText(ks: Keys, vs: Vals, name: string)
    requires |ks| == |vs| && Some(NormalForm(name)) in ks
    ensures Text(SectionRows(ks, vs, name)) == SectionText(ks, vs, name)
  {
    hide PairsText, MemberRows, NormalForm;
    var pairs := PairsText(ks, vs, name + ":");
    MembersText(ks, vs, name);
    TextAppend([None, Some(Head(name))], MemberRows(ks, vs, name) + [None]);
    TextAppend(MemberRows(ks, vs, name), [None]);
    BlankRow();
    HeadRows(name);
    HeadConcat(name, pairs);
  }

  lemma HeadConcat(name: string, pairs: string)
    ensures "\n" + ("[" + name + "]\n") + (pairs + "\n") == "\n[" + name + "]\n" + pairs + "\n"
  {}

  lemma BlankRow()
    ensures Text([None]) == "\n"
  {
    var rows: seq<Row> := [None];
    assert rows[1..] == [];
  }

  lemma HeadRows(name: string)
    ensures Text([None, Some(Head(name))]) == "\n" + ("[" + name + "]\n")
  {
    var rows: seq<Row> := [None, Some(Head(name))];
    var tail: seq<Row> := [Some(Head(name))];
    assert rows[1..] == tail && tail[1..] == [];
    assert Text(tail) == LineText(Head(name)) + "" == LineText(Head(name));
  }

  lemma {:induction false} AllRowsText(ks: Keys, vs: Vals, names: seq<string>)
    requires |ks| == |vs| && forall i :: 0 <= i < |names| ==> Some(NormalForm(names[i])) in ks
    ensures Text(AllRows(ks, vs, names)) == SectionsText(ks, vs, names)
    decreases |names|
  {
    hide SectionText, SectionRows, NormalForm;
    if names != [] {
      SectionRowsText(ks, vs, names[0]);
      AllRowsText(ks, vs, names[1..]);
      TextAppend(SectionRows(ks, vs, names[0]), AllRows(ks, vs, names[1..]));
    }
  }

  // ----- Logical lines of rows -----

  // A row that is one physical line of at least two characters, or empty.
  predicate RowOk(r: Row) {
    r.Some? ==>
      var p := LineText(r.value); EndsLine(p) && |p| >= 2 && '\n' !in p[..|p| - 1]
  }

  predicate RowsOk(rows: seq<Row>) {
    rows != [] ==> RowOk(rows[0]) && RowsOk(rows[1..])
  }

  function RowsToLines(pending: string, rows: seq<Row>): Option<seq<string>>
    decreases |rows|
  {
    if rows == [] then Some([])
    else
      var p := RowText(rows[0]);
      var t := TrimRight(pending + p);
      if Skipped(pending, p) then RowsToLines(pending, rows[1..])
      else if TooLong(pending, p) then None
      else if Continues(t) then RowsToLines(t[..|t| - 1], rows[1..])
      else
        var tail := RowsToLines("", rows[1..]);
        if tail.None? then None else Some([t] + tail.value)
  }

  lemma FirstRow(r: Row, rest: string)
    requires RowOk(r)
    ensures FirstLine(RowText(r) + rest) == RowText(r)
    ensures (RowText(r) + rest)[|RowText(r)|..] == rest
  {
    var w := RowText(r)[..|RowText(r)| - 1];
    assert RowText(r) == w + "\n";
    OneLine(w, rest);
  }

  lemma {:induction false} RowsAreLines(pending: string, rows: seq<Row>)
    requires RowsOk(rows)
    ensures LogicalLines(pending, Text(rows)) == RowsToLines(pending, rows)
    decreases |rows|
  {
    hide FirstLine, RowText, TrimRight, RowOk, TooLong;
    if rows != [] {
      var rest := Text(rows[1..]);
      FirstRow(rows[0], rest);
      assert RowText(rows[0]) != "" by { RowNonEmpty(rows[0]); }
      var t := TrimRight(pending + RowText(rows[0]));
      if Skipped(pending, RowText(rows[0])) {
        RowsAreLines(pending, rows[1..]);
      } else if Continues(t) {
        RowsAreLines(t[..|t| - 1], rows[1..]);
      } else {
        RowsAreLines("", rows[1..]);
      }
    }
  }

  lemma RowNonEmpty(r: Row)
    requires RowOk(r)
    ensures RowText(r) != ""
  {}

  // ----- Alignment -----

  // The items of a list of rows.
  function Items(rows: seq<Row>): seq<Item> {
    if rows == [] then []
    else (if rows[0].Some? then [rows[0].value] else []) + Items(rows[1..])
  }

  // There are at most as many logical lines as items, counting one that is pending.
  lemma {:induction false} LinesBound(pending: string, rows: seq<Row>)
    requires RowsOk(rows)
    requires RowsToLines(pending, rows).Some?
    ensures |RowsToLines(pending, rows).value| <= |Items(rows)| + (if pending == "" then 0 else 1)
    decreases |rows|
  {
    hide RowText, TrimRight, TooLong;
    if rows != [] {
      var p := RowText(rows[0]);
      var t := TrimRight(pending + p);
      assert rows[0].None? ==> |p| == 1 by { BlankLength(rows[0]); }
      if Skipped(pending, p) {
        LinesBound(pending, rows[1..]);
      } else if Continues(t) {
        LinesBound(t[..|t| - 1], rows[1..]);
      } else {
        LinesBound("", rows[1..]);
      }
    }
  }

  lemma BlankLength(r: Row)
    ensures r.None? ==> |RowText(r)| == 1
  {}

  // A logical line that is an item's printed line, up to a shortened value.
  ghost predicate Emits(t: string, it: Item) {
    match it
    case Head(name) => t == "[" + name + "]"
    case Member(_, k, v) => exists u :: Shortened(u, v) && t == TrimRight(PairLine(k, Some(u))) && !Continues(t)
  }

  ghost predicate Shortened(u: string, v: Option<string>) {
    u == TextOf(v) || |u| < |TextOf(v)|
  }

  // What is pending is the line of a pair without its last backslash.
  ghost predicate Carries(pending: string, it: Item) {
    it.Member? && exists x :: |x| < |TextOf(it.v)| && pending == Padded(it.k) + " = " + x
  }

  lemma CarryOn(k: string, v: Option<string>, u: string)
    requires Shortened(u, v)
    requires var t := TrimRight(PairLine(k, Some(u))); Continues(t)
    ensures var t := TrimRight(PairLine(k, Some(u)));
            forall it: Item :: it.Member? && it.k == k && it.v == v ==> Carries(t[..|t| - 1], it)
  {
    hide Padded, TrimRight, Strip;
    KeptIsTrimmed(k, u);
    var t := Kept(k, u);
    StripSuffix(u);
    var r := TrimRight(u);
    var x := r[..|r| - 1];
    assert t[..|t| - 1] == Padded(k) + " = " + x;
  }

  lemma StripSuffix(u: string)
    ensures |TrimRight(u)| <= |u|
    ensures Strip(u) != "" ==> TrimRight(u) != ""
  {
    hide Strip, TrimRight;
    var a := TrimRightOfStrip(u);
  }

  lemma PendingPair(k: string, x: string)
    ensures Padded(k) + " = " + x + "\n" == PairLine(k, Some(x))
  {}

  lemma PairText(k: string, v: Option<string>)
    ensures PairLine(k, v) == PairLine(k, Some(TextOf(v)))
  {}

  // Reading an item while another line is pending loses a line.
  lemma MergeLoses(pending: string, rows: seq<Row>)
    requires pending != "" && rows != [] && rows[0].Some? && RowsOk(rows)
    requires RowsToLines(pending, rows).Some?
    ensures |RowsToLines(pending, rows).value| <= |Items(rows)|
  {
    hide RowText, TrimRight, TooLong;
    var t := TrimRight(pending + RowText(rows[0]));
    if Continues(t) {
      LinesBound(t[..|t| - 1], rows[1..]);
    } else {
      LinesBound("", rows[1..]);
    }
  }

  ghost predicate AllEmit(ls: seq<string>, items: seq<Item>) {
    |ls| == |items| && forall i :: 0 <= i < |ls| ==> Emits(ls[i], items[i])
  }

  lemma EmitsCons(t: string, it: Item, ls: seq<string>, items: seq<Item>)
    requires Emits(t, it) && AllEmit(ls, items)
    ensures AllEmit([t] + ls, [it] + items)
  {}

  // Reading an empty line behind what is pending.
  lemma BlankStep(pending: string, rows: seq<Row>)
    requires pending != "" && rows != [] && rows[0].None? && RowsToLines(pending, rows).Some?
    ensures var t := TrimRight(pending + "\n");
            if Continues(t) then RowsToLines(pending, rows) == RowsToLines(t[..|t| - 1], rows[1..])
            else RowsToLines("", rows[1..]).Some?
                 && RowsToLines(pending, rows) == Some([t] + RowsToLines("", rows[1..]).value)
  {
    hide TrimRight, TooLong;
  }

  lemma EmitsPair(t: string, it: Item, u: string)
    requires it.Member? && Shortened(u, it.v) && t == TrimRight(PairLine(it.k, Some(u))) && !Continues(t)
    ensures Emits(t, it)
  {}

  lemma PendingValue(pending: string, it: Item) returns (x: string)
    requires Carries(pending, it)
    ensures it.Member? && pending != "" && Shortened(x, it.v)
    ensures TrimRight(pending + "\n") == TrimRight(PairLine(it.k, Some(x)))
  {
    hide TrimRight, Padded;
    x :| |x| < |TextOf(it.v)| && pending == Padded(it.k) + " = " + x;
    PendingPair(it.k, x);
  }

  // Reading an item's line with nothing pending.
  lemma ItemStep(it: Item, rows: seq<Row>) returns (t: string)
    requires rows != [] && rows[0] == Some(it) && RowOk(rows[0]) && RowsToLines("", rows).Some?
    ensures t == TrimRight(LineText(it))
    ensures if Continues(t) then it.Member? && RowsToLines("", rows) == RowsToLines(t[..|t| - 1], rows[1..])
            else Emits(t, it) && RowsToLines("", rows[1..]).Some?
                 && RowsToLines("", rows) == Some([t] + RowsToLines("", rows[1..]).value)
  {
    hide TrimRight, TooLong, PairLine;
    var p := RowText(rows[0]);
    assert "" + p == p && |p| >= 2;
    t := TrimRight(p);
    if it.Head? {
      HeadLine(it.name);
    } else {
      PairText(it.k, it.v);
      if !Continues(t) {
        EmitsPair(t, it, TextOf(it.v));
      }
    }
  }

  // Reading an empty line with nothing pending.
  lemma SkipStep(rows: seq<Row>)
    requires rows != [] && rows[0].None?
    ensures RowsToLines("", rows) == RowsToLines("", rows[1..]) && Items(rows) == Items(rows[1..])
  {
    hide TrimRight, TooLong;
  }

  lemma SkipItems(rows: seq<Row>)
    requires rows != [] && rows[0].None?
    ensures Items(rows) == Items(rows[1..])
  {
    assert [] + Items(rows[1..]) == Items(rows[1..]);
  }

  lemma ContinuesSome(t: string)
    requires Continues(t)
    ensures t != ""
  {}

  lemma ItemsCons(rows: seq<Row>)
    requires rows != []
    ensures Items(rows) == (if rows[0].Some? then [rows[0].value] else []) + Items(rows[1..])
  {}

  /** When no line is lost, every logical line is the printed line of its item, up to a value
      shortened by trailing backslashes. */
  lemma {:induction false} Aligned(rows: seq<Row>)
    requires RowsOk(rows) && RowsToLines("", rows).Some?
    requires |RowsToLines("", rows).value| == |Items(rows)|
    ensures AllEmit(RowsToLines("", rows).value, Items(rows))
    decreases |rows|
  {
    hide TrimRight, Padded, PairLine, Carries, Emits;
    if rows != [] {
      hide RowsToLines, Items, RowOk;
      var rest := rows[1..];
      if rows[0].None? {
        SkipStep(rows);
        Aligned(rest);
      } else {
        var it := rows[0].value;
        var t := ItemStep(it, rows);
        ItemsCons(rows);
        if Continues(t) {
          PairText(it.k, it.v);
          CarryOn(it.k, it.v, TextOf(it.v));
          AlignedPending(t[..|t| - 1], it, rest);
        } else {
          Aligned(rest);
          EmitsCons(t, it, RowsToLines("", rest).value, Items(rest));
        }
      }
    }
  }

  lemma {:induction false} AlignedPending(pending: string, it: Item, rows: seq<Row>)
    requires RowsOk(rows) && Carries(pending, it) && RowsToLines(pending, rows).Some?
    requires |RowsToLines(pending, rows).value| == |Items(rows)| + 1
    ensures AllEmit(RowsToLines(pending, rows).value, [it] + Items(rows))
    decreases |rows|
  {
    hide TrimRight, Padded, PairLine, Carries, Emits;
    var x := PendingValue(pending, it);
    if rows != [] {
      hide RowsToLines, Items, RowOk;
      if rows[0].Some? {
        MergeLoses(pending, rows);
      } else {
        hide Continues, Shortened, AllEmit;
        var rest := rows[1..];
        var t := TrimRight(pending + "\n");
        BlankStep(pending, rows);
        SkipItems(rows);
        if Continues(t) {
          CarryOn(it.k, it.v, x);
          assert t != "" by { ContinuesSome(t); }
          AlignedPending(t[..|t| - 1], it, rest);
        } else {
          Aligned(rest);
          EmitsPair(t, it, x);
          EmitsCons(t, it, RowsToLines("", rest).value, Items(rest));
        }
      }
    }
  }
}
