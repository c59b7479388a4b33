/** The items a dump prints: how many, which, and under which section. */
module DumpItems {
  import opened Options
  import opened CStrings
  import opened Slots
  import opened IniEntries
  import opened Sections
  import opened Partition
  import opened DumpRows
  import opened LoadedNames
  import opened Permutation

  // ----- The items of a dump -----

  lemma TailAppend<T>(a: seq<T>, b: seq<T>)
    requires a != []
    ensures (a + b)[0] == a[0] && (a + b)[1..] == a[1..] + b
  {}

  lemma Assoc<T>(a: seq<T>, b: seq<T>, c: seq<T>)
    ensures a + (b + c) == a + b + c
  {}

  lemma {:induction false} ItemsAppend(a: seq<Row>, b: seq<Row>)
    ensures Items(a + b) == Items(a) + Items(b)
  {
    if a == [] {
      assert a + b == b;
    } else {
      hide Items;
      ItemsAppend(a[1..], b);
      TailAppend(a, b);
      ItemsCons(a + b);
      ItemsCons(a);
      Assoc(if a[0].Some? then [a[0].value] else [], Items(a[1..]), Items(b));
    }
  }

  // What slot 0 adds to a section.
  function FirstMember(ks: Keys, vs: Vals, section: string): seq<Item>
    requires |ks| == |vs| > 0
  {
    if ks[0].Some? && section + ":" <= ks[0].value
    then [Member(section, ks[0].value[|section| + 1..], vs[0])] else []
  }

  lemma MemberRowsCons(ks: Keys, vs: Vals, section: string)
    requires |ks| == |vs| > 0
    ensures var it, rest := FirstMember(ks, vs, section), MemberRows(ks[1..], vs[1..], section);
            MemberRows(ks, vs, section) == if it == [] then rest else [Some(it[0])] + rest
  {
    var prefix := section + ":";
    assert |prefix| == |section| + 1;
    hide MemberRows;
    MemberRowsUnfold(ks, vs, section);
    var rest := MemberRows(ks[1..], vs[1..], section);
    assert [] + rest == rest;
  }

  lemma MemberRowsUnfold(ks: Keys, vs: Vals, section: string)
    requires |ks| == |vs| > 0
    ensures var prefix := section + ":";
            MemberRows(ks, vs, section) ==
            (if ks[0].Some? && prefix <= ks[0].value then [Some(Member(section, ks[0].value[|prefix|..], vs[0]))] else [])
            + MemberRows(ks[1..], vs[1..], section)
  {}

  // The pairs of a section, one slot at a time.
  lemma MemberCons(ks: Keys, vs: Vals, section: string)
    requires |ks| == |vs| > 0
    ensures Items(MemberRows(ks, vs, section)) ==
            FirstMember(ks, vs, section) + Items(MemberRows(ks[1..], vs[1..], section))
  {
    hide Items, MemberRows;
    MemberRowsCons(ks, vs, section);
    var it, rest := FirstMember(ks, vs, section), MemberRows(ks[1..], vs[1..], section);
    hide FirstMember;
    if it == [] {
      assert [] + Items(rest) == Items(rest);
    } else {
      OneMember(ks, vs, section);
      PushItem(it[0], rest);
    }
  }

  lemma OneMember(ks: Keys, vs: Vals, section: string)
    requires |ks| == |vs| > 0 && FirstMember(ks, vs, section) != []
    ensures [FirstMember(ks, vs, section)[0]] == FirstMember(ks, vs, section)
  {}

  lemma PushItem(it: Item, rows: seq<Row>)
    ensures Items([Some(it)] + rows) == [it] + Items(rows)
  {
    assert ([Some(it)] + rows)[1..] == rows;
  }

  lemma {:induction false} MemberItemsCount(ks: Keys, vs: Vals, section: string)
    requires |ks| == |vs|
    ensures |Items(MemberRows(ks, vs, section))| == |Select(ks, StartsWith(section + ":"))|
    decreases |ks|
  {
    hide Items, MemberRows;
    if ks == [] {
      NoMembers(ks, vs, section);
    } else {
      MemberCons(ks, vs, section);
      MemberItemsCount(ks[1..], vs[1..], section);
    }
  }

  lemma NoMembers(ks: Keys, vs: Vals, section: string)
    requires |ks| == |vs| == 0
    ensures Items(MemberRows(ks, vs, section)) == []
  {}

  // Every item of a section comes from a slot.
  ghost predicate FromSlot(ks: Keys, vs: Vals, it: Item)
    requires |ks| == |vs| && it.Member?
  {
    exists i :: 0 <= i < |ks| && ks[i] == Some(KeyOf(it)) && vs[i] == it.v
  }

  lemma FromLaterSlot(ks: Keys, vs: Vals, it: Item)
    requires |ks| == |vs| > 0 && it.Member? && FromSlot(ks[1..], vs[1..], it)
    ensures FromSlot(ks, vs, it)
  {
    hide KeyOf;
    var i :| 0 <= i < |ks[1..]| && ks[1..][i] == Some(KeyOf(it)) && vs[1..][i] == it.v;
    assert ks[i + 1] == Some(KeyOf(it)) && vs[i + 1] == it.v;
  }

  lemma {:induction false} MemberItemsListed(ks: Keys, vs: Vals, section: string, it: Item)
    requires |ks| == |vs| && it in Items(MemberRows(ks, vs, section))
    ensures it.Member? && it.section == section && FromSlot(ks, vs, it)
    decreases |ks|
  {
    hide Items, MemberRows;
    if ks == [] {
      NoMembers(ks, vs, section);
    } else {
      MemberCons(ks, vs, section);
      if it in Items(MemberRows(ks[1..], vs[1..], section)) {
        MemberItemsListed(ks[1..], vs[1..], section, it);
        FromLaterSlot(ks, vs, it);
      } else {
        assert KeyOf(it) == ks[0].value;
      }
    }
  }

  lemma {:induction false} MemberItemsCover(ks: Keys, vs: Vals, section: string, i: nat)
    requires |ks| == |vs| && i < |ks| && ks[i].Some? && section + ":" <= ks[i].value
    ensures Member(section, ks[i].value[|section| + 1..], vs[i]) in Items(MemberRows(ks, vs, section))
    decreases |ks|
  {
    hide Items, MemberRows;
    MemberCons(ks, vs, section);
    if i > 0 {
      MemberItemsCover(ks[1..], vs[1..], section, i - 1);
    }
  }

  // The keys with a section's prefix are counted by iniparser_getsecnkeys.
  lemma MemberCount(ks: Keys, vs: Vals, name: string)
    requires |ks| == |vs| && NormalForm(name) == name && Some(name) in ks && Lower(name) == name
    ensures |Items(SectionRows(ks, vs, name))| == 1 + SecNKeys(ks, name)
    ensures Items(SectionRows(ks, vs, name)) == [Head(name)] + Items(MemberRows(ks, vs, name))
  {
    hide Lower, Select, MemberRows;
    MemberItemsCount(ks, vs, name);
    var members := MemberRows(ks, vs, name);
    ItemsAppend([None, Some(Head(name))], members + [None]);
    ItemsAppend(members, [None]);
    BlankItems();
    HeadItems(name);
    assert [Head(name)] + (Items(members) + []) == [Head(name)] + Items(members);
  }

  lemma BlankItems()
    ensures Items([None]) == []
  {
    var rows: seq<Row> := [None];
    assert rows[1..] == [];
  }

  lemma HeadItems(name: string)
    ensures Items([None, Some(Head(name))]) == [Head(name)]
  {
    var rows: seq<Row> := [None, Some(Head(name))];
    var tail: seq<Row> := [Some(Head(name))];
    assert rows[1..] == tail && tail[1..] == [];
    assert Items(tail) == [Head(name)] + [];
  }

  // A name that is printed and counted as it is.
  ghost predicate NameOk(ks: Keys, name: string) {
    NormalForm(name) == name && Lower(name) == name && Some(name) in ks && ':' !in name && SectionLike(name)
  }

  // An item of the dump of a list of sections.
  ghost predicate Listed(ks: Keys, vs: Vals, names: seq<string>, it: Item)
    requires |ks| == |vs|
  {
    match it
    case Head(name) => name in names
    case Member(section, _, _) => section in names && FromSlot(ks, vs, it)
  }

  // Every item of a section follows its header.
  predicate Grouped(cur: string, items: seq<Item>)
    decreases |items|
  {
    if items == [] then true
    else match items[0]
      case Head(name) => Grouped(name, items[1..])
      case Member(section, _, _) => section == cur && Grouped(cur, items[1..])
  }

  lemma {:induction false} GroupedMembers(name: string, members: seq<Item>, rest: seq<Item>)
    requires forall it :: it in members ==> it.Member? && it.section == name
    requires forall cur :: Grouped(cur, rest)
    ensures Grouped(name, members + rest)
    decreases |members|
  {
    if members == [] {
      assert members + rest == rest;
    } else {
      assert (members + rest)[1..] == members[1..] + rest;
      assert members[0] in members;
      GroupedMembers(name, members[1..], rest);
    }
  }

  lemma GroupedSection(cur: string, name: string, members: seq<Item>, rest: seq<Item>)
    requires Grouped(name, members + rest)
    ensures Grouped(cur, [Head(name)] + members + rest)
  {
    var items := [Head(name)] + members + rest;
    assert items[1..] == members + rest;
  }

  // The items of a list of sections, one section at a time.
  lemma SplitItems(ks: Keys, vs: Vals, names: seq<string>)
    requires |ks| == |vs| && names != [] && NameOk(ks, names[0])
    ensures Items(AllRows(ks, vs, names)) ==
            [Head(names[0])] + Items(MemberRows(ks, vs, names[0])) + Items(AllRows(ks, vs, names[1..]))
    ensures |Items(MemberRows(ks, vs, names[0]))| == SecNKeys(ks, names[0])
  {
    hide SectionRows, MemberRows, SecNKeys, NormalForm, Lower, SectionLike;
    MemberCount(ks, vs, names[0]);
    ItemsAppend(SectionRows(ks, vs, names[0]), AllRows(ks, vs, names[1..]));
  }

  lemma {:induction false} CountItems(ks: Keys, vs: Vals, names: seq<string>)
    requires |ks| == |vs| && forall i :: 0 <= i < |names| ==> NameOk(ks, names[i])
    ensures |Items(AllRows(ks, vs, names))| == |names| + SumKeys(ks, names)
    ensures forall cur :: Grouped(cur, Items(AllRows(ks, vs, names)))
    decreases |names|
  {
    hide SectionRows, MemberRows, SecNKeys, NameOk;
    if names != [] {
      SplitItems(ks, vs, names);
      CountItems(ks, vs, names[1..]);
      forall it | it in Items(MemberRows(ks, vs, names[0])) ensures it.Member? && it.section == names[0] {
        MemberItemsListed(ks, vs, names[0], it);
      }
      var members, others := Items(MemberRows(ks, vs, names[0])), Items(AllRows(ks, vs, names[1..]));
      hide AllRows, Items;
      GroupedMembers(names[0], members, others);
      forall cur ensures Grouped(cur, Items(AllRows(ks, vs, names))) {
        GroupedSection(cur, names[0], members, others);
      }
    }
  }

  lemma {:induction false} ListedItems(ks: Keys, vs: Vals, names: seq<string>)
    requires |ks| == |vs| && forall i :: 0 <= i < |names| ==> NameOk(ks, names[i])
    ensures forall it :: it in Items(AllRows(ks, vs, names)) ==> Listed(ks, vs, names, it)
    decreases |names|
  {
    hide SectionRows, MemberRows, NameOk, FromSlot;
    if names != [] {
      SplitItems(ks, vs, names);
      ListedItems(ks, vs, names[1..]);
      hide AllRows, Items;
      assert names == [names[0]] + names[1..];
      forall it | it in Items(AllRows(ks, vs, names)) ensures Listed(ks, vs, names, it) {
        if it in Items(AllRows(ks, vs, names[1..])) {
          assert Listed(ks, vs, names[1..], it);
        } else if it in Items(MemberRows(ks, vs, names[0])) {
          MemberItemsListed(ks, vs, names[0], it);
        }
      }
    }
  }

  lemma {:induction false} HeadsCovered(ks: Keys, vs: Vals, names: seq<string>, name: string)
    requires |ks| == |vs| && (forall i :: 0 <= i < |names| ==> NameOk(ks, names[i])) && name in names
    ensures Head(name) in Items(AllRows(ks, vs, names))
    decreases |names|
  {
    hide SectionRows, MemberRows, NameOk;
    SplitItems(ks, vs, names);
    if name != names[0] {
      assert names == [names[0]] + names[1..];
      HeadsCovered(ks, vs, names[1..], name);
    }
  }

  lemma {:induction false} MembersCovered(ks: Keys, vs: Vals, names: seq<string>, name: string, i: nat)
    requires |ks| == |vs| && (forall j :: 0 <= j < |names| ==> NameOk(ks, names[j])) && name in names
    requires i < |ks| && ks[i].Some? && name + ":" <= ks[i].value
    ensures Member(name, ks[i].value[|name| + 1..], vs[i]) in Items(AllRows(ks, vs, names))
    decreases |names|
  {
    hide SectionRows, MemberRows, NameOk;
    SplitItems(ks, vs, names);
    if name == names[0] {
      MemberItemsCover(ks, vs, name, i);
    } else {
      assert names == [names[0]] + names[1..];
      MembersCovered(ks, vs, names[1..], name, i);
    }
  }

  lemma {:induction false} ContextShift(cur: string, items: seq<Item>, i: nat)
    requires Grouped(cur, items) && i < |items| && items[i].Member?
    ensures items[i].section == Context(cur, items, i)
    decreases i
  {
    if i > 0 {
      ContextShift(if items[0].Head? then items[0].name else cur, items[1..], i - 1);
      ContextFront(cur, items, i);
    }
  }

  lemma {:induction false} ContextFront(cur: string, items: seq<Item>, i: nat)
    requires 0 < i <= |items|
    ensures Context(cur, items, i) == Context(if items[0].Head? then items[0].name else cur, items[1..], i - 1)
    decreases i
  {
    if i > 1 {
      ContextFront(cur, items, i - 1);
    }
  }
}
