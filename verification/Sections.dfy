/** Section queries of iniparser.c over the slots of a dictionary. */
module Sections {
  import opened Options
  import opened CStrings
  import opened Slots
  import opened DictionaryStore
  import opened IniEntries

  // The keys in use that satisfy a test, in slot order.
  ghost function Select(ks: Keys, test: string -> bool): (r: seq<string>)
    ensures |r| <= |ks|
  {
    if ks == [] then []
    else (if ks[0].Some? && test(ks[0].value) then [ks[0].value] else []) + Select(ks[1..], test)
  }

  ghost function IsSectionName(): string -> bool { k => ':' !in k }

  ghost function StartsWith(prefix: string): string -> bool { k => prefix <= k }

  // The sections of a dictionary: the keys without a colon.
  ghost function SectionNames(ks: Keys): seq<string> {
    Select(ks, IsSectionName())
  }

  // The keys of a section: those that start with its lower-cased name and a colon.
  ghost function SectionKeys(ks: Keys, name: string): seq<string> {
    Select(ks, StartsWith(Lower(name) + ":"))
  }

  // ----- A selection is exact -----

  lemma {:induction false} SelectMembers(ks: Keys, test: string -> bool, x: string)
    ensures x in Select(ks, test) <==> Some(x) in ks && test(x)
  {
    if ks != [] {
      SelectMembers(ks[1..], test, x);
      assert ks == [ks[0]] + ks[1..];
    }
  }

  /** Each selected key is listed once, and in slot order. */
  lemma {:induction false} SelectOrder(ks: Keys, test: string -> bool, i: nat, j: nat) returns (p: nat, q: nat)
    requires i < j < |Select(ks, test)|
    ensures p < q < |ks| && ks[p] == Some(Select(ks, test)[i]) && ks[q] == Some(Select(ks, test)[j])
  {
    var head := ks[0].Some? && test(ks[0].value);
    if head && i == 0 {
      p := 0;
      q := SelectSlot(ks[1..], test, j - 1);
      q := q + 1;
    } else {
      p, q := SelectOrder(ks[1..], test, if head then i - 1 else i, if head then j - 1 else j);
      p, q := p + 1, q + 1;
    }
  }

  lemma {:induction false} SelectSlot(ks: Keys, test: string -> bool, i: nat) returns (p: nat)
    requires i < |Select(ks, test)|
    ensures p < |ks| && ks[p] == Some(Select(ks, test)[i])
  {
    if ks[0].Some? && test(ks[0].value) && i == 0 {
      p := 0;
    } else {
      p := SelectSlot(ks[1..], test, if ks[0].Some? && test(ks[0].value) then i - 1 else i);
      p := p + 1;
    }
  }

  ghost predicate InSlotOrder(ks: Keys, x: string, y: string) {
    exists p, q :: 0 <= p < q < |ks| && ks[p] == Some(x) && ks[q] == Some(y)
  }

  // A selection is exactly the keys that satisfy the test, each once, in slot order.
  lemma SelectExact(ks: Keys, test: string -> bool)
    requires Distinct(ks)
    ensures forall x :: x in Select(ks, test) <==> Some(x) in ks && test(x)
    ensures forall i, j :: 0 <= i < j < |Select(ks, test)| ==>
              Select(ks, test)[i] != Select(ks, test)[j] && InSlotOrder(ks, Select(ks, test)[i], Select(ks, test)[j])
  {
    hide Select;
    forall x ensures x in Select(ks, test) <==> Some(x) in ks && test(x) {
      SelectMembers(ks, test, x);
    }
    forall i, j | 0 <= i < j < |Select(ks, test)|
      ensures Select(ks, test)[i] != Select(ks, test)[j] && InSlotOrder(ks, Select(ks, test)[i], Select(ks, test)[j])
    {
      var p, q := SelectOrder(ks, test, i, j);
    }
  }

  /** Section enumeration is exact: the names are the colon-free keys, each once, in slot order. */
  lemma SectionNamesExact(ks: Keys)
    requires Distinct(ks)
    ensures forall x :: x in SectionNames(ks) <==> Some(x) in ks && ':' !in x
    ensures forall i, j :: 0 <= i < j < |SectionNames(ks)| ==> SectionNames(ks)[i] != SectionNames(ks)[j]
    ensures forall i, j :: 0 <= i < j < |SectionNames(ks)| ==>
              InSlotOrder(ks, SectionNames(ks)[i], SectionNames(ks)[j])
  {
    hide Select, InSlotOrder;
    SelectExact(ks, IsSectionName());
  }

  /** Key listing is exact: the keys that start with the lower-cased name and a colon, each once, in
      slot order. */
  lemma SectionKeysExact(ks: Keys, name: string)
    requires Distinct(ks)
    ensures forall x :: x in SectionKeys(ks, name) <==> Some(x) in ks && Lower(name) + ":" <= x
    ensures forall i, j :: 0 <= i < j < |SectionKeys(ks, name)| ==> SectionKeys(ks, name)[i] != SectionKeys(ks, name)[j]
    ensures forall i, j :: 0 <= i < j < |SectionKeys(ks, name)| ==>
              InSlotOrder(ks, SectionKeys(ks, name)[i], SectionKeys(ks, name)[j])
  {
    hide Select, InSlotOrder, Lower;
    SelectExact(ks, StartsWith(Lower(name) + ":"));
  }

  // ----- The loops -----

  lemma SelectNext(ks: Keys, test: string -> bool, i: nat)
    requires i < |ks|
    ensures Select(ks[i..], test) ==
            (if ks[i].Some? && test(ks[i].value) then [ks[i].value] else []) + Select(ks[i + 1..], test)
  {
    assert ks[i..][1..] == ks[i + 1..];
  }

  // From slot j on, the selection is what a list holds from place i on.
  ghost predicate Left(ks: Keys, test: string -> bool, all: seq<string>, i: nat, j: nat) {
    j <= |ks| && i <= |all| && all[i..] == Select(ks[j..], test)
  }

  lemma AllLeft(ks: Keys, test: string -> bool)
    ensures Left(ks, test, Select(ks, test), 0, 0)
  {
    assert ks[0..] == ks;
  }

  lemma NextLeft(ks: Keys, test: string -> bool, all: seq<string>, i: nat, j: nat)
    requires Left(ks, test, all, i, j) && j < |ks|
    ensures if ks[j].Some? && test(ks[j].value)
            then i < |all| && all[i] == ks[j].value && Left(ks, test, all, i + 1, j + 1)
            else Left(ks, test, all, i, j + 1)
  {
    SelectNext(ks, test, j);
    if ks[j].Some? && test(ks[j].value) {
      assert all[i + 1..] == all[i..][1..];
    }
  }

  lemma NoneLeft(ks: Keys, test: string -> bool, all: seq<string>, i: nat)
    requires Left(ks, test, all, i, |ks|)
    ensures i == |all|
  {
    assert ks[|ks|..] == [];
  }

  lemma FillOne(all: seq<string>, before: seq<string>, i: nat)
    requires i < |all| <= |before|
    ensures (all[..i] + before[i..])[i := all[i]] == all[..i + 1] + before[i + 1..]
  {}

  lemma NothingFilled(before: seq<string>)
    ensures before == [] + before[0..]
  {}

  /** iniparser_getnsec */
  method GetNSec(d: Dictionary) returns (nsec: nat)
    requires d.Valid()
    ensures nsec == |SectionNames(d.key[..])|
  {
    ghost var ks := d.key[..];
    nsec := 0;
    assert ks[0..] == ks;
    for i := 0 to d.size
      invariant nsec + |Select(ks[i..], IsSectionName())| == |SectionNames(ks)|
    {
      SelectNext(ks, IsSectionName(), i);
      if d.key[i].Some? && ':' !in d.key[i].value {
        nsec := nsec + 1;
      }
    }
  }

  /** iniparser_getsecname: the n-th section name, None for every other number. */
  method GetSecName(d: Dictionary, n: int) returns (name: Option<string>)
    requires d.Valid()
    ensures name == if 0 <= n < |SectionNames(d.key[..])| then Some(SectionNames(d.key[..])[n]) else None
  {
    if n < 0 {
      return None;
    }
    hide SlotMap, WellFormed, Select, Left;
    ghost var ks := d.key[..];
    ghost var all := SectionNames(ks);
    var foundsec: nat := 0;
    AllLeft(ks, IsSectionName());
    for i := 0 to d.size
      invariant foundsec <= n && Left(ks, IsSectionName(), all, foundsec, i)
    {
      NextLeft(ks, IsSectionName(), all, foundsec, i);
      if d.key[i].Some? && ':' !in d.key[i].value {
        foundsec := foundsec + 1;
        if foundsec > n {
          return d.key[i];
        }
      }
    }
    NoneLeft(ks, IsSectionName(), all, foundsec);
    return None;
  }

  // strncmp over n characters, for a prefix without NULs.
  method SamePrefix(key: string, prefix: array<char>, n: nat) returns (same: bool)
    requires n <= prefix.Length && NulFree(prefix[..n])
    ensures same <==> prefix[..n] <= key
  {
    var i := 0;
    while i < n
      invariant i <= n && i <= |key|
      invariant prefix[..i] == key[..i]
    {
      assert prefix[i] == prefix[..n][i] && prefix[i] in prefix[..n];
      if (if i < |key| then key[i] else NUL) != prefix[i] {
        return false;
      }
      i := i + 1;
    }
    return true;
  }

  // The lower-cased section name with a colon in place of its terminator.
  method KeyPrefix(s: array<char>, seclen: nat) returns (keym: array<char>)
    requires Terminated(s[..]) && seclen == |CStr(s[..])| <= ASCIILINESZ
    ensures fresh(keym) && seclen + 1 <= keym.Length
    ensures keym[..seclen + 1] == Lower(CStr(s[..])) + ":" && NulFree(keym[..seclen + 1])
  {
    ghost var name := CStr(s[..]);
    keym := new char[ASCIILINESZ + 1];
    StrLwc(s, keym, ASCIILINESZ + 1);
    assert Take(name, ASCIILINESZ) == name;
    LowerNulFree(name);
    assert keym[..seclen] == Lower(name);
    keym[seclen] := ':';
  }

  // What iniparser_getsecnkeys answers: 0 for a section that is not an entry.
  ghost function SecNKeys(ks: Keys, name: string): nat {
    if Some(NormalForm(name)) in ks then |SectionKeys(ks, name)| else 0
  }

  /** iniparser_getsecnkeys */
  method GetSecNKeys(d: Dictionary, s: array<char>) returns (nkeys: nat)
    requires d.Valid() && Terminated(s[..]) && |CStr(s[..])| <= ASCIILINESZ
    ensures nkeys == SecNKeys(d.key[..], CStr(s[..]))
    ensures nkeys == if Some(NormalForm(CStr(s[..]))) in d.key[..] then |SectionKeys(d.key[..], CStr(s[..]))| else 0
  {
    hide Lower, SlotMap, CStr, Select, NormalForm, WellFormed;
    d.Present(NormalForm(CStr(s[..])));
    var found := FindEntry(d, s);
    if !found {
      return 0;
    }
    var seclen := StrLen(s);
    var keym := KeyPrefix(s, seclen);
    nkeys := CountKeys(d, keym, seclen + 1);
  }

  // The counting loop of iniparser_getsecnkeys.
  method CountKeys(d: Dictionary, keym: array<char>, n: nat) returns (nkeys: nat)
    requires d.Valid() && n <= keym.Length && NulFree(keym[..n])
    ensures nkeys == |Select(d.key[..], StartsWith(keym[..n]))|
  {
    hide SlotMap, WellFormed, Select, Left;
    ghost var ks, prefix := d.key[..], keym[..n];
    ghost var test := StartsWith(prefix);
    nkeys := 0;
    AllLeft(ks, test);
    for j := 0 to d.size
      invariant keym[..n] == prefix
      invariant Left(ks, test, Select(ks, test), nkeys, j)
    {
      NextLeft(ks, test, Select(ks, test), nkeys, j);
      if d.key[j].Some? {
        var same := SamePrefix(d.key[j].value, keym, n);
        if same {
          nkeys := nkeys + 1;
        }
      }
    }
    NoneLeft(ks, test, Select(ks, test), nkeys);
  }

  /** iniparser_getseckeys: fills the caller's array with the section's keys, in slot order, and
      touches nothing behind them. */
  method GetSecKeys(d: Dictionary, s: array<char>, keys: array<string>) returns (ok: bool)
    requires d.Valid() && Terminated(s[..]) && |CStr(s[..])| <= ASCIILINESZ
    requires SecNKeys(d.key[..], CStr(s[..])) <= keys.Length
    modifies keys
    ensures ok <==> Some(NormalForm(CStr(s[..]))) in d.key[..]
    ensures keys[..] == (if ok then SectionKeys(d.key[..], CStr(s[..])) else [])
                        + old(keys[..])[SecNKeys(d.key[..], CStr(s[..]))..]
  {
    hide Lower, SlotMap, CStr, Select, NormalForm, WellFormed;
    d.Present(NormalForm(CStr(s[..])));
    var found := FindEntry(d, s);
    if !found {
      NothingFilled(keys[..]);
      return false;
    }
    var seclen := StrLen(s);
    var keym := KeyPrefix(s, seclen);
    FillKeys(d, keym, seclen + 1, keys);
    return true;
  }

  // The copying loop of iniparser_getseckeys.
  method FillKeys(d: Dictionary, keym: array<char>, n: nat, keys: array<string>)
    requires d.Valid() && n <= keym.Length && NulFree(keym[..n])
    requires |Select(d.key[..], StartsWith(keym[..n]))| <= keys.Length
    modifies keys
    ensures var all := Select(d.key[..], StartsWith(keym[..n])); keys[..] == all + old(keys[..])[|all|..]
  {
    hide SlotMap, WellFormed, Select, Left;
    ghost var ks, prefix, before := d.key[..], keym[..n], keys[..];
    ghost var test := StartsWith(prefix);
    ghost var all := Select(ks, test);
    var i: nat := 0;
    AllLeft(ks, test);
    for j := 0 to d.size
      invariant keym[..n] == prefix && d.key[..] == ks
      invariant i <= |all| && Left(ks, test, all, i, j)
      invariant keys[..] == all[..i] + before[i..]
    {
      NextLeft(ks, test, all, i, j);
      if d.key[j].Some? {
        var same := SamePrefix(d.key[j].value, keym, n);
        if same {
          FillOne(all, before, i);
          ghost var now := keys[..];
          keys[i] := d.key[j].value;
          assert keys[..] == now[i := all[i]];
          i := i + 1;
        }
      }
    }
    NoneLeft(ks, test, all, i);
    assert all[..i] == all;
  }
}
