/** The section queries partition the entries of a dictionary. */
module Partition {
  import opened Options
  import opened CStrings
  import opened Scanf
  import opened Slots
  import opened IniEntries
  import opened Sections

  // The text before the first colon.
  function Before(k: string): string {
    k[..RunExcept(k, {':'})]
  }

  // What a caller gets by adding iniparser_getsecnkeys over a list of sections.
  ghost function SumKeys(ks: Keys, names: seq<string>): nat {
    if names == [] then 0 else SecNKeys(ks, names[0]) + SumKeys(ks, names[1..])
  }

  ghost function BelongsTo(names: seq<string>): string -> bool {
    k => ':' in k && Before(k) in names
  }

  lemma BeforeIs(name: string, k: string)
    requires ':' !in name
    ensures name + ":" <= k <==> ':' in k && Before(k) == name
  {
    var n := RunExcept(k, {':'});
    if name + ":" <= k {
      assert k[|name|] == (name + ":")[|name|] == ':';
      assert forall i :: 0 <= i < |name| ==> k[i] == (name + ":")[i] == name[i];
      assert n == |name|;
    }
    if ':' in k && Before(k) == name {
      assert k[n] == ':' && k[..n + 1] == name + ":";
    }
  }

  lemma {:induction false} SelectSplit(ks: Keys, p: string -> bool, q: string -> bool, r: string -> bool)
    requires forall k :: r(k) <==> p(k) || q(k)
    requires forall k :: !(p(k) && q(k))
    ensures |Select(ks, r)| == |Select(ks, p)| + |Select(ks, q)|
  {
    if ks != [] {
      SelectSplit(ks[1..], p, q, r);
    }
  }

  lemma {:induction false} SelectAll(ks: Keys, p: string -> bool)
    requires forall k :: p(k)
    ensures |Select(ks, p)| == Occupied(ks)
  {
    if ks != [] {
      SelectAll(ks[1..], p);
    }
  }

  // A name the queries can address as it is stored.
  ghost predicate Addressable(ks: Keys, name: string) {
    ':' !in name && Lower(name) == name && |name| <= ASCIILINESZ && Some(name) in ks
  }

  // Over distinct sections the counts add up to the keys that belong to one of them.
  lemma {:induction false} SumIsSelection(ks: Keys, names: seq<string>)
    requires forall i :: 0 <= i < |names| ==> Addressable(ks, names[i])
    requires forall i, j :: 0 <= i < j < |names| ==> names[i] != names[j]
    ensures SumKeys(ks, names) == |Select(ks, BelongsTo(names))|
  {
    if names == [] {
      SelectMembersNone(ks, BelongsTo(names));
    } else {
      var name, rest := names[0], names[1..];
      assert forall i :: 0 <= i < |rest| ==> rest[i] == names[i + 1];
      SumIsSelection(ks, rest);
      assert NormalForm(name) == name;
      assert names == [name] + rest;
      forall k ensures BelongsTo(names)(k) <==> StartsWith(name + ":")(k) || BelongsTo(rest)(k) {
        BeforeIs(name, k);
      }
      forall k ensures !(StartsWith(name + ":")(k) && BelongsTo(rest)(k)) {
        BeforeIs(name, k);
      }
      SelectSplit(ks, StartsWith(name + ":"), BelongsTo(rest), BelongsTo(names));
    }
  }

  lemma SelectMembersNone(ks: Keys, test: string -> bool)
    requires forall k :: Some(k) in ks ==> !test(k)
    ensures Select(ks, test) == []
  {
    if Select(ks, test) != [] {
      SelectMembers(ks, test, Select(ks, test)[0]);
    }
  }

  /** Among lower-case section names of at most 1024 characters, the number of sections plus the
      sizes of all enumerated sections is at most the number of entries, and equal exactly when no
      entry is orphaned: every key with a colon has the text before its first colon as a section. */
  lemma SectionsPartition(ks: Keys)
    requires Distinct(ks)
    requires forall k :: Some(k) in ks && ':' !in k ==> Lower(k) == k && |k| <= ASCIILINESZ
    ensures |SectionNames(ks)| + SumKeys(ks, SectionNames(ks)) <= Occupied(ks)
    ensures |SectionNames(ks)| + SumKeys(ks, SectionNames(ks)) == Occupied(ks) <==>
            forall k :: Some(k) in ks && ':' in k ==> Some(Before(k)) in ks
  {
    var names := SectionNames(ks);
    SectionNamesExact(ks);
    forall i | 0 <= i < |names| ensures Addressable(ks, names[i]) {
      assert names[i] in names;
    }
    SumIsSelection(ks, names);
    var colon, orphan := (k: string) => ':' in k, (k: string) => ':' in k && Before(k) !in names;
    SelectSplit(ks, IsSectionName(), colon, k => true);
    SelectAll(ks, k => true);
    SelectSplit(ks, BelongsTo(names), orphan, colon);
    if forall k :: Some(k) in ks && ':' in k ==> Some(Before(k)) in ks {
      forall k | Some(k) in ks ensures !orphan(k) {
        if ':' in k { BeforeNoColon(k); }
      }
      SelectMembersNone(ks, orphan);
    }
    if Select(ks, orphan) == [] {
      forall k | Some(k) in ks && ':' in k ensures Some(Before(k)) in ks {
        SelectMembers(ks, orphan, k);
      }
    }
  }

  lemma BeforeNoColon(k: string)
    ensures ':' !in Before(k)
  {}
}
