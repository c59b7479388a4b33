/** iniparser_getstring, iniparser_find_entry, iniparser_set and iniparser_unset: the dictionary
    addressed modulo a normal form of its keys. */
module IniEntries {
  import opened Options
  import opened CStrings
  import opened Slots
  import opened DictionaryStore

  // Every name is cut to 1024 characters and lower-cased before it is used.
  function NormalForm(name: string): (r: string)
    ensures |r| <= ASCIILINESZ
  {
    Lower(Take(name, ASCIILINESZ))
  }

  function Find(m: Entries, name: string): Answer {
    Lookup(m, NormalForm(name))
  }

  method Normalize(name: array<char>) returns (tmp: array<char>)
    requires Terminated(name[..])
    ensures fresh(tmp) && Terminated(tmp[..]) && CStr(tmp[..]) == NormalForm(CStr(name[..]))
  {
    tmp := new char[ASCIILINESZ + 1];
    StrLwc(name, tmp, ASCIILINESZ + 1);
  }

  /** iniparser_getstring; the caller's default stands for a NULL name as for a missing one. */
  method GetString(d: Dictionary, name: array?<char>) returns (v: Answer)
    requires d.Valid() && (name != null ==> Terminated(name[..]))
    ensures v == if name == null then Default else Find(d.Map(), CStr(name[..]))
    ensures name != null ==>
              var k := NormalForm(CStr(name[..])); v == if k in d.Map() then Stored(d.Map()[k]) else Default
  {
    if name == null {
      return Default;
    }
    var tmp := Normalize(name);
    v := d.Get(CStr(tmp[..]));
  }

  /** iniparser_find_entry: an entry with a NULL value is found. */
  method FindEntry(d: Dictionary, name: array?<char>) returns (found: bool)
    requires d.Valid() && (name != null ==> Terminated(name[..]))
    ensures found <==> name != null && NormalForm(CStr(name[..])) in d.Map()
  {
    var v := GetString(d, name);
    found := v != Default;
  }

  /** iniparser_set */
  method SetEntry(d: Dictionary, name: array?<char>, v: Option<string>, memory: bool) returns (ret: int)
    requires d.Valid() && (name != null ==> Terminated(name[..]))
    modifies d, d.key, d.val, d.hash
    ensures d.Valid()
    ensures d.key == old(d.key) || fresh(d.key)
    ensures d.val == old(d.val) || fresh(d.val)
    ensures d.hash == old(d.hash) || fresh(d.hash)
    ensures ret == if name == null then -1
                   else SetResult(old(d.Map()), old(d.size), Some(NormalForm(CStr(name[..]))), memory)
    ensures d.Map() == if ret == 0 then old(d.Map())[NormalForm(CStr(name[..])) := v] else old(d.Map())
    ensures d.size == if ret == 0 && SetGrows(old(d.Map()), old(d.size), Some(NormalForm(CStr(name[..]))))
                      then 2 * old(d.size) else old(d.size)
  {
    if name == null {
      ret := d.Set(None, v, memory);
    } else {
      var tmp := Normalize(name);
      ret := d.Set(Some(CStr(tmp[..])), v, memory);
    }
  }

  /** iniparser_unset */
  method UnsetEntry(d: Dictionary, name: array?<char>)
    requires d.Valid() && (name != null ==> Terminated(name[..]))
    modifies d`n, d.key, d.val, d.hash
    ensures d.Valid()
    ensures d.Map() == if name == null then old(d.Map()) else old(d.Map()) - {NormalForm(CStr(name[..]))}
  {
    if name == null {
      d.Unset(None);
    } else {
      var tmp := Normalize(name);
      d.Unset(Some(CStr(tmp[..])));
    }
  }

  // ----- The normal form -----

  /** Two names address the same entry of every dictionary exactly when their normal forms agree. */
  lemma Interchangeable(a: string, b: string)
    ensures NormalForm(a) == NormalForm(b) <==> forall m: Entries :: Find(m, a) == Find(m, b)
  {
    if forall m: Entries :: Find(m, a) == Find(m, b) {
      var m: Entries := map[NormalForm(a) := None];
      assert Find(m, a) == Find(m, b);
      assert NormalForm(b) in m;
    }
  }

  lemma LowerIsNormal(s: string)
    requires Lower(s) == s && |s| <= ASCIILINESZ
    ensures NormalForm(s) == s
  {
    hide Lower;
  }

  // Equal up to case in the first 1024 characters.
  predicate SameName(a: string, b: string) {
    && (|a| == |b| || (|a| >= 1024 && |b| >= 1024))
    && forall i :: 0 <= i < |a| && i < |b| && i < 1024 ==> SameLetter(a[i], b[i])
  }

  /** Two names have the same normal form exactly when they agree up to case in their first 1024
      characters. */
  lemma SameNameIff(a: string, b: string)
    ensures NormalForm(a) == NormalForm(b) <==> SameName(a, b)
  {
    hide SameLetter, Lower;
    LowerAgreeIff(Take(a, ASCIILINESZ), Take(b, ASCIILINESZ));
  }

  /** What is stored under one name is read under every name equal to it up to case, and under no
      other. */
  lemma ReadBack(m: Entries, a: string, b: string, v: Option<string>)
    ensures SameName(a, b) ==> Find(m[NormalForm(a) := v], b) == Stored(v)
    ensures !SameName(a, b) ==> Find(m[NormalForm(a) := v], b) == Find(m, b)
  {
    hide NormalForm, SameName;
    SameNameIff(a, b);
  }

  /** A stored key can be addressed through this interface exactly when it holds no upper-case
      letter and is at most 1024 characters long. */
  lemma ReachableIff(k: string)
    ensures (exists name :: NormalForm(name) == k) <==> |k| <= 1024 && forall i :: 0 <= i < |k| ==> !('A' <= k[i] <= 'Z')
  {
    LowerIff(k);
    if exists name :: NormalForm(name) == k {
      var name :| NormalForm(name) == k;
      LowerIdempotent(Take(name, ASCIILINESZ));
    }
    if Lower(k) == k && |k| <= ASCIILINESZ {
      assert Take(k, ASCIILINESZ) == k;
      assert NormalForm(k) == k;
    }
  }
}
