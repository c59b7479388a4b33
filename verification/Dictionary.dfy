/** dictionary.c: the mutable store of string pairs. */
module DictionaryStore {
  import opened Options
  import opened Hash
  import opened Slots

  // DICTMINSZ
  const DICTMINSZ: nat := 128

  // What a query returns: a stored pointer, or the caller's default pointer.
  datatype Answer = Stored(value: Option<string>) | Default

  function Lookup(m: Entries, k: string): Answer {
    if k in m then Stored(m[k]) else Default
  }

  function SetResult(m: Entries, size: nat, k: Option<string>, memory: bool): int {
    if k.None? || (SetGrows(m, size, k) && !memory) then -1 else 0
  }

  lemma RemoveAbsent(m: Entries, k: string)
    requires k !in m
    ensures m - {k} == m
  {}

  // The allocations and copies of dictionary_grow: twice as long, the second half cleared.
  method CopyDoubled<T(0)>(a: array<T>, empty: T) returns (b: array<T>)
    ensures fresh(b) && b.Length == 2 * a.Length && a[..] <= b[..]
    ensures forall i :: a.Length <= i < b.Length ==> b[i] == empty
  {
    var s := a[..];
    b := new T[2 * a.Length](i => if 0 <= i < |s| then s[i] else empty);
    assert b[..][..|s|] == s;
  }

  class Dictionary {
    var n: nat
    var size: nat
    var val: array<Option<string>>
    var key: array<Option<string>>
    var hash: array<Word>

    ghost predicate Valid()
      reads this, val, key, hash
    {
      && val != key
      && key.Length == val.Length == hash.Length == size
      && size >= DICTMINSZ
      && WellFormed(key[..], val[..], hash[..], n)
    }

    ghost function Map(): Entries
      requires Valid()
      reads this, val, key, hash
    {
      SlotMap(key[..], val[..])
    }

    lemma Size()
      requires Valid()
      ensures |Map()| == n <= size
    {
      OccupiedIsCardinality(key[..], val[..]);
    }

    lemma Present(k: string)
      requires Valid()
      ensures k in Map() <==> Some(k) in key[..]
    {
      InSlotMap(key[..], val[..], k);
    }

    lemma Unrepeated()
      requires Valid()
      ensures Distinct(key[..])
    {}

    constructor (initial: nat)
      ensures Valid() && fresh(val) && fresh(key) && fresh(hash)
      ensures Map() == map[] && n == 0
      ensures size == if initial < 128 then 128 else initial
    {
      var s := if initial < DICTMINSZ then DICTMINSZ else initial;
      var v := new Option<string>[s](_ => None);
      var k := new Option<string>[s](_ => None);
      var h := new Word[s](_ => 0);
      hide HashOf;
      OccupiedNone(k[..]);
      n, size, val, key, hash := 0, s, v, k, h;
    }

    // The scan shared by get, set and unset; `size` when the key is absent.
    method Find(k: string) returns (i: nat)
      requires Valid()
      ensures i <= size
      ensures i < size ==> key[i] == Some(k)
      ensures i == size ==> Some(k) !in key[..]
    {
      var h := DictionaryHash(k);
      i := 0;
      while i < size
        invariant i <= size
        invariant Some(k) !in key[..i]
      {
        if key[i].Some? && h == hash[i] && key[i].value == k {
          return;
        }
        i := i + 1;
      }
      assert key[..size] == key[..];
    }

    /** dictionary_get: a present key is found even when its value is NULL. */
    method Get(k: string) returns (v: Answer)
      requires Valid()
      ensures v == Lookup(Map(), k)
      ensures v == if k in Map() then Stored(Map()[k]) else Default
    {
      var i := Find(k);
      return if i < size then Stored(val[i]) else Default;
    }

    /** dictionary_grow; `memory` says whether the three allocations succeed. */
    method Grow(memory: bool) returns (ret: int)
      requires Valid()
      modifies this
      ensures Valid() && n == old(n) && Map() == old(Map())
      ensures ret == if memory then 0 else -1
      ensures memory ==> size == 2 * old(size) && fresh(key) && fresh(val) && fresh(hash)
      ensures memory ==> old(key[..]) <= key[..] && forall i :: old(size) <= i < size ==> key[i].None?
      ensures !memory ==> unchanged(this)
    {
      if !memory {
        return -1;
      }
      hide SlotMap, WellFormed, HashOf;
      ghost var ks, vs, hs := key[..], val[..], hash[..];
      var newVal := CopyDoubled(val, None);
      var newKey := CopyDoubled(key, None);
      var newHash := CopyDoubled(hash, 0);
      WellFormedGrow(ks, vs, hs, n, newKey[..], newVal[..], newHash[..]);
      size, val, key, hash := size * 2, newVal, newKey, newHash;
      return 0;
    }

    // The insertion loop: from slot n, wrapping at the end, to an empty slot.
    method Probe() returns (i: nat)
      requires Valid() && n < size
      ensures FirstEmptyFrom(key[..], n, i)
    {
      ghost var ks := key[..];
      OccupiedFull(ks);
      ghost var e: nat :| e < size && ks[e].None?;
      hide WellFormed, Distance, HashOf, FirstEmptyFrom;
      i := n;
      assert TakenUpTo(ks, n, i) by { NothingBefore(ks, n); }
      assert Distance(n, n, size) <= Distance(n, e, size) by { NothingBefore(ks, n); }
      while key[i].Some?
        invariant i < size && Distance(n, i, size) <= Distance(n, e, size)
        invariant TakenUpTo(ks, n, i)
        decreases Distance(i, e, size)
      {
        WalkOn(n, i, e, size);
        TakenNext(ks, n, i, e);
        i := i + 1;
        if i == size { i := 0; }
      }
      TakenIsWalked(ks, n, i);
    }

    // The stores of dictionary_set into a slot that already holds the key.
    method Replace(i: nat, v: Option<string>)
      requires Valid() && i < size && key[i].Some?
      modifies val
      ensures Valid() && Map() == old(Map())[key[i].value := v]
    {
      hide SlotMap, WellFormed, HashOf;
      Unrepeated();
      SlotMapReplace(key[..], val[..], i, v);
      WellFormedReplace(key[..], val[..], hash[..], n, i, v);
      ghost var vs := val[..][i := v];
      val[i] := v;
      assert val[..] == vs;
    }

    // One slot of the three arrays.
    method SetSlot(i: nat, k: Option<string>, v: Option<string>, h: Word)
      requires key != val && i < key.Length == val.Length == hash.Length
      modifies key, val, hash
      ensures key[..] == old(key[..])[i := k] && val[..] == old(val[..])[i := v] && hash[..] == old(hash[..])[i := h]
    {
      key[i] := k;
      val[i] := v;
      hash[i] := h;
    }

    // The stores of dictionary_set into an empty slot.
    method Place(i: nat, k: string, v: Option<string>)
      requires Valid() && i < size && key[i].None? && k !in Map()
      modifies this`n, key, val, hash
      ensures Valid() && Map() == old(Map())[k := v]
      ensures key[..] == old(key[..])[i := Some(k)]
    {
      hide SlotMap, WellFormed, HashOf;
      var h := DictionaryHash(k);
      WellFormedInsert(key[..], val[..], hash[..], n, i, k, v, h);
      SetSlot(i, Some(k), v, h);
      n := n + 1;
    }

    // The probe and the stores of dictionary_set.
    method Insert(k: string, v: Option<string>) returns (i: nat)
      requires Valid() && n < size && k !in Map()
      modifies this`n, key, val, hash
      ensures Valid() && Map() == old(Map())[k := v]
      ensures FirstEmptyFrom(old(key[..]), old(n), i) && key[..] == old(key[..])[i := Some(k)]
    {
      hide SlotMap, WellFormed;
      i := Probe();
      Place(i, k, v);
    }

    // The second half of dictionary_set, for a key not yet present. Just after a growth the
    // probe stops where it starts, at slot n.
    method Add(k: string, v: Option<string>, memory: bool) returns (ret: int)
      requires Valid() && k !in Map()
      modifies this, key, val, hash
      ensures Valid()
      ensures key == old(key) || fresh(key)
      ensures val == old(val) || fresh(val)
      ensures hash == old(hash) || fresh(hash)
      ensures ret == if old(n) == old(size) && !memory then -1 else 0
      ensures Map() == if ret == 0 then old(Map())[k := v] else old(Map())
      ensures ret == 0 ==> size == if old(n) == old(size) then 2 * old(size) else old(size)
      ensures ret == 0 && old(n) == old(size) ==> key[old(n)] == Some(k)
      ensures ret == -1 ==> unchanged(this) && unchanged(key) && unchanged(val) && unchanged(hash)
    {
      hide SlotMap, WellFormed, FirstEmptyFrom, HashOf;
      Size();
      if n < size {
        var i := Insert(k, v);
        return 0;
      }
      ret := Grow(memory);
      if ret == 0 {
        Size();
        ghost var ks := key[..];
        var i := Insert(k, v);
        EmptyAtStart(ks, old(n), i);
      }
    }

    // The first half of dictionary_set: an empty store is not scanned.
    method FindUnlessEmpty(k: string) returns (i: nat)
      requires Valid()
      ensures i <= size
      ensures i < size ==> key[i] == Some(k)
      ensures i < size <==> k in Map()
    {
      hide SlotMap, WellFormed;
      Size();
      Present(k);
      if n > 0 {
        i := Find(k);
      } else {
        i := size;
      }
    }

    // dictionary_set for a key that is not NULL.
    method SetKey(k: string, v: Option<string>, memory: bool) returns (ret: int)
      requires Valid()
      modifies this, key, val, hash
      ensures Valid()
      ensures key == old(key) || fresh(key)
      ensures val == old(val) || fresh(val)
      ensures hash == old(hash) || fresh(hash)
      ensures var full := k !in old(Map()) && |old(Map())| == old(size);
              && ret == (if full && !memory then -1 else 0)
              && size == (if full && memory then 2 * old(size) else old(size))
      ensures Map() == if ret == 0 then old(Map())[k := v] else old(Map())
      ensures ret == -1 ==> unchanged(this) && unchanged(key) && unchanged(val) && unchanged(hash)
    {
      hide SlotMap, WellFormed, HashOf;
      var i := FindUnlessEmpty(k);
      Size();
      if i < size {
        Replace(i, v);
        return 0;
      }
      ret := Add(k, v, memory);
    }

    /** dictionary_set: replaces the value of a present key, else adds the pair, growing the
        store first when it is full. The only failures are a NULL key and a failed growth, and
        both leave the store as it was. */
    method Set(k: Option<string>, v: Option<string>, memory: bool) returns (ret: int)
      requires Valid()
      modifies this, key, val, hash
      ensures Valid()
      ensures key == old(key) || fresh(key)
      ensures val == old(val) || fresh(val)
      ensures hash == old(hash) || fresh(hash)
      ensures ret == SetResult(old(Map()), old(size), k, memory)
      ensures Map() == if ret == 0 then old(Map())[k.value := v] else old(Map())
      ensures size == if ret == 0 && SetGrows(old(Map()), old(size), k) then 2 * old(size) else old(size)
      ensures ret == -1 ==> unchanged(this) && unchanged(key) && unchanged(val) && unchanged(hash)
    {
      if k.None? {
        return -1;
      }
      hide SlotMap, WellFormed;
      ret := SetKey(k.value, v, memory);
    }

    /** dictionary_unset */
    method Unset(k: Option<string>)
      requires Valid()
      modifies this`n, key, val, hash
      ensures Valid()
      ensures Map() == if k.Some? then old(Map()) - {k.value} else old(Map())
    {
      if k.None? {
        return;
      }
      hide SlotMap, WellFormed, HashOf;
      Present(k.value);
      var i := Find(k.value);
      if i >= size {
        RemoveAbsent(Map(), k.value);
        return;
      }
      Erase(i);
    }

    // The stores of dictionary_unset.
    method Erase(i: nat)
      requires Valid() && i < size && key[i].Some?
      modifies this`n, key, val, hash
      ensures Valid() && Map() == old(Map()) - {old(key[i].value)}
    {
      hide SlotMap, WellFormed, HashOf;
      Unrepeated();
      SlotMapErase(key[..], val[..], i);
      WellFormedErase(key[..], val[..], hash[..], n, i);
      SetSlot(i, None, None, 0);
      n := n - 1;
    }
  }
}
