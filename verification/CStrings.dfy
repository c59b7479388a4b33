/** C strings in the "C" locale: NUL-terminated buffers, isspace, tolower, strlwc, strstrip. */
module CStrings {

  const NUL: char := '\0'

  // The ASCIILINESZ of iniparser.c.
  const ASCIILINESZ: nat := 1024

  predicate IsSpace(c: char) {
    c == ' ' || 9 as char <= c <= 13 as char
  }

  function ToLower(c: char): char {
    if 'A' <= c <= 'Z' then ((c as int) + 32) as char else c
  }

  /** The white space of the "C" locale, section 7.4.1.10 of ISO C99. */
  lemma Blanks(c: char)
    ensures IsSpace(c) <==> c in {' ', '\t', '\n', 11 as char, 12 as char, '\r'}
  {}

  // ----- Buffers -----

  ghost predicate Terminated(b: seq<char>) { NUL in b }

  ghost predicate NulFree(s: string) { NUL !in s }

  // The string a buffer holds: everything before its first NUL.
  function CStr(b: seq<char>): (s: string)
    ensures NUL !in s && s <= b
    ensures forall i :: 0 <= i < |s| ==> b[i] != NUL
    ensures |s| < |b| ==> b[|s|] == NUL
    ensures Terminated(b) ==> |s| < |b|
  {
    if b == [] || b[0] == NUL then "" else [b[0]] + CStr(b[1..])
  }

  lemma {:induction false} CStrIs(b: seq<char>, s: string)
    requires s <= b && |s| < |b| && b[|s|] == NUL && NulFree(s)
    ensures CStr(b) == s
  {
    if s != "" {
      assert b[0] == s[0];
      CStrIs(b[1..], s[1..]);
    }
  }

  method StrLen(a: array<char>) returns (n: nat)
    requires Terminated(a[..])
    ensures n == |CStr(a[..])|
  {
    n := 0;
    while a[n] != NUL
      invariant n <= |CStr(a[..])|
      decreases a.Length - n
    {
      n := n + 1;
    }
  }

  // ----- Lower case -----

  function Lower(s: string): (r: string)
    ensures |r| == |s|
    ensures forall i :: 0 <= i < |s| ==> r[i] == ToLower(s[i])
  {
    if s == "" then "" else [ToLower(s[0])] + Lower(s[1..])
  }

  // The same letter, up to its case.
  predicate SameLetter(c: char, d: char) {
    || c == d
    || ('A' <= c <= 'Z' && 'a' <= d <= 'z' && c as int - 'A' as int == d as int - 'a' as int)
    || ('a' <= c <= 'z' && 'A' <= d <= 'Z' && c as int - 'a' as int == d as int - 'A' as int)
  }

  /** Lower-casing leaves no upper-case letter, turns each one into the lower-case letter at its
      place in the alphabet, and keeps every other character. */
  lemma LowerShape(s: string)
    ensures |Lower(s)| == |s|
    ensures forall i :: 0 <= i < |s| ==> !('A' <= Lower(s)[i] <= 'Z') && SameLetter(s[i], Lower(s)[i])
    ensures forall i :: 0 <= i < |s| && !('A' <= s[i] <= 'Z') ==> Lower(s)[i] == s[i]
  {}

  lemma SameLetterLower(c: char, d: char)
    ensures SameLetter(c, d) <==> ToLower(c) == ToLower(d)
  {}

  /** Two strings lower-case alike exactly when they agree up to the case of their letters. */
  lemma LowerAgreeIff(a: string, b: string)
    ensures Lower(a) == Lower(b) <==> |a| == |b| && forall i :: 0 <= i < |a| ==> SameLetter(a[i], b[i])
  {
    hide Lower, ToLower, SameLetter;
    forall i | 0 <= i < |a| && i < |b| ensures SameLetter(a[i], b[i]) <==> ToLower(a[i]) == ToLower(b[i]) {
      SameLetterLower(a[i], b[i]);
    }
    assert |Lower(a)| == |a| && |Lower(b)| == |b|;
    if Lower(a) == Lower(b) {
      forall i | 0 <= i < |a| ensures SameLetter(a[i], b[i]) {
        assert Lower(a)[i] == ToLower(a[i]) && Lower(b)[i] == ToLower(b[i]);
      }
    }
  }

  // A lower-case string holds no upper-case letter.
  lemma LowerIff(s: string)
    ensures Lower(s) == s <==> forall i :: 0 <= i < |s| ==> !('A' <= s[i] <= 'Z')
  {
    LowerShape(s);
    if Lower(s) == s {
      forall i | 0 <= i < |s| ensures !('A' <= s[i] <= 'Z') { assert Lower(s)[i] == s[i]; }
    }
  }

  function Take(s: string, n: nat): string {
    if n <= |s| then s[..n] else s
  }

  lemma LowerIdempotent(s: string)
    ensures Lower(Lower(s)) == Lower(s)
  {}

  lemma LowerAppend(a: string, b: string)
    ensures Lower(a + b) == Lower(a) + Lower(b)
  {}

  lemma LowerCopy(b: seq<char>, t: string)
    requires |t| < |b| && NulFree(t) && (forall k :: 0 <= k < |t| ==> b[k] == ToLower(t[k])) && b[|t|] == NUL
    ensures CStr(b) == Lower(t) && Terminated(b)
  {
    LowerNulFree(t);
    assert b[..|t|] == Lower(t);
    CStrIs(b, Lower(t));
  }

  /** strlwc: copies at most len - 1 characters, lower-cased, and terminates the copy.
      The source and the destination may be the same buffer. */
  method StrLwc(src: array<char>, dst: array<char>, len: nat)
    requires Terminated(src[..])
    requires len > 0 && |Take(CStr(src[..]), len - 1)| < dst.Length
    modifies dst
    ensures CStr(dst[..]) == Lower(Take(old(CStr(src[..])), len - 1))
    ensures Terminated(dst[..])
    ensures src != dst ==> src[..] == old(src[..])
  {
    hide Lower;
    ghost var s := CStr(src[..]);
    ghost var t := Take(s, len - 1);
    var i := 0;
    while src[i] != NUL && i < len - 1
      invariant i <= |t| && |s| < src.Length
      invariant forall k :: i <= k < src.Length ==> src[k] == old(src[k])
      invariant forall k :: 0 <= k < i ==> dst[k] == ToLower(t[k])
      decreases |t| - i
    {
      dst[i] := ToLower(src[i]);
      i := i + 1;
    }
    dst[i] := NUL;
    hide CStr, ToLower;
    LowerCopy(dst[..], t);
  }

  lemma LowerNulFree(s: string)
    requires NulFree(s)
    ensures NulFree(Lower(s))
  {
    forall i | 0 <= i < |s| ensures Lower(s)[i] != NUL {
      assert s[i] in s;
    }
  }

  // ----- Trimming -----

  function TrimLeft(s: string): (r: string)
    ensures |r| <= |s| && r == s[|s| - |r|..]
  {
    if s != "" && IsSpace(s[0]) then TrimLeft(s[1..]) else s
  }

  function TrimRight(s: string): (r: string)
    ensures |r| <= |s| && r == s[..|r|]
  {
    if s != "" && IsSpace(s[|s| - 1]) then TrimRight(s[..|s| - 1]) else s
  }

  // A trimmed string has no blank at either end.
  predicate Trimmed(s: string) {
    s != "" ==> !IsSpace(s[0]) && !IsSpace(s[|s| - 1])
  }

  function Strip(s: string): (r: string)
    ensures |r| <= |s|
  {
    TrimRight(TrimLeft(s))
  }

  lemma {:induction false} TrimLeftDrops(s: string)
    ensures AllSpace(s[..|s| - |TrimLeft(s)|])
    ensures TrimLeft(s) != "" ==> !IsSpace(TrimLeft(s)[0])
  {
    if s != "" && IsSpace(s[0]) {
      TrimLeftDrops(s[1..]);
      var n := |s| - |TrimLeft(s)|;
      assert s[..n] == [s[0]] + s[1..][..n - 1];
    }
  }

  lemma {:induction false} TrimRightDrops(s: string)
    ensures AllSpace(s[|TrimRight(s)|..])
    ensures TrimRight(s) != "" ==> !IsSpace(TrimRight(s)[|TrimRight(s)| - 1])
  {
    if s != "" && IsSpace(s[|s| - 1]) {
      var t := s[..|s| - 1];
      TrimRightDrops(t);
      var n := |TrimRight(s)|;
      assert s[n..] == t[n..] + [s[|s| - 1]];
    }
  }

  lemma StripIsTrimmed(s: string)
    ensures Trimmed(Strip(s))
  {
    hide TrimLeft, TrimRight;
    TrimLeftDrops(s);
    TrimRightDrops(TrimLeft(s));
  }

  ghost predicate AllSpace(s: string) {
    forall i :: 0 <= i < |s| ==> IsSpace(s[i])
  }

  /** Stripping is characterised without the two scans: it is the only trimmed string that
      leaves nothing but blanks on either side. */
  lemma StripUnique(a: string, r: string, b: string)
    requires AllSpace(a) && AllSpace(b) && Trimmed(r)
    ensures Strip(a + r + b) == r
  {
    var s := a + r + b;
    assert s == a + (r + b);
    TrimLeftSkips(a, r + b);
    if r == "" {
      TrimLeftSkips(b, "");
      assert r + b == b + "";
    } else {
      assert (r + b)[0] == r[0];
      TrimRightSkips(r, b);
    }
  }

  lemma {:induction false} TrimLeftSkips(a: string, s: string)
    requires AllSpace(a)
    ensures TrimLeft(a + s) == TrimLeft(s)
  {
    if a == "" {
      assert a + s == s;
    } else {
      assert (a + s)[1..] == a[1..] + s;
      TrimLeftSkips(a[1..], s);
    }
  }

  lemma {:induction false} TrimRightSkips(s: string, b: string)
    requires AllSpace(b)
    ensures TrimRight(s + b) == TrimRight(s)
  {
    if b == "" {
      assert s + b == s;
    } else {
      assert (s + b)[..|s + b| - 1] == s + b[..|b| - 1];
      TrimRightSkips(s, b[..|b| - 1]);
    }
  }

  lemma StripTrimmed(s: string)
    requires Trimmed(s)
    ensures Strip(s) == s
  {
    assert "" + s + "" == s;
    StripUnique("", s, "");
  }

  lemma StripSplit(s: string) returns (a: string, b: string)
    ensures s == a + Strip(s) + b && AllSpace(a) && AllSpace(b)
  {
    hide TrimLeft, TrimRight;
    var t := TrimLeft(s);
    TrimLeftDrops(s);
    TrimRightDrops(t);
    a := s[..|s| - |t|];
    b := t[|TrimRight(t)|..];
  }

  lemma LowerTrimmed(s: string)
    requires Trimmed(s)
    ensures Trimmed(Lower(s))
  {}

  lemma TrimLeftAt(s: string, n: nat)
    requires n <= |s| && AllSpace(s[..n]) && (n < |s| ==> !IsSpace(s[n]))
    ensures TrimLeft(s) == s[n..]
  {
    assert s == s[..n] + s[n..];
    TrimLeftSkips(s[..n], s[n..]);
  }

  lemma TrimRightAt(s: string, n: nat)
    requires n <= |s| && AllSpace(s[n..]) && (n > 0 ==> !IsSpace(s[n - 1]))
    ensures TrimRight(s) == s[..n]
  {
    assert s == s[..n] + s[n..];
    TrimRightSkips(s[..n], s[n..]);
  }

  method SkipBlanks(a: array<char>) returns (s: nat)
    requires Terminated(a[..])
    ensures s <= |CStr(a[..])|
    ensures TrimLeft(CStr(a[..])) == CStr(a[..])[s..]
  {
    ghost var str := CStr(a[..]);
    s := 0;
    while IsSpace(a[s]) && a[s] != NUL
      invariant s <= |str|
      invariant AllSpace(str[..s])
      decreases |str| - s
    {
      s := s + 1;
    }
    TrimLeftAt(str, s);
  }

  // Steps back over the blanks before `end`, stopping at `s`.
  method BackOverBlanks(a: array<char>, s: nat, end: nat) returns (last: nat)
    requires s <= end <= a.Length
    ensures s <= last <= end
    ensures TrimRight(a[s..end]) == a[s..last]
  {
    hide TrimRight;
    last := end;
    while last > s && IsSpace(a[last - 1])
      invariant s <= last <= end
      invariant forall k :: last <= k < end ==> IsSpace(a[k])
    {
      last := last - 1;
    }
    assert a[s..end][..last - s] == a[s..last];
    TrimRightAt(a[s..end], last - s);
  }

  method MoveToFront(a: array<char>, from: nat, n: nat)
    requires from + n <= a.Length
    modifies a
    ensures a[..n] == old(a[from..from + n])
  {
    forall k | 0 <= k < n {
      a[k] := a[from + k];
    }
  }

  lemma FrontIs(b: seq<char>, r: string, n: nat)
    requires n == |r| + 1 <= |b| && b[..n] == r + [NUL] && NulFree(r)
    ensures CStr(b) == r && Terminated(b)
  {
    hide CStr;
    assert b[..n][..|r|] == r && b[..n][|r|] == NUL;
    assert b[..|r|] == b[..n][..|r|];
    CStrIs(b, r);
  }

  // Ends the string at `last` and moves it, with its terminator, to the front of the buffer.
  method CutAndMove(a: array<char>, s: nat, last: nat)
    requires s <= last < a.Length && NulFree(a[s..last])
    modifies a
    ensures CStr(a[..]) == old(a[s..last]) && Terminated(a[..])
  {
    hide CStr;
    ghost var r := a[s..last];
    a[last] := NUL;
    assert a[s..last + 1] == r + [NUL];
    MoveToFront(a, s, last - s + 1);
    FrontIs(a[..], r, |r| + 1);
  }

  lemma SliceOfPrefix(b: string, p: string, i: nat, j: nat)
    requires p <= b && i <= j <= |p|
    ensures b[i..j] == p[i..j]
  {}

  lemma SubNulFree(s: string, i: nat, j: nat)
    requires NulFree(s) && i <= j <= |s|
    ensures NulFree(s[i..j])
  {}

  lemma StripBySlices(b: seq<char>, s: nat, last: nat)
    requires Terminated(b) && s <= last <= |CStr(b)|
    requires TrimLeft(CStr(b)) == CStr(b)[s..]
    requires TrimRight(b[s..|CStr(b)|]) == b[s..last]
    ensures Strip(CStr(b)) == b[s..last] && NulFree(b[s..last])
  {
    var str := CStr(b);
    SliceOfPrefix(b, str, s, |str|);
    SliceOfPrefix(b, str, s, last);
    SubNulFree(str, s, last);
    assert str[s..] == str[s..|str|];
  }

  /** strstrip: removes the blanks at both ends in place and returns the new length. */
  method StrStrip(a: array<char>) returns (len: nat)
    requires Terminated(a[..])
    modifies a
    ensures CStr(a[..]) == Strip(old(CStr(a[..]))) && len == |CStr(a[..])|
    ensures Terminated(a[..])
  {
    var end := StrLen(a);
    var s := SkipBlanks(a);
    var last := BackOverBlanks(a, s, end);
    StripBySlices(a[..], s, last) by {
      assert a[..][s..end] == a[s..end];
      assert a[..][s..last] == a[s..last];
    }
    assert a[..][s..last] == a[s..last];
    CutAndMove(a, s, last);
    len := last - s;
  }
}
