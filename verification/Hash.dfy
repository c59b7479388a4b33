/** dictionary_hash: the one-at-a-time string hash, in 32-bit wrap-around arithmetic.
    Words are naturals below 2^32; a left shift by k is a multiplication by 2^k modulo 2^32. */
module Hash {
  import opened Powers

  const WORD: nat := 0x1_0000_0000

  type Word = x: nat | x < WORD

  function Shr(a: nat, k: nat): (r: nat)
    ensures r <= a
    ensures a > 0 && k > 0 ==> r < a
    decreases k
  {
    if k == 0 then a else Shr(a / 2, k - 1)
  }

  // Bitwise exclusive or.
  function Xor(a: nat, b: nat): nat
    decreases a + b
  {
    if a == 0 then b
    else if b == 0 then a
    else (if a % 2 == b % 2 then 0 else 1) + 2 * Xor(a / 2, b / 2)
  }

  // ----- The algebra of exclusive or -----

  // The defining equation, without the shortcuts for zero.
  lemma {:induction false} XorUnfold(a: nat, b: nat)
    ensures Xor(a, b) % 2 == (if a % 2 == b % 2 then 0 else 1)
    ensures Xor(a, b) / 2 == Xor(a / 2, b / 2)
  {
    if a == 0 || b == 0 {
      assert a == 0 ==> Xor(a / 2, b / 2) == b / 2;
      assert b == 0 ==> Xor(a / 2, b / 2) == a / 2;
    }
  }

  lemma {:induction false} XorSelf(a: nat)
    ensures Xor(a, a) == 0
  {
    if a != 0 {
      XorSelf(a / 2);
    }
  }

  lemma {:induction false} XorCancel(a: nat, b: nat)
    ensures Xor(Xor(a, b), b) == a
    decreases a + b
  {
    if a == 0 {
      XorSelf(b);
    } else if b != 0 {
      XorUnfold(a, b);
      XorUnfold(Xor(a, b), b);
      XorCancel(a / 2, b / 2);
    }
  }

  lemma {:induction false} XorShr(a: nat, b: nat, k: nat)
    ensures Shr(Xor(a, b), k) == Xor(Shr(a, k), Shr(b, k))
    decreases k
  {
    if k != 0 {
      XorUnfold(a, b);
      XorShr(a / 2, b / 2, k - 1);
    }
  }

  lemma {:induction false} XorBelow(a: nat, b: nat, k: nat)
    requires a < Pow2(k) && b < Pow2(k)
    ensures Xor(a, b) < Pow2(k)
    decreases k
  {
    if k != 0 {
      XorUnfold(a, b);
      XorBelow(a / 2, b / 2, k - 1);
    }
  }

  lemma Pow2Word()
    ensures Pow2(32) == WORD
  {
    assert Pow2(8) == 256;
    assert Pow2(16) == 65536;
    assert Pow2(24) == 16777216;
  }

  lemma XorWord(a: Word, b: Word)
    ensures Xor(a, b) < WORD
  {
    Pow2Word();
    XorBelow(a, b, 32);
  }

  // ----- The hash -----

  // The xor of a word with itself shifted right.
  function Fold(h: Word, k: nat): Word {
    XorWord(h, Shr(h, k));
    Xor(h, Shr(h, k))
  }

  // 32-bit addition of a character.
  function Add(h: Word, c: Word): Word { (h + c) % WORD }

  // One turn of the loop: adding the word shifted left by 10 multiplies it by 1025.
  function Round(h: Word, c: Word): Word {
    Fold(Add(h, c) * 1025 % WORD, 6)
  }

  // The finalisation: multiply by 9, fold by 11, multiply by 32769.
  function Finish(h: Word): Word {
    Fold(h * 9 % WORD, 11) * 32769 % WORD
  }

  function HashFrom(h: Word, key: string): Word
    decreases |key|
  {
    if key == "" then h else HashFrom(Round(h, key[0] as int), key[1..])
  }

  function HashOf(key: string): Word {
    Finish(HashFrom(0, key))
  }

  lemma {:induction false} HashFromSnoc(h: Word, key: string, c: char)
    ensures HashFrom(h, key + [c]) == Round(HashFrom(h, key), c as int)
    decreases |key|
  {
    if key == "" {
      assert ([c])[1..] == "";
    } else {
      assert (key + [c])[1..] == key[1..] + [c];
      HashFromSnoc(Round(h, key[0] as int), key[1..], c);
    }
  }

  // Adding a word to itself shifted left by k, with m standing for 2^k.
  lemma ShiftAdd(h: Word, m: nat)
    ensures (h + h * m % WORD) % WORD == h * (m + 1) % WORD
  {
    var q, r := h * m / WORD, h * m % WORD;
    var p, s := (h + r) / WORD, (h + r) % WORD;
    assert h * (m + 1) == h * m + h;
    ModUnique(h * (m + 1), q + p, s);
  }

  lemma ModUnique(x: int, z: int, h: Word)
    requires x == h + z * WORD
    ensures x % WORD == h
  {}

  lemma RoundAsShifts(h: Word, c: Word)
    ensures var h1 := Add(h, c); Fold((h1 + h1 * 1024 % WORD) % WORD, 6) == Round(h, c)
  {
    ShiftAdd(Add(h, c), 1024);
  }

  lemma FinishAsShifts(h: Word)
    ensures var h1 := Fold((h + h * 8 % WORD) % WORD, 11);
            (h1 + h1 * 32768 % WORD) % WORD == Finish(h)
  {
    hide Fold;
    var x := (h + h * 8 % WORD) % WORD;
    assert x == h * 9 % WORD by { ShiftAdd(h, 8); }
    var h1 := Fold(x, 11);
    assert (h1 + h1 * 32768 % WORD) % WORD == h1 * 32769 % WORD by { ShiftAdd(h1, 32768); }
  }

  /** The loop of the source: an accumulator over the characters, then the finalisation. */
  method DictionaryHash(key: string) returns (hash: Word)
    ensures hash == HashOf(key)
  {
    hide Fold, Add, Round, Finish;
    hash := 0;
    for i := 0 to |key|
      invariant hash == HashFrom(0, key[..i])
    {
      assert key[..i + 1] == key[..i] + [key[i]];
      HashFromSnoc(0, key[..i], key[i]);
      RoundAsShifts(hash, key[i] as int);
      hash := Add(hash, key[i] as int);
      hash := (hash + hash * 1024 % WORD) % WORD;
      hash := Fold(hash, 6);
    }
    assert key[..|key|] == key;
    FinishAsShifts(hash);
    hash := (hash + hash * 8 % WORD) % WORD;
    hash := Fold(hash, 11);
    hash := (hash + hash * 32768 % WORD) % WORD;
  }

  // ----- Every step can be undone -----

  function Unfold(y: nat, k: nat): nat
    requires k > 0
    decreases y
  {
    if y == 0 then 0 else Xor(y, Unfold(Shr(y, k), k))
  }

  lemma {:induction false} UnfoldFold(x: nat, k: nat)
    requires k > 0
    ensures Unfold(Xor(x, Shr(x, k)), k) == x
    decreases x
  {
    var s := Shr(x, k);
    var y := Xor(x, s);
    XorCancel(x, s);
    if x != 0 {
      XorShr(x, s, k);
      UnfoldFold(s, k);
      assert y == 0 ==> x == s;
    }
  }

  lemma {:induction false} FoldUnfold(y: nat, k: nat)
    requires k > 0
    ensures Xor(Unfold(y, k), Shr(Unfold(y, k), k)) == y
    decreases y
  {
    if y != 0 {
      var u := Unfold(Shr(y, k), k);
      FoldUnfold(Shr(y, k), k);
      XorShr(y, u, k);
      XorCancel(u, Shr(u, k));
      XorCancel(y, u);
    } else {
      ShrZero(k);
      assert Unfold(0, k) == 0;
    }
  }

  lemma {:induction false} ShrZero(k: nat)
    ensures Shr(0, k) == 0
    decreases k
  {
    if k != 0 {
      ShrZero(k - 1);
    }
  }

  lemma Rearrange(h: int, m: int, i: int, q: int, t: int, w: int)
    requires m * i == 1 + t * w
    ensures (h * m - q * w) * i == h + (h * t - q * i) * w
  {
    Distribute(h * m, q * w, i);
    assert h * m * i == h * (m * i);
    assert q * w * i == q * i * w;
    assert h * (1 + t * w) == h + h * t * w;
    Distribute(h * t, q * i, w);
  }

  lemma Distribute(a: int, b: int, c: int)
    ensures (a - b) * c == a * c - b * c
  {}

  // Multiplying by m modulo 2^32 is undone by any i with m * i = 1 modulo 2^32.
  lemma MultiplyInverts(h: Word, m: nat, i: nat, t: nat)
    requires m * i == 1 + t * WORD
    ensures (h * m % WORD) * i % WORD == h
  {
    var q, r := h * m / WORD, h * m % WORD;
    assert r == h * m - q * WORD;
    Rearrange(h, m, i, q, t, WORD);
    ModUnique(r * i, h * t - q * i, h);
  }

  const INV1025: Word := 0xC00F_FC01
  const INV9: Word := 0x38E3_8E39
  const INV32769: Word := 0x3FFF_8001

  function Sub(h: Word, c: Word): Word { (h - c) % WORD }

  lemma UnfoldWord(y: nat, k: nat)
    requires k > 0 && y < WORD
    ensures Unfold(y, k) < WORD
    decreases y
  {
    if y != 0 {
      UnfoldWord(Shr(y, k), k);
      XorWord(y, Unfold(Shr(y, k), k));
    }
  }

  function UnRound(y: Word, c: Word): Word {
    UnfoldWord(y, 6);
    Sub(Unfold(y, 6) * INV1025 % WORD, c)
  }

  function UnFinish(y: Word): Word {
    UnfoldWord(y * INV32769 % WORD, 11);
    Unfold(y * INV32769 % WORD, 11) * INV9 % WORD
  }

  lemma AddInverts(h: Word, c: Word)
    ensures Sub(Add(h, c), c) == h
    ensures Add(Sub(h, c), c) == h
  {}

  lemma UnRoundRound(h: Word, c: Word)
    ensures UnRound(Round(h, c), c) == h
  {
    UnfoldFold(Add(h, c) * 1025 % WORD, 6);
    MultiplyInverts(Add(h, c), 1025, INV1025, 769);
    AddInverts(h, c);
  }

  lemma RoundUnRound(h: Word, c: Word)
    ensures Round(UnRound(h, c), c) == h
  {
    UnfoldWord(h, 6);
    FoldUnfold(h, 6);
    MultiplyInverts(Unfold(h, 6), INV1025, 1025, 769);
    AddInverts(Unfold(h, 6) * INV1025 % WORD, c);
  }

  /** A round with a fixed character is a bijection on the accumulator. */
  lemma RoundBijective(h: Word, c: Word)
    ensures UnRound(Round(h, c), c) == h
    ensures Round(UnRound(h, c), c) == h
  {
    UnRoundRound(h, c);
    RoundUnRound(h, c);
  }

  /** So is the finalisation. */
  lemma FinishBijective(h: Word)
    ensures UnFinish(Finish(h)) == h
    ensures Finish(UnFinish(h)) == h
  {
    var a: Word := h * 9 % WORD;
    XorWord(a, Shr(a, 11));
    UnfoldFold(a, 11);
    MultiplyInverts(Fold(a, 11), 32769, INV32769, 8192);
    MultiplyInverts(h, 9, INV9, 2);
    var y: Word := h * INV32769 % WORD;
    FoldUnfold(y, 11);
    UnfoldWord(y, 11);
    var u: Word := Unfold(y, 11);
    MultiplyInverts(u, INV9, 9, 2);
    MultiplyInverts(h, INV32769, 32769, 8192);
  }

  // ----- Separation -----

  // Distinct accumulators stay distinct over a common suffix.
  lemma {:induction false} SuffixInjective(h: Word, h': Word, key: string)
    requires h != h'
    ensures HashFrom(h, key) != HashFrom(h', key)
    decreases |key|
  {
    if key != "" {
      var c := key[0] as int;
      RoundBijective(h, c);
      RoundBijective(h', c);
      SuffixInjective(Round(h, c), Round(h', c), key[1..]);
    }
  }

  lemma {:induction false} HashFromSplit(h: Word, a: string, b: string)
    ensures HashFrom(h, a + b) == HashFrom(HashFrom(h, a), b)
    decreases |a|
  {
    if a == "" {
      assert a + b == b;
    } else {
      assert (a + b)[1..] == a[1..] + b;
      HashFromSplit(Round(h, a[0] as int), a[1..], b);
    }
  }

  // Distinct characters separate one accumulator.
  lemma AddInjective(h: Word, c: Word, d: Word)
    requires c != d
    ensures Add(h, c) != Add(h, d)
  {}

  lemma RoundSeparates(h: Word, c: Word, d: Word)
    requires c != d
    ensures Round(h, c) != Round(h, d)
  {
    hide Xor, Shr, Unfold;
    var x, y := Add(h, c), Add(h, d);
    assert x != y by { AddInjective(h, c, d); }
    MultiplyInverts(x, 1025, INV1025, 769);
    MultiplyInverts(y, 1025, INV1025, 769);
    hide Add;
    UnfoldFold(x * 1025 % WORD, 6);
    UnfoldFold(y * 1025 % WORD, 6);
  }

  /** Two keys that differ in exactly one character never share a hash, whatever their length
      and the position of the difference. */
  lemma HashSeparatesOneCharacter(before: string, c: char, d: char, after: string)
    requires c != d
    ensures HashOf(before + [c] + after) != HashOf(before + [d] + after)
  {
    var h := HashFrom(0, before);
    HashFromSplit(0, before + [c], after);
    HashFromSplit(0, before + [d], after);
    HashFromSnoc(0, before, c);
    HashFromSnoc(0, before, d);
    RoundSeparates(h, c as int, d as int);
    SuffixInjective(Round(h, c as int), Round(h, d as int), after);
    FinishBijective(HashFrom(0, before + [c] + after));
    FinishBijective(HashFrom(0, before + [d] + after));
  }

  // ----- Known values -----

  /** The hash of nothing is 0, and that of the one character 1 is 307143837. */
  lemma KnownHashes()
    ensures HashOf("") == 0
    ensures HashOf([1 as char]) == 307143837
  {
    hide Xor, Shr, HashFrom;
    SmallXors();
    FoldZero(11);
    assert Round(0, 1) == 1041;
    assert Finish(1041) == 307143837;
    assert HashFrom(0, "") == 0 && HashFrom(0, [1 as char]) == Round(0, 1) by { FirstRound(1 as char); }
  }

  lemma FoldZero(k: nat)
    ensures Fold(0, k) == 0
  {}

  lemma FirstRound(c: char)
    ensures HashFrom(0, "") == 0
    ensures c as int < WORD ==> HashFrom(0, [c]) == Round(0, c as int)
  {
    hide Round;
    assert [c][1..] == "";
  }

  lemma SmallXors()
    ensures Shr(1025, 6) == 16 && Xor(1025, 16) == 1041
    ensures Shr(9369, 11) == 4 && Xor(9369, 4) == 9373
  {
    assert Xor(64, 1) == 65;
    assert Xor(256, 4) == 260;
    assert Xor(2342, 1) == 2343;
  }
}
