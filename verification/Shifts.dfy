/** Moving a run of words by bits and by whole words. */
module Shifts {
  import opened Arithmetic
  import opened Words
  import opened LowLevel

  /** 2^n. */
  function Two(n: nat): (r: nat)
    ensures r > 0
  {
    if n == 0 then 1 else 2 * Two(n - 1)
  }

  lemma {:induction false} TwoAdd(a: nat, b: nat)
    ensures Two(a + b) == Two(a) * Two(b)
    decreases a
  {
    if a > 0 {
      TwoAdd(a - 1, b);
      assert (2 * Two(a - 1)) * Two(b) == 2 * (Two(a - 1) * Two(b));
    }
  }

  lemma {:induction false} TwoMonotone(a: nat, b: nat)
    requires a <= b
    ensures Two(a) <= Two(b)
    decreases b
  {
    if a < b { TwoMonotone(a, b - 1); }
  }

  lemma TwoWord()
    ensures Two(WORD_BITS) == W
  {
    assert Two(8) == 0x100;
    TwoAdd(8, 8);
    TwoAdd(16, 16);
  }

  /** Powers of two and of the word size. */
  lemma {:induction false} TwoPw(n: nat)
    ensures Two(32 * n) == Pw(n)
  {
    hide Two, Pw, Sh;
    PwOne(n);
    if n > 0 {
      TwoPw(n - 1);
      TwoAdd(32, 32 * (n - 1));
      TwoWord();
      ShW(1, n - 1);
      ShMul(W, 1, n - 1);
      PwOne(n - 1);
    } else {
      TwoZeroPw();
    }
  }

  lemma TwoZeroPw()
    ensures Two(0) == 1 == Pw(0)
  {
  }

  lemma TwoNext(n: nat)
    ensures Two(n + 1) == 2 * Two(n) && Two(0) == 1
  {
  }

  /** The two shift amounts of a word operation are complementary. */
  lemma TwoSplit(s: nat)
    requires s <= WORD_BITS
    ensures Two(s) * Two(WORD_BITS - s) == W
  {
    TwoAdd(s, WORD_BITS - s);
    TwoWord();
  }

  function ShlWord(u: word, s: nat): word {
    (u * Two(s)) % W
  }

  function ShrWord(u: word, s: nat): word {
    DivBelow(u, Two(s));
    u / Two(s)
  }

  lemma DivBelow(u: int, p: int)
    requires 0 <= u && 0 < p
    ensures 0 <= u / p <= u
  {
    DivParts(u, p);
    if u / p > u { MulMonotone(p, u + 1, u / p); MulMonotone(u + 1, 1, p); }
    if u / p < 0 { MulMonotone(p, u / p, -1); }
  }

  lemma PartsOfProduct(u: int, p: int, q: int, h: int, l: int)
    requires 0 < p && p * q == W && u == q * h + l && 0 <= l < q
    ensures u * p == l * p + W * h && 0 <= l * p <= W - p
  {
    assert (q * h + l) * p == (q * h) * p + l * p;
    assert (q * h) * p == (p * q) * h;
    MulMonotone(p, l, q - 1);
    MulMonotone(p, 0, l);
    assert p * (q - 1) == p * q - p;
  }

  /** Shifting a word left by s and right by the complementary amount cut the
      same product u * 2^s in two. */
  lemma WordParts(u: word, s: nat)
    requires s <= WORD_BITS
    ensures u * Two(s) == ShlWord(u, s) + W * ShrWord(u, WORD_BITS - s)
    ensures ShlWord(u, s) == (u % Two(WORD_BITS - s)) * Two(s) <= W - Two(s)
  {
    hide Two;
    TwoSplit(s);
    DivParts(u, Two(WORD_BITS - s));
    PartsOfProduct(u, Two(s), Two(WORD_BITS - s), u / Two(WORD_BITS - s), u % Two(WORD_BITS - s));
    DivUnique(u * Two(s), W, u / Two(WORD_BITS - s), (u % Two(WORD_BITS - s)) * Two(s));
  }

  lemma ShlStep(v0: int, v1: int, x: int, lo: int, hi: int, c: int, p: int, i: nat)
    requires v1 + Sh(c, i) == v0 * p && x * p == lo + W * hi
    ensures v1 + Sh(lo + c, i) + Sh(hi, i + 1) == (v0 + Sh(x, i)) * p
  {
    hide Sh;
    ShMul(x, p, i);
    ShAdd(lo, W * hi, i);
    ShAdd(lo, c, i);
    ShW(hi, i);
    assert (v0 + Sh(x, i)) * p == v0 * p + Sh(x, i) * p;
  }

  lemma MulOne(x: int)
    ensures x * Two(0) == x
  {
  }

  /** R := R * 2^s, returning the bits shifted out at the top. The words or-ed
      together have no bit in common, so the or is a sum. */
  method ShiftWordsLeftByBits(mem: array<word>, r: nat, n: nat, shiftBits: nat) returns (carry: word)
    requires shiftBits < WORD_BITS && r + n <= mem.Length
    modifies mem
    ensures carry < Two(shiftBits)
    ensures Frame(old(mem[..]), mem[..], r, n)
    ensures V(mem[..], r, n) + Sh(carry, n) == V(old(mem[..]), r, n) * Two(shiftBits)
  {
    hide V, Sh, Two, ShlWord, ShrWord;
    ghost var m0 := mem[..];
    carry := 0;
    ShMono(0, 0, n);
    ShMono(0, 0, 0);
    Empty(m0, r);
    if shiftBits > 0 {
      var i: nat := 0;
      while i < n
        invariant i <= n
        invariant carry < Two(shiftBits)
        invariant Frame(m0, mem[..], r, i)
        invariant V(mem[..], r, i) + Sh(carry, i) == V(m0, r, i) * Two(shiftBits)
      {
        ghost var m1 := mem[..];
        var u := mem[r + i];
        WordParts(u, shiftBits);
        mem[r + i] := ShlWord(u, shiftBits) + carry;
        Grow(m1, mem[..], r, i);
        Top(m0, r, i);
        ShlStep(V(m0, r, i), V(m1, r, i), u, ShlWord(u, shiftBits),
                ShrWord(u, WORD_BITS - shiftBits), carry, Two(shiftBits), i);
        ShrBound(u, WORD_BITS - shiftBits);
        carry := ShrWord(u, WORD_BITS - shiftBits);
        i := i + 1;
      }
    } else {
      MulOne(V(m0, r, n));
    }
  }

  lemma ShrBound(u: word, s: nat)
    requires s <= WORD_BITS
    ensures ShrWord(u, s) < Two(WORD_BITS - s)
  {
    hide Two;
    var p, q := Two(s), Two(WORD_BITS - s);
    TwoSplit(s);
    DivParts(u, p);
    if u / p >= q { MulMonotone(p, q, u / p); }
  }

  lemma ShrStep(x: int, d: int, e: int, hi: int, v1: int, rem: int, p: int, q: int)
    requires x == p * d + e && hi == p * v1 + rem && p * q == W
    ensures x + W * hi == p * ((d + rem * q) + W * v1) + e
  {
    assert p * (rem * q) == W * rem by { assert p * (rem * q) == (p * q) * rem; }
    assert p * (W * v1) == W * (p * v1);
    assert p * ((d + rem * q) + W * v1) == p * d + p * (rem * q) + p * (W * v1);
  }

  /** R := R / 2^s. The bits shifted out come back at the top of a word. */
  method ShiftWordsRightByBits(mem: array<word>, r: nat, n: nat, shiftBits: nat)
    returns (carry: word, ghost rem: int)
    requires shiftBits < WORD_BITS && r + n <= mem.Length
    modifies mem
    ensures Frame(old(mem[..]), mem[..], r, n)
    ensures 0 <= rem < Two(shiftBits)
    ensures V(old(mem[..]), r, n) == Two(shiftBits) * V(mem[..], r, n) + rem
    ensures carry == if shiftBits == 0 then 0 else rem * Two(WORD_BITS - shiftBits)
  {
    hide V, Sh, Two, ShlWord, ShrWord;
    ghost var m0 := mem[..];
    carry, rem := 0, 0;
    if shiftBits > 0 {
      ghost var p, q := Two(shiftBits), Two(WORD_BITS - shiftBits);
      TwoSplit(shiftBits);
      Empty(m0, r + n);
      var i: nat := n;
      while i > 0
        invariant i <= n
        invariant 0 <= rem < p && carry == rem * q
        invariant Frame(m0, mem[..], r + i, n - i)
        invariant V(m0, r + i, n - i) == p * V(mem[..], r + i, n - i) + rem
      {
        i := i - 1;
        carry, rem := ShiftWordRight(mem, r + i, n - i, shiftBits, m0, rem, carry);
      }
    } else {
      MulOne(V(m0, r, n));
    }
  }

  /** One word of the loop above, with n words from p up already shifted after it. */
  method ShiftWordRight(mem: array<word>, p: nat, n: nat, s: nat, ghost m0: seq<word>, ghost rem: int, carry: word)
    returns (carry': word, ghost rem': int)
    requires 0 < s < WORD_BITS && 0 < n && p + n <= mem.Length
    requires 0 <= rem < Two(s) && carry == rem * Two(WORD_BITS - s)
    requires Frame(m0, mem[..], p + 1, n - 1)
    requires V(m0, p + 1, n - 1) == Two(s) * V(mem[..], p + 1, n - 1) + rem
    modifies mem
    ensures 0 <= rem' < Two(s) && carry' == rem' * Two(WORD_BITS - s)
    ensures Frame(m0, mem[..], p, n)
    ensures V(m0, p, n) == Two(s) * V(mem[..], p, n) + rem'
  {
    hide V, Sh, Two, ShlWord;
    ghost var m1 := mem[..];
    var u := mem[p];
    WordParts(u, WORD_BITS - s);
    DivParts(u, Two(s));
    RoomAbove(u, s, rem);
    mem[p] := ShrWord(u, s) + carry;
    Kept(m1, mem[..], p, 1, p + 1, n - 1);
    Low(m0, p, n);
    Low(mem[..], p, n);
    TwoSplit(s);
    ShrStep(u, u / Two(s), u % Two(s), V(m0, p + 1, n - 1), V(m1, p + 1, n - 1), rem, Two(s), Two(WORD_BITS - s));
    carry' := ShlWord(u, WORD_BITS - s);
    rem' := u % Two(s);
  }

  lemma Low(m: seq<word>, p: nat, n: nat)
    requires 0 < n && p + n <= |m|
    ensures V(m, p, n) == m[p] + W * V(m, p + 1, n - 1)
  {
  }

  lemma RoomAbove(u: word, s: nat, rem: int)
    requires s <= WORD_BITS && 0 <= rem < Two(s)
    ensures 0 <= ShrWord(u, s) + rem * Two(WORD_BITS - s) < W
  {
    hide Two, ShrWord;
    ShrBound(u, s);
    TwoSplit(s);
    MulMonotone(Two(WORD_BITS - s), rem, Two(s) - 1);
    MulMonotone(Two(WORD_BITS - s), 0, rem);
    assert (Two(s) - 1) * Two(WORD_BITS - s) == Two(s) * Two(WORD_BITS - s) - Two(WORD_BITS - s);
  }

  /** R := R * W^shiftWords within n words: the top words are lost. */
  method ShiftWordsLeftByWords(mem: array<word>, r: nat, n: nat, shiftWords: nat)
    requires r + n <= mem.Length
    modifies mem
    ensures Frame(old(mem[..]), mem[..], r, n)
    ensures var s := Min(shiftWords, n);
      V(mem[..], r, s) == 0 && V(mem[..], r + s, n - s) == V(old(mem[..]), r, n - s)
      && V(mem[..], r, n) == Sh(V(old(mem[..]), r, n - s), s)
  {
    hide V, Sh;
    ghost var m0 := mem[..];
    var s := Min(shiftWords, n);
    if s > 0 {
      MoveUp(mem, r, n, s);
      ghost var m1 := mem[..];
      SetWords(mem, r, 0, s);
      Kept(m1, mem[..], r, s, r + s, n - s);
    }
    ZeroV(mem[..], r, s);
    Split(mem[..], r, s, n - s);
  }

  method MoveUp(mem: array<word>, r: nat, n: nat, s: nat)
    requires 0 < s <= n && r + n <= mem.Length
    modifies mem
    ensures Frame(old(mem[..]), mem[..], r, n)
    ensures V(mem[..], r + s, n - s) == V(old(mem[..]), r, n - s)
  {
    hide V;
    ghost var m0 := mem[..];
    var i: int := n - 1;
    while i >= s
      invariant s - 1 <= i <= n - 1
      invariant Frame(m0, mem[..], r + 1 + i, n - 1 - i)
      invariant forall k :: r + 1 + i <= k < r + n ==> mem[k] == m0[k - s]
    {
      mem[r + i] := mem[r + i - s];
      i := i - 1;
    }
    ghost var moved, was := mem[r + s..r + s + (n - s)], m0[r..r + (n - s)];
    forall k | 0 <= k < |moved|
      ensures moved[k] == was[k]
    {
      assert mem[r + s + k] == m0[r + s + k - s];
    }
    assert moved == was;
    MovedV(m0, r, mem[..], r + s, n - s);
  }

  /** R := R / W^shiftWords: the low words are lost. */
  method ShiftWordsRightByWords(mem: array<word>, r: nat, n: nat, shiftWords: nat)
    requires r + n <= mem.Length
    modifies mem
    ensures Frame(old(mem[..]), mem[..], r, n)
    ensures var s := Min(shiftWords, n);
      V(old(mem[..]), r, n) == V(old(mem[..]), r, s) + Sh(V(mem[..], r, n), s)
      && V(mem[..], r, n - s) == V(mem[..], r, n)
  {
    hide V, Sh;
    ghost var m0 := mem[..];
    var s := Min(shiftWords, n);
    if s > 0 {
      CopyWords(mem, r, r + s, n - s);
      ghost var m1 := mem[..];
      SetWords(mem, r + n - s, 0, s);
      Kept(m1, mem[..], r + n - s, s, r, n - s);
      ZeroV(mem[..], r + n - s, s);
      Split(mem[..], r, n - s, s);
      ShMono(0, 0, n - s);
    }
    Split(m0, r, s, n - s);
  }

  function BitsToWords(n: nat): nat {
    (n + WORD_BITS - 1) / WORD_BITS
  }

  /** operator<<= on the words in use, the words to be grown into being zero. */
  method ShiftLeft(mem: array<word>, reg: nat, wordCount: nat, n: nat)
    requires reg + wordCount + BitsToWords(n) <= mem.Length
    requires forall i :: reg + wordCount <= i < reg + wordCount + BitsToWords(n) ==> mem[i] == 0
    modifies mem
    ensures Frame(old(mem[..]), mem[..], reg, wordCount + BitsToWords(n))
    ensures V(mem[..], reg, wordCount + BitsToWords(n)) == V(old(mem[..]), reg, wordCount) * Two(n)
  {
    hide V, Sh, Pw, Two;
    ghost var m0 := mem[..];
    var shiftWords, shiftBits := n / WORD_BITS, n % WORD_BITS;
    ShiftWordsLeftByWords(mem, reg, wordCount + shiftWords, shiftWords);
    ghost var m1 := mem[..];
    var more := BitsToWords(shiftBits);
    assert BitsToWords(n) == shiftWords + more;
    BitsUp(mem, reg + shiftWords, wordCount, shiftBits);
    Kept(m1, mem[..], reg + shiftWords, wordCount + more, reg, shiftWords);
    Split(mem[..], reg, shiftWords, wordCount + more);
    WordsAndBits(V(m0, reg, wordCount), shiftWords, shiftBits);
  }

  /** The bits' part of it, into one word more unless there are none. */
  method BitsUp(mem: array<word>, p: nat, k: nat, s: nat)
    requires s < WORD_BITS && p + k + BitsToWords(s) <= mem.Length
    requires forall i :: p + k <= i < p + k + BitsToWords(s) ==> mem[i] == 0
    modifies mem
    ensures Frame(old(mem[..]), mem[..], p, k + BitsToWords(s))
    ensures V(mem[..], p, k + BitsToWords(s)) == V(old(mem[..]), p, k) * Two(s)
  {
    hide V, Sh, Pw, Two;
    ghost var m0 := mem[..];
    var more := BitsToWords(s);
    ZeroV(m0, p + k, more);
    Split(m0, p, k, more);
    ShMono(0, 0, k);
    var carry := ShiftWordsLeftByBits(mem, p, k + more, s);
    NothingOut(V(m0, p, k), V(mem[..], p, k + more), carry, k, s);
  }

  lemma NothingOut(x: int, y: int, carry: int, k: nat, s: nat)
    requires 0 <= x < Pw(k) && 0 <= y && 0 <= carry < Two(s) && s < WORD_BITS
    requires y + Sh(carry, k + BitsToWords(s)) == x * Two(s)
    ensures y == x * Two(s)
  {
    hide Sh, Pw, Two;
    ShMono(0, 0, k + BitsToWords(s));
    if s == 0 {
      TwoZeroPw();
    } else if carry > 0 {
      PwOne(k + 1);
      ShMono(1, carry, k + 1);
      TwoMonotone(s, WORD_BITS);
      TwoWord();
      PwAdd(k, 1);
      PwWord();
      MulMonotone(x, Two(s), W);
      MulMonotone(W, x + 1, Pw(k));
    }
  }

  lemma WordsAndBits(x: int, words: nat, bits: nat)
    ensures Sh(x * Two(bits), words) == x * Two(WORD_BITS * words + bits)
  {
    hide Sh, Pw, Two;
    TwoAdd(WORD_BITS * words, bits);
    TwoPw(words);
    ShIsMul(x * Two(bits), words);
    Regroup(x, Two(bits), Pw(words));
  }

  /** operator>>= on the words in use. */
  method ShiftRight(mem: array<word>, reg: nat, wordCount: nat, n: nat)
    requires reg + wordCount <= mem.Length
    modifies mem
    ensures Frame(old(mem[..]), mem[..], reg, wordCount)
    ensures V(mem[..], reg, wordCount) == V(old(mem[..]), reg, wordCount) / Two(n)
  {
    hide V, Sh, Pw, Two;
    ghost var m0 := mem[..];
    var shiftWords, shiftBits := n / WORD_BITS, n % WORD_BITS;
    ShiftWordsRightByWords(mem, reg, wordCount, shiftWords);
    ghost var m1 := mem[..];
    if wordCount > shiftWords {
      var _, rem := ShiftWordsRightByBits(mem, reg, wordCount - shiftWords, shiftBits);
      TopsKept(m1, mem[..], reg, wordCount - shiftWords, shiftWords);
      TwoParts(V(m0, reg, wordCount), V(m0, reg, shiftWords), V(m1, reg, wordCount), V(mem[..], reg, wordCount), rem,
               shiftWords, shiftBits);
    } else {
      Empty(m1, reg);
      ShMono(0, 0, wordCount);
      AllOut(V(m0, reg, wordCount), wordCount, n);
    }
  }

  /** Words above those shifted are zero before and after. */
  lemma TopsKept(m1: seq<word>, m2: seq<word>, p: nat, k: nat, s: nat)
    requires p + k + s <= |m1| && Frame(m1, m2, p, k) && V(m1, p, k) == V(m1, p, k + s)
    ensures V(m2, p, k) == V(m2, p, k + s)
  {
    hide V, Sh;
    Split(m1, p, k, s);
    Split(m2, p, k, s);
    Kept(m1, m2, p, k, p + k, s);
  }

  lemma TwoParts(x: int, low: int, y: int, z: int, rem: int, words: nat, bits: nat)
    requires 0 <= low < Pw(words) && x == low + Sh(y, words) && y == Two(bits) * z + rem && 0 <= rem < Two(bits)
    ensures z == x / Two(WORD_BITS * words + bits)
  {
    hide Sh, Pw, Two;
    TwoAdd(WORD_BITS * words, bits);
    TwoPw(words);
    ShIsMul(y, words);
    var p, b := Pw(words), Two(bits);
    Distribute(b * z, rem, p);
    Regroup(b, z, p);
    MulMonotone(p, rem + 1, b);
    MulMonotone(p, 0, rem);
    Distribute(rem, 1, p);
    assert (b * z) * p == (p * b) * z;
    DivUnique(x, p * b, z, low + rem * p);
  }

  lemma AllOut(x: int, k: nat, n: nat)
    requires 0 <= x < Pw(k) && WORD_BITS * k <= n
    ensures x / Two(n) == 0
  {
    hide Pw, Two;
    TwoPw(k);
    TwoMonotone(WORD_BITS * k, n);
    DivUnique(x, Two(n), 0, x);
  }
}
