/** What FastTrack's correction pass does to a number, lost borrows included. */
module BigPasses {
  import opened Arithmetic
  import opened Words
  import opened LowLevel
  import opened Shifts

  /** Subtracting m from x, word j is zero when a borrow reaches it. */
  ghost predicate DropAt(x: int, m: int, j: nat) {
    HighPart(x, j) % W == 0 && LowPart(x, j) < LowPart(m, j)
  }

  /** No word below n meets the case the correction pass gets wrong. */
  ghost predicate NoDrop(x: int, m: int, n: nat) {
    forall j: nat :: j < n ==> !DropAt(x, m, j)
  }

  /** The passes that bring r below m meet no forgotten borrow. */
  ghost predicate CleanPasses(r: int, m: int, n: nat)
    decreases r
  {
    0 < m && 0 <= r && (r < m || (NoDrop(r, m, n) && CleanPasses(r - m, m, n)))
  }

  /** Word j of a number. */
  ghost function WordOf(x: int, j: nat): (w: int)
    ensures 0 <= w < W
  {
    HighPart(x, j) % W
  }

  /** The borrow the pass carries into word j. */
  ghost function Borrow(x: int, m: int, j: nat): (l: int)
    ensures 0 <= l <= 1
  {
    if j == 0 then 0
    else if (WordOf(x, j - 1) - Borrow(x, m, j - 1)) % W < WordOf(m, j - 1) then 1 else 0
  }

  /** A borrow reaches word j and is forgotten, the word being zero. */
  ghost predicate Forgets(x: int, m: int, j: nat) {
    Borrow(x, m, j) == 1 && WordOf(x, j) == 0
  }

  /** What the borrows forgotten below word j are worth. */
  ghost function Lost(x: int, m: int, j: nat): (s: int)
    ensures s >= 0
  {
    if j == 0 then 0
    else
      ShMono(0, 1, j);
      Lost(x, m, j - 1) + if Forgets(x, m, j - 1) then Sh(1, j) else 0
  }

  /** The window of n + 1 words after a pass. */
  ghost function AfterPass(x: int, m: int, n: nat): int {
    LowPart(x - m + Lost(x, m, n), n + 1)
  }

  lemma LowNext(x: int, j: nat)
    ensures LowPart(x, j + 1) == LowPart(x, j) + Sh(WordOf(x, j), j)
    ensures HighPart(x, j) == WordOf(x, j) + W * HighPart(x, j + 1)
  {
    hide Sh, Pw, LowPart, HighPart;
    Parts(x, j);
    var h := HighPart(x, j);
    DivParts(h, W);
    ShAdd(h % W, W * (h / W), j);
    ShW(h / W, j);
    ShMono(0, h % W, j);
    ShMono(h % W + 1, W, j);
    ShAdd(h % W, 1, j);
    PwOne(j);
    ShW(1, j);
    PwOne(j + 1);
    PartsUnique(x, j + 1, LowPart(x, j) + Sh(h % W, j), h / W);
  }

  /** The low j words the pass has written. */
  ghost function Written(x: int, m: int, j: nat): int {
    LowPart(x, j) - LowPart(m, j) + Lost(x, m, j) + Sh(Borrow(x, m, j), j)
  }

  lemma {:induction false} WrittenFits(x: int, m: int, j: nat)
    ensures 0 <= Written(x, m, j) < Pw(j)
  {
    hide Sh, Pw, LowPart, HighPart, WordOf;
    if j == 0 {
      NothingWritten(x, m);
    } else {
      WrittenFits(x, m, j - 1);
      LowNext(x, j - 1);
      LowNext(m, j - 1);
      NextWritten(x, m, j - 1);
    }
  }

  lemma NothingWritten(x: int, m: int)
    ensures Written(x, m, 0) == 0 < Pw(0)
  {
    assert Pw(0) == 1;
  }

  lemma NextWritten(x: int, m: int, j: nat)
    requires 0 <= Written(x, m, j) < Pw(j)
    requires LowPart(x, j + 1) == LowPart(x, j) + Sh(WordOf(x, j), j)
    requires LowPart(m, j + 1) == LowPart(m, j) + Sh(WordOf(m, j), j)
    ensures 0 <= Written(x, m, j + 1) < Pw(j + 1)
  {
    hide Sh, Pw, LowPart, HighPart, WordOf;
    var a, b, l, l' := WordOf(x, j), WordOf(m, j), Borrow(x, m, j), Borrow(x, m, j + 1);
    var d := if Forgets(x, m, j) then 1 else 0;
    var y := a - l - b + W * (l' + d);
    WordWritten(a, b, l, l', d);
    ShAdd(a, b, j);
    ShAdd(a - b, l, j);
    ShAdd(a - b - l, W * (l' + d), j);
    ShW(l' + d, j);
    ShAdd(l', d, j + 1);
    ShMono(0, 0, j + 1);
    assert Written(x, m, j + 1) == Written(x, m, j) + Sh(y, j);
    ShMono(0, y, j);
    ShMono(y + 1, W, j);
    ShAdd(y, 1, j);
    PwOne(j);
    ShW(1, j);
    PwOne(j + 1);
  }

  lemma WordWritten(a: int, b: int, l: int, l': int, d: int)
    requires 0 <= a < W && 0 <= b < W && 0 <= l <= 1
    requires l' == (if (a - l) % W < b then 1 else 0) && d == if l == 1 && a == 0 then 1 else 0
    ensures 0 <= a - l - b + W * (l' + d) < W
  {
    if a - l < 0 { DivUnique(a - l, W, -1, a - l + W); } else { DivUnique(a - l, W, 0, a - l); }
  }

  /** A borrow is forgotten exactly where a true borrow first meets a zero word. */
  lemma {:induction false} DropsLose(x: int, m: int, n: nat)
    ensures NoDrop(x, m, n) <==> Lost(x, m, n) == 0
  {
    hide Sh, Pw, LowPart, HighPart, DropAt, Forgets;
    if n > 0 {
      DropsLose(x, m, n - 1);
      ShMono(0, 1, n);
      if Lost(x, m, n - 1) == 0 { DropForgets(x, m, n - 1); }
      assert NoDrop(x, m, n) <==> NoDrop(x, m, n - 1) && !DropAt(x, m, n - 1);
    }
  }

  lemma DropForgets(x: int, m: int, j: nat)
    requires Lost(x, m, j) == 0
    ensures DropAt(x, m, j) <==> Forgets(x, m, j)
  {
    hide Sh, Pw, LowPart, HighPart, Borrow, Lost;
    WrittenFits(x, m, j);
    PwOne(j);
    ShMono(0, 0, j);
  }

  /** The modulus has its top bit set, and its top word is not all ones. */
  ghost predicate Tame(m: int, n: nat)
    requires 1 <= n
  {
    0 < m < Pw(n) && W / 2 <= WordOf(m, n - 1) < W - 1
  }

  /** The word above the modulus counts most; below that a window whose top word
      holds the modulus's comes before one with a zero there, and that before
      all others. */
  ghost function Rank(x: int, m: int, n: nat): (r: nat)
    requires 1 <= n && 0 <= x
  {
    HighNonNegative(x, n);
    var top := WordOf(x, n - 1);
    3 * HighPart(x, n) + if top >= WordOf(m, n - 1) then 2 else if top == 0 then 1 else 0
  }

  lemma HighNonNegative(x: int, n: nat)
    requires 0 <= x
    ensures 0 <= HighPart(x, n)
  {
    hide Pw;
    DivParts(x, Pw(n));
    if x / Pw(n) < 0 { MulMonotone(Pw(n), x / Pw(n), -1); }
  }

  /** Even with borrows forgotten, a pass brings every window that holds a tame
      modulus closer to the end. */
  lemma RankFalls(x: int, m: int, n: nat)
    requires 1 <= n && Tame(m, n) && m <= x < Pw(n + 1)
    ensures AfterPass(x, m, n) == x - m + Lost(x, m, n)
    ensures 0 <= AfterPass(x, m, n) < Pw(n + 1) && Rank(AfterPass(x, m, n), m, n) < Rank(x, m, n)
  {
    hide Sh, Pw, LowPart, HighPart, WordOf, Lost, Borrow, Forgets;
    var y, b := Written(x, m, n - 1), Borrow(x, m, n - 1);
    var top, mtop, hi := WordOf(x, n - 1), WordOf(m, n - 1), HighPart(x, n);
    WrittenFits(x, m, n - 1);
    Layers(x, n);
    Layers(m, n);
    WholeBelow(m, n);
    ShMono(0, 0, n);
    HighNonNegative(x, n);
    HighBelow(x, n);
    LastLost(x, m, n);
    var d := if Forgets(x, m, n - 1) then 1 else 0;
    var z := top - b - mtop + W * d;
    ShAdd(top, mtop, n - 1);
    ShAdd(top - mtop, b, n - 1);
    ShAdd(top - b - mtop, W * d, n - 1);
    ShW(d, n - 1);
    assert x - m + Lost(x, m, n) == y + Sh(z, n - 1) + Sh(hi, n);
    if d == 1 {
      AllOnesLess(mtop);
      Layered(x - m + Lost(x, m, n), y, z, hi, n);
    } else if z >= 0 {
      Layered(x - m + Lost(x, m, n), y, z, hi, n);
    } else {
      if hi == 0 { HoldsModulus(x, m, n); }
      ShAdd(z, W, n - 1);
      ShW(1, n - 1);
      ShAdd(hi, 1, n);
      Layered(x - m + Lost(x, m, n), y, z + W, hi - 1, n);
    }
  }

  lemma AllOnesLess(top: int)
    requires W / 2 <= top < W - 1
    ensures 1 <= W - 1 - top < top
  {
  }

  lemma LastLost(x: int, m: int, n: nat)
    requires 1 <= n
    ensures Lost(x, m, n) == Lost(x, m, n - 1) + if Forgets(x, m, n - 1) then Sh(1, n) else 0
    ensures Forgets(x, m, n - 1) <==> Borrow(x, m, n - 1) == 1 && WordOf(x, n - 1) == 0
  {
    hide Sh, WordOf;
  }

  /** The low words, word n - 1, and what is above. */
  lemma Layers(x: int, n: nat)
    requires 1 <= n
    ensures x == LowPart(x, n - 1) + Sh(WordOf(x, n - 1), n - 1) + Sh(HighPart(x, n), n)
    ensures 0 <= LowPart(x, n - 1) < Pw(n - 1)
  {
    hide Sh, Pw, LowPart, HighPart, WordOf;
    LowNext(x, n - 1);
    Parts(x, n);
    Parts(x, n - 1);
  }

  lemma WholeBelow(m: int, n: nat)
    requires 0 <= m < Pw(n)
    ensures HighPart(m, n) == 0
  {
    hide Sh, Pw, LowPart, HighPart;
    ShMono(0, 0, n);
    PartsUnique(m, n, m, 0);
  }

  lemma HighBelow(x: int, n: nat)
    requires 0 <= x < Pw(n + 1)
    ensures 0 <= HighPart(x, n) < W
  {
    hide Sh, Pw, LowPart, HighPart;
    Parts(x, n);
    HighNonNegative(x, n);
    PwOne(n + 1);
    ShW(1, n);
    if HighPart(x, n) >= W { ShMono(W, HighPart(x, n), n); }
  }

  /** A value in three layers is its own window. */
  lemma Layered(v: int, y: int, z: int, hi: int, n: nat)
    requires 1 <= n && v == y + Sh(z, n - 1) + Sh(hi, n) && 0 <= y < Pw(n - 1) && 0 <= z < W && 0 <= hi < W
    ensures LowPart(v, n + 1) == v && 0 <= v < Pw(n + 1) && HighPart(v, n) == hi && WordOf(v, n - 1) == z
  {
    hide Sh, Pw, LowPart, HighPart;
    var low := y + Sh(z, n - 1);
    UnderNext(y, z, n - 1);
    PartsUnique(v, n, low, hi);
    UnderNext(low, hi, n);
    ShMono(0, 0, n + 1);
    PartsUnique(v, n + 1, v, 0);
    ShAdd(z, W * hi, n - 1);
    ShW(hi, n - 1);
    PartsUnique(v, n - 1, y, z + W * hi);
    DivUnique(z + W * hi, W, hi, z);
  }

  lemma UnderNext(y: int, z: int, n: nat)
    requires 0 <= y < Pw(n) && 0 <= z < W
    ensures 0 <= y + Sh(z, n) < Pw(n + 1)
  {
    hide Sh, Pw;
    ShMono(0, z, n);
    ShMono(z + 1, W, n);
    ShAdd(z, 1, n);
    PwOne(n);
    ShW(1, n);
    PwOne(n + 1);
  }

  /** With nothing above the modulus's words, no borrow leaves the top one. */
  lemma HoldsModulus(x: int, m: int, n: nat)
    requires 1 <= n && Tame(m, n) && m <= x && HighPart(x, n) == 0
    ensures WordOf(x, n - 1) - Borrow(x, m, n - 1) - WordOf(m, n - 1) >= 0
  {
    hide Sh, Pw, LowPart, HighPart, WordOf, Borrow, Lost;
    Layers(x, n);
    Layers(m, n);
    WholeBelow(m, n);
    WrittenFits(x, m, n - 1);
    ShMono(0, 0, n);
    PwOne(n - 1);
    var a, b := WordOf(x, n - 1), WordOf(m, n - 1);
    if a < b {
      ShMono(a + 1, b, n - 1);
      ShAdd(a, 1, n - 1);
    }
  }

  /** What the guessed multiple leaves of a window of n+1 words. */
  ghost function FirstRemainder(w: int, m: int, n: nat): int
    requires 1 <= n && 0 < m
  {
    HighNonNegative(m, n - 1);
    w - (HighPart(w, n - 1) / (HighPart(m, n - 1) + 1)) * m
  }

  /** What the passes over a window forget altogether. */
  ghost function Excess(x: int, m: int, n: nat): (s: int)
    requires 1 <= n
    ensures s >= 0
    decreases if x < 0 then 0 else Rank(x, m, n)
  {
    if Tame(m, n) && m <= x < Pw(n + 1) then
      RankFalls(x, m, n);
      Lost(x, m, n) + Excess(AfterPass(x, m, n), m, n)
    else 0
  }

  /** The reduction of x by m, from digit i down, meets no forgotten borrow. */
  ghost predicate Clean(x: int, m: int, n: nat, i: nat)
    requires 1 <= n
    decreases i
  {
    i == 0
    || (0 < m && CleanPasses(FirstRemainder(HighPart(x, i - 1), m, n), m, n)
        && Clean(LowPart(x, i - 1) + Sh(HighPart(x, i - 1) % m, i - 1), m, n, i - 1))
  }

  /** The number once the window of digit i is reduced. */
  ghost function NextDigits(x: int, e: int, m: int, i: nat): int
    requires 0 < m
  {
    LowPart(x, i) + Sh((HighPart(x, i) + e) % m, i)
  }

  /** What the reduction of x by m, from digit i down, forgets altogether: digit
      by digit, a window keeps the residue of what the guess left and of what its
      passes forgot. */
  ghost function Forgotten(x: int, m: int, n: nat, i: nat): (s: int)
    requires 1 <= n && 0 < m
    ensures s >= 0
    decreases i
  {
    if i == 0 then 0
    else
      var e := Excess(FirstRemainder(HighPart(x, i - 1), m, n), m, n);
      ShMono(0, e, i - 1);
      Sh(e, i - 1) + Forgotten(NextDigits(x, e, m, i - 1), m, n, i - 1)
  }

  /** What the reduction leaves of x. */
  ghost function Residue(x: int, m: int, n: nat): (r: int)
    requires 1 <= n && 0 < m
    ensures 0 <= r < m
  {
    (x + Forgotten(x, m, n, n)) % m
  }

  /** Clean passes forget nothing. */
  lemma {:induction false} CleanPassesForget(r: int, m: int, n: nat)
    requires 1 <= n && CleanPasses(r, m, n)
    ensures Excess(r, m, n) == 0
    decreases r
  {
    hide NoDrop, Tame, Pw, Lost, LowPart, AfterPass;
    if Tame(m, n) && m <= r < Pw(n + 1) {
      RankFalls(r, m, n);
      DropsLose(r, m, n);
      CleanPassesForget(r - m, m, n);
    }
  }

  /** Neither do clean reductions, so their result is the remainder. */
  lemma {:induction false} CleanForgets(x: int, m: int, n: nat, i: nat)
    requires 1 <= n && 0 < m && Clean(x, m, n, i)
    ensures Forgotten(x, m, n, i) == 0
    decreases i
  {
    hide Sh, LowPart, HighPart, CleanPasses, Excess;
    if i > 0 {
      CleanPassesForget(FirstRemainder(HighPart(x, i - 1), m, n), m, n);
      CleanForgets(NextDigits(x, 0, m, i - 1), m, n, i - 1);
      ShMono(0, 0, i - 1);
    }
  }

  /** The result is the remainder exactly when the modulus divides all that was
      forgotten. */
  lemma ResidueRight(x: int, m: int, n: nat)
    requires 1 <= n && 0 < m
    ensures Residue(x, m, n) == x % m <==> Forgotten(x, m, n, n) % m == 0
  {
    hide Forgotten;
    var f := Forgotten(x, m, n, n);
    DivParts(f, m);
    if f % m == 0 {
      CongruentBy(x + f, x, m, f / m);
    } else if (x + f) % m == x % m {
      var j := CongruentWitness(x + f, x, m);
      DivUnique(f, m, j, 0);
    }
  }

  /** For an odd modulus a single forgotten borrow always spoils the result. */
  lemma OneBorrowSpoils(x: int, m: int, n: nat, j: nat)
    requires 1 <= n && 1 < m && m % 2 == 1 && Forgotten(x, m, n, n) == Sh(1, j)
    ensures Residue(x, m, n) != x % m
  {
    hide Forgotten, Sh, Residue;
    ResidueRight(x, m, n);
    OddDividesNoPower(m, j);
  }

  lemma {:induction false} OddDividesNoPower(m: int, j: nat)
    requires 1 < m && m % 2 == 1
    ensures Sh(1, j) % m != 0
  {
    hide Two;
    if j == 0 {
      DivUnique(1, m, 0, 1);
    } else {
      OddDividesNoPower(m, j - 1);
      if Sh(1, j) % m == 0 {
        TwoWord();
        HalvesOut(Sh(1, j - 1), m, WORD_BITS);
      }
    }
  }

  /** An odd divisor of 2^k * x divides x. */
  lemma {:induction false} HalvesOut(x: int, m: int, k: nat)
    requires 1 < m && m % 2 == 1 && (Two(k) * x) % m == 0
    ensures x % m == 0
  {
    if k > 0 {
      var y := Two(k - 1) * x;
      assert Two(k) * x == 2 * y;
      var q := 2 * y / m;
      DivParts(2 * y, m);
      assert q % 2 == 0 by { OddTimesOdd(m, q, y); }
      Regroup(m, q / 2, 2);
      DivUnique(y, m, q / 2, 0);
      HalvesOut(x, m, k - 1);
    }
  }

  lemma OddTimesOdd(m: int, q: int, y: int)
    requires m * q == 2 * y && m % 2 == 1
    ensures q % 2 == 0
  {
    var h := m / 2;
    Distribute(2 * h, 1, q);
    assert m * q == 2 * (h * q) + q;
  }
}
