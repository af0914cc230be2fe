/** FastTrack's bignum: modular products and the repeated squaring. */
module BigPower {
  import opened Arithmetic
  import opened Words
  import opened LowLevel
  import opened Shifts
  import opened BigMultiply
  import opened BigPasses
  import opened BigReduce

  const BIG: nat := 64

  /** Moduli without a top word are taken to have half the words. */
  function UsedWords(mod: seq<word>): nat
    requires |mod| == BIG
  {
    if mod[63] != 0 then 64 else 32
  }

  ghost function Number(num: seq<word>, mod: seq<word>): (v: int)
    requires |num| == |mod| == BIG
    ensures v >= 0
  {
    V(num, 0, UsedWords(mod))
  }

  /** num1 := num1 * num2 mod mod where no borrow is forgotten; num1 and num2 may
      be the same words. */
  method BigMulMod(num1: array<word>, num2: array<word>, mod: array<word>) returns (done: bool)
    requires num1.Length == num2.Length == mod.Length == BIG && num1 != mod
    requires Number(num2[..], mod[..]) < Number(mod[..], mod[..])
    modifies num1
    ensures var z, m, n := old(Number(num1[..], mod[..]) * Number(num2[..], mod[..])),
                           Number(mod[..], mod[..]), UsedWords(mod[..]);
      && (done <==> Tame(m, n) || Clean(z, m, n, n))
      && (done ==> Number(num1[..], mod[..]) == Residue(z, m, n))
      && (done ==> (Clean(z, m, n, n) <==> Forgotten(z, m, n, n) == 0))
      && (Clean(z, m, n, n) ==> Number(num1[..], mod[..]) == z % m)
  {
    hide V, Sh, Clean, Tame, Residue, Forgotten;
    var lnum := new word[128];
    var len: nat := if mod[63] != 0 then 64 else 32;
    ghost var x, y, m := V(num1[..], 0, len), V(num2[..], 0, len), V(mod[..], 0, len);
    BigMul(len, lnum, num1, num2);
    assert V(mod[..], 0, len) == m;
    ProductHalf(lnum[..], len, x, y, m);
    done := BigMod(len, num1, lnum, mod);
  }

  lemma ProductHalf(a: seq<word>, n: nat, x: int, y: int, m: int)
    requires 2 * n <= |a| && 0 <= x < Pw(n) && 0 <= y < m && V(a, 0, 2 * n) == x * y
    ensures V(a, n, n) < m
  {
    hide V, Sh, Pw;
    Split(a, 0, n, n);
    MulMonotone(y, x, Pw(n));
    ShIsMul(y, n);
    if V(a, n, n) > y { ShMono(y, V(a, n, n), n); }
  }

  /** x^n. */
  function Power(x: int, n: nat): int {
    if n == 0 then 1 else Power(x, n - 1) * x
  }

  lemma {:induction false} PowerAdd(x: int, a: nat, b: nat)
    ensures Power(x, a + b) == Power(x, a) * Power(x, b)
    decreases b
  {
    if b > 0 {
      PowerAdd(x, a, b - 1);
      assert (Power(x, a) * Power(x, b - 1)) * x == Power(x, a) * (Power(x, b - 1) * x);
    }
  }

  function GetBit(num: seq<word>, i: nat): nat
    requires i < 32 * |num|
  {
    num[i / 32] / Two(i % 32) % 2
  }

  /** Reductions number 2*j onwards of i rounds meet no forgotten borrow. */
  ghost predicate CleanRun(l: int, x: int, m: int, n: nat, i: nat)
    requires 1 <= n && 0 < m
    decreases i
  {
    i == 0 || (CleanRound(l, x, m, n) && CleanRun(Reduced(l, x, m), Reduced(x, x, m), m, n, i - 1))
  }

  ghost predicate CleanRound(l: int, x: int, m: int, n: nat)
    requires 1 <= n
  {
    Clean(l * x, m, n, n) && Clean(x * x, m, n, n)
  }

  function Reduced(x: int, y: int, m: int): int
    requires 0 < m
  {
    x * y % m
  }

  /** The accumulator after i rounds on the accumulator l and the square x, with
      whatever the reductions forget. */
  ghost function RunResidue(l: int, x: int, m: int, n: nat, i: nat): int
    requires 1 <= n && 0 < m
    decreases i
  {
    if i == 0 then l else RunResidue(Residue(l * x, m, n), Residue(x * x, m, n), m, n, i - 1)
  }

  /** The number of significant bits, searched from the top. */
  method BitLength(exp: array<word>) returns (i: nat)
    requires exp.Length == BIG
    ensures i <= 2048 && V(exp[..], 0, BIG) < Two(i)
    ensures i > 0 ==> Two(i - 1) <= V(exp[..], 0, BIG)
  {
    hide V, Two;
    ghost var e := exp[..];
    i := 2048;
    PrefixWhole(e);
    while i > 0
      invariant i <= 2048 && Prefix(e, i) == V(e, 0, BIG)
    {
      PrefixBit(e, i - 1);
      if GetBit(exp[..], i - 1) != 0 {
        PrefixBelow(e, i);
        return i;
      }
      i := i - 1;
    }
    PrefixBelow(e, 0);
  }

  /** The number formed by the lowest i bits. */
  ghost function Prefix(e: seq<word>, i: nat): (v: int)
    requires i <= 32 * |e|
    decreases i
  {
    if i == 0 then 0 else Prefix(e, i - 1) + GetBit(e, i - 1) * Two(i - 1)
  }

  lemma {:induction false} PrefixBelow(e: seq<word>, i: nat)
    requires i <= 32 * |e|
    ensures 0 <= Prefix(e, i) < Two(i)
    decreases i
  {
    if i > 0 {
      PrefixBelow(e, i - 1);
      MulMonotone(Two(i - 1), GetBit(e, i - 1), 1);
      MulMonotone(Two(i - 1), 0, GetBit(e, i - 1));
    }
  }

  lemma PrefixBit(e: seq<word>, i: nat)
    requires i < 32 * |e|
    ensures if GetBit(e, i) == 0 then Prefix(e, i + 1) == Prefix(e, i) else Prefix(e, i + 1) >= Two(i)
  {
    hide Two;
    PrefixBelow(e, i);
    if GetBit(e, i) != 0 { MulMonotone(Two(i), 1, GetBit(e, i)); }
  }

  lemma PrefixWhole(e: seq<word>)
    requires |e| == BIG
    ensures Prefix(e, 2048) == V(e, 0, BIG)
  {
    PrefixWords(e, BIG);
  }

  lemma {:induction false} PrefixWords(e: seq<word>, n: nat)
    requires n <= |e|
    ensures Prefix(e, 32 * n) == V(e, 0, n)
  {
    hide V, Two;
    Empty(e, 0);
    if n > 0 {
      PrefixWords(e, n - 1);
      PrefixInWord(e, n - 1, 32);
      Top(e, 0, n - 1);
      TwoPw(n - 1);
      ShIsMul(e[n - 1], n - 1);
      TwoWord();
      DivUnique(e[n - 1], W, 0, e[n - 1]);
    }
  }

  /** The lowest k bits of word p, above everything below it. */
  lemma {:induction false} PrefixInWord(e: seq<word>, p: nat, k: nat)
    requires p < |e| && k <= 32
    ensures Prefix(e, 32 * p + k) == Prefix(e, 32 * p) + (e[p] % Two(k)) * Two(32 * p)
    decreases k
  {
    hide Two, Prefix;
    if k == 0 {
      NoBits(e[p], Two(32 * p));
    } else {
      PrefixInWord(e, p, k - 1);
      var i := 32 * p + (k - 1);
      PrefixStep(e, p, k - 1);
      NextBit(e[p], k - 1);
      Distribute(e[p] % Two(k - 1), (e[p] / Two(k - 1) % 2) * Two(k - 1), Two(32 * p));
    }
  }

  lemma NoBits(x: nat, w: int)
    ensures x % Two(0) * w == 0
  {
    assert Two(0) == 1 && x % 1 == 0;
  }

  lemma PrefixStep(e: seq<word>, p: nat, k: nat)
    requires p < |e| && k < 32
    ensures Prefix(e, 32 * p + (k + 1)) == Prefix(e, 32 * p + k) + (e[p] / Two(k) % 2) * Two(k) * Two(32 * p)
  {
    hide Two;
    var i := 32 * p + k;
    assert i / 32 == p && i % 32 == k;
    TwoAdd(k, 32 * p);
    var b := GetBit(e, i);
    Regroup(b, Two(k), Two(32 * p));
  }

  lemma NextBit(x: nat, k: nat)
    ensures x % Two(k + 1) == x % Two(k) + (x / Two(k) % 2) * Two(k)
  {
    var t: int := Two(k);
    assert Two(k + 1) == 2 * t;
    hide Two;
    DivParts(x, t);
    DivParts(x / t, 2);
    var q, b := x / t / 2, x / t % 2;
    assert t * (x / t) == (2 * t) * q + b * t;
    MulMonotone(t, 0, b);
    MulMonotone(t, b, 1);
    DivUnique(x, 2 * t, q, x % t + b * t);
  }

  /** num := num^(2^i - 1) mod mod where no borrow is forgotten, i being the bit
      length of the exponent: the bits themselves are never looked at. */
  method BigExpMod(num: array<word>, exp: array<word>, mod: array<word>) returns (done: bool, ghost i: nat)
    requires num.Length == exp.Length == mod.Length == BIG && num != mod && num != exp
    requires Number(num[..], mod[..]) < Number(mod[..], mod[..])
    modifies num
    ensures V(exp[..], 0, BIG) < Two(i) && (i > 0 ==> Two(i - 1) <= V(exp[..], 0, BIG))
    ensures var x, m, n := old(Number(num[..], mod[..])), Number(mod[..], mod[..]), UsedWords(mod[..]);
      && (done <==> Tame(m, n) || CleanRun(1, x, m, n, i))
      && (done ==> Number(num[..], mod[..]) == RunResidue(1, x, m, n, i))
      && (CleanRun(1, x, m, n, i) && 1 < m ==> Number(num[..], mod[..]) == Power(x, Two(i) - 1) % m)
  {
    hide V, Two, CleanRun, CleanRound, RunResidue, Residue, Number, Power, Tame;
    ghost var x, m, n := Number(num[..], mod[..]), Number(mod[..], mod[..]), UsedWords(mod[..]);
    ghost var e, mods := exp[..], mod[..];
    var bits := BitLength(exp);
    i := bits;
    var lnum := new word[BIG](k => 0);
    lnum[0] := 1;
    OneNumber(lnum[..], mod[..]);
    var j: nat := 0;
    while j < bits
      invariant j <= bits && exp[..] == e && mod[..] == mods
      invariant Number(num[..], mod[..]) < m
      invariant RunResidue(1, x, m, n, bits)
             == RunResidue(Number(lnum[..], mod[..]), Number(num[..], mod[..]), m, n, bits - j)
      invariant Tame(m, n) || (CleanRun(1, x, m, n, bits)
                <==> CleanRun(Number(lnum[..], mod[..]), Number(num[..], mod[..]), m, n, bits - j))
    {
      var ok := Round(lnum, num, mod, bits - j);
      if !ok {
        return false, i;
      }
      j := j + 1;
    }
    RunEnd(Number(lnum[..], mod[..]), Number(num[..], mod[..]), m, n);
    if m > 1 && CleanRun(1, x, m, n, bits) {
      WholeRun(x, m, n, bits);
    }
    ghost var ls := lnum[..];
    forall k | 0 <= k < BIG {
      num[k] := lnum[k];
    }
    assert num[..] == ls && exp[..] == e && mod[..] == mods;
    return true, i;
  }

  /** lnum := lnum * num, then num := num * num. */
  method Round(lnum: array<word>, num: array<word>, mod: array<word>, ghost left: nat) returns (ok: bool)
    requires num.Length == lnum.Length == mod.Length == BIG && num != mod && num != lnum && lnum != mod && 0 < left
    requires Number(num[..], mod[..]) < Number(mod[..], mod[..])
    modifies lnum, num
    ensures var l, x := old(Number(lnum[..], mod[..])), old(Number(num[..], mod[..]));
      var m, n := Number(mod[..], mod[..]), UsedWords(mod[..]);
      && (ok <==> Tame(m, n) || CleanRound(l, x, m, n))
      && (ok ==> Number(lnum[..], mod[..]) == Residue(l * x, m, n) && Number(num[..], mod[..]) == Residue(x * x, m, n))
      && (ok ==> RunResidue(l, x, m, n, left)
                 == RunResidue(Number(lnum[..], mod[..]), Number(num[..], mod[..]), m, n, left - 1))
      && (!Tame(m, n) ==> (CleanRun(l, x, m, n, left)
             <==> ok && CleanRun(Number(lnum[..], mod[..]), Number(num[..], mod[..]), m, n, left - 1)))
  {
    hide V, Clean, CleanRun, RunResidue, Number, Tame, Residue, Forgotten;
    ghost var l, x, m, n := Number(lnum[..], mod[..]), Number(num[..], mod[..]), Number(mod[..], mod[..]),
      UsedWords(mod[..]);
    RunStep(l, x, m, n, left);
    ok := BigMulMod(lnum, num, mod);
    if ok {
      ok := BigMulMod(num, num, mod);
    }
  }

  /** A clean run is the repeated squaring of the remainders. */
  lemma {:induction false} CleanRunPower(x: int, m: int, n: nat, j: nat, i: nat)
    requires 1 <= n && 1 < m
    requires CleanRun(Accumulated(x, m, j), Power(x, Two(j)) % m, m, n, i)
    ensures RunResidue(Accumulated(x, m, j), Power(x, Two(j)) % m, m, n, i) == Power(x, Two(j + i) - 1) % m
    decreases i
  {
    hide Clean, Two, Power, Accumulated, Residue;
    var l, y := Accumulated(x, m, j), Power(x, Two(j)) % m;
    if i == 0 {
      Finished(x, m, j);
    } else {
      RunStep(l, y, m, n, i);
      CleanResidue(l * y, m, n);
      CleanResidue(y * y, m, n);
      RoundPowers(x, l, y, m, j);
      CleanRunPower(x, m, n, j + 1, i - 1);
    }
  }

  lemma WholeRun(x: int, m: int, n: nat, i: nat)
    requires 1 <= n && 0 <= x < m && 1 < m && CleanRun(1, x, m, n, i)
    ensures RunResidue(1, x, m, n, i) == Power(x, Two(i) - 1) % m
  {
    hide Clean, CleanRun, RunResidue, Two, Power;
    PowerStart(x, m);
    CleanRunPower(x, m, n, 0, i);
  }

  lemma CleanResidue(z: int, m: int, n: nat)
    requires 1 <= n && 0 < m && Clean(z, m, n, n)
    ensures Residue(z, m, n) == z % m
  {
    hide Clean, Forgotten;
    CleanForgets(z, m, n, n);
  }

  /** The accumulator after j rounds. */
  ghost function Accumulated(x: int, m: int, j: nat): int
    requires 0 < m
  {
    if j == 0 then 1 else Power(x, Two(j) - 1) % m
  }

  lemma Finished(x: int, m: int, j: nat)
    requires 1 < m
    ensures Accumulated(x, m, j) == Power(x, Two(j) - 1) % m
  {
    if j == 0 {
      assert Two(0) == 1 && Power(x, 0) == 1;
      DivUnique(1, m, 0, 1);
    }
  }

  lemma RunEnd(l: int, x: int, m: int, n: nat)
    requires 1 <= n && 0 < m
    ensures CleanRun(l, x, m, n, 0) && RunResidue(l, x, m, n, 0) == l
  {
  }

  lemma RunStep(l: int, x: int, m: int, n: nat, i: nat)
    requires 1 <= n && 0 < m && 0 < i
    ensures CleanRun(l, x, m, n, i)
       <==> CleanRound(l, x, m, n) && CleanRun(Reduced(l, x, m), Reduced(x, x, m), m, n, i - 1)
    ensures CleanRound(l, x, m, n) <==> Clean(l * x, m, n, n) && Clean(x * x, m, n, n)
    ensures RunResidue(l, x, m, n, i) == RunResidue(Residue(l * x, m, n), Residue(x * x, m, n), m, n, i - 1)
    ensures Reduced(l, x, m) == l * x % m && Reduced(x, x, m) == x * x % m
  {
    hide Clean, Residue;
  }

  lemma OneNumber(l: seq<word>, mod: seq<word>)
    requires |l| == |mod| == BIG && l[0] == 1 && forall k :: 1 <= k < BIG ==> l[k] == 0
    ensures Number(l, mod) == 1
  {
    ZeroV(l, 1, UsedWords(mod) - 1);
  }

  lemma PowerStart(x: int, m: int)
    requires 0 <= x < m
    ensures Power(x, Two(0)) % m == x
  {
    assert Two(0) == 1 && Power(x, 1) == Power(x, 0) * x == x;
    DivUnique(x, m, 0, x);
  }

  /** One round takes 2^j - 1 and 2^j to the next such pair. */
  lemma RoundPowers(x: int, l: int, y: int, m: int, j: nat)
    requires 0 < m && y == Power(x, Two(j)) % m
    requires l == Accumulated(x, m, j)
    ensures y < m
    ensures Reduced(l, y, m) == Accumulated(x, m, j + 1)
    ensures Reduced(y, y, m) == Power(x, Two(j + 1)) % m
  {
    hide Power, Congruent;
    TwoNext(j);
    var t := Power(x, Two(j));
    ReducedCongruent(t, m);
    CongruentProduct(y, t, y, t, m);
    PowerAdd(x, Two(j), Two(j));
    CongruentMod(y * y, t * t, m);
    if j == 0 {
      TwoZeroPw();
      CongruentMod(y, t, m);
    } else {
      var s := Power(x, Two(j) - 1);
      ReducedCongruent(s, m);
      CongruentProduct(l, s, y, t, m);
      PowerAdd(x, Two(j) - 1, Two(j));
      CongruentMod(l * y, s * t, m);
    }
  }
}
