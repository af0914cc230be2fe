/** Multi-precision numbers as runs of words in one flat memory.

    The library passes bare pointers into shared work space, so every operand
    here is an offset into a single `array<word>`: aliasing and overlap are the
    caller's business, exactly as they are in the original. The value of a run
    is its base-`W` numeral, least significant word first.

    Multiplication by W^n is written `Sh(x, n)` and defined by repeated
    multiplication with the literal W, so that carry arguments stay linear for
    the solver; `ShIsMul` says what it is. */
module Words {
  import opened Arithmetic

  const WORD_BITS: nat := 32
  const W: int := 0x1_0000_0000

  type word = x: int | 0 <= x < W

  /** x * W^n: x moved up by n words. */
  function Sh(x: int, n: nat): (r: int)
    decreases n
  {
    if n == 0 then x else W * Sh(x, n - 1)
  }

  /** W^n. */
  function Pw(n: nat): (r: int)
    ensures r > 0
  {
    ShMono(0, 1, n);
    Sh(1, n)
  }

  lemma {:induction false} ShMono(x: int, y: int, n: nat)
    requires x <= y
    ensures Sh(x, n) <= Sh(y, n)
    ensures x < y ==> Sh(x, n) < Sh(y, n)
    ensures Sh(0, n) == 0
    decreases n
  {
    if n > 0 { ShMono(x, y, n - 1); }
  }

  lemma {:induction false} ShAdd(x: int, y: int, n: nat)
    ensures Sh(x + y, n) == Sh(x, n) + Sh(y, n)
    ensures Sh(x - y, n) == Sh(x, n) - Sh(y, n)
    decreases n
  {
    if n > 0 { ShAdd(x, y, n - 1); }
  }

  lemma {:induction false} ShSh(x: int, a: nat, b: nat)
    ensures Sh(Sh(x, a), b) == Sh(x, a + b)
    decreases b
  {
    if b > 0 { ShSh(x, a, b - 1); }
  }

  lemma {:induction false} ShMul(x: int, y: int, n: nat)
    ensures Sh(x, n) * y == Sh(x * y, n) == x * Sh(y, n)
    decreases n
  {
    if n > 0 {
      ShMul(x, y, n - 1);
      var sx, sy := Sh(x, n - 1), Sh(y, n - 1);
      assert (W * sx) * y == W * (sx * y);
      assert x * (W * sy) == W * (x * sy);
    }
  }

  lemma ShIsMul(x: int, n: nat)
    ensures Sh(x, n) == x * Pw(n)
  {
    ShMul(x, 1, n);
  }

  lemma PwOne(n: nat)
    ensures Sh(1, n) == Pw(n)
  {
  }

  lemma PwWord()
    ensures Pw(1) == W
  {
    assert Sh(1, 1) == W * Sh(1, 0);
  }

  lemma ShOne(x: int)
    ensures Sh(x, 0) == x && Sh(x, 1) == W * x
  {
    assert Sh(x, 1) == W * Sh(x, 0);
  }

  lemma PwTwoWords()
    ensures Pw(2) == Sh(1, 2) == W * W
  {
    assert Sh(1, 2) == W * (W * 1);
  }

  lemma PwShift(a: nat, b: nat)
    ensures Pw(a + b) == Sh(Pw(a), b)
  {
    ShSh(1, a, b);
  }

  lemma PwAdd(a: nat, b: nat)
    ensures Pw(a + b) == Pw(a) * Pw(b) == Sh(Pw(a), b)
  {
    ShSh(1, a, b);
    ShIsMul(Pw(a), b);
  }

  /** The number stored in the n words of m that start at p. */
  ghost function V(m: seq<word>, p: nat, n: nat): (v: int)
    requires p + n <= |m|
    ensures 0 <= v < Pw(n)
    decreases n
  {
    if n == 0 then 0 else m[p] + W * V(m, p + 1, n - 1)
  }

  ghost predicate Disjoint(p: nat, n: nat, q: nat, k: nat) {
    p + n <= q || q + k <= p
  }

  /** m' is m except possibly in the n words at p. */
  ghost predicate Frame(m: seq<word>, m': seq<word>, p: nat, n: nat) {
    |m'| == |m| && forall i :: 0 <= i < |m| && !(p <= i < p + n) ==> m'[i] == m[i]
  }

  /** m' is m except possibly in the n words at p and the k words at q. */
  ghost predicate Frame2(m: seq<word>, m': seq<word>, p: nat, n: nat, q: nat, k: nat) {
    |m'| == |m| && forall i :: 0 <= i < |m| && !(p <= i < p + n) && !(q <= i < q + k) ==> m'[i] == m[i]
  }

  /** A run copied elsewhere keeps its value. */
  lemma {:induction false} MovedV(m: seq<word>, p: nat, m': seq<word>, q: nat, n: nat)
    requires p + n <= |m| && q + n <= |m'|
    requires m'[q..q + n] == m[p..p + n]
    ensures V(m', q, n) == V(m, p, n)
    decreases n
  {
    if n > 0 {
      assert m[p] == m[p..p + n][0] && m'[q] == m'[q..q + n][0];
      assert m'[q + 1..q + n] == m'[q..q + n][1..] && m[p + 1..p + n] == m[p..p + n][1..];
      MovedV(m, p + 1, m', q + 1, n - 1);
    }
  }

  lemma SameV(m: seq<word>, m': seq<word>, p: nat, n: nat)
    requires p + n <= |m| && p + n <= |m'|
    requires forall i :: p <= i < p + n ==> m'[i] == m[i]
    ensures V(m', p, n) == V(m, p, n)
  {
    MovedV(m, p, m', p, n);
  }

  lemma Kept(m: seq<word>, m': seq<word>, p: nat, n: nat, q: nat, k: nat)
    requires Frame(m, m', p, n) && Disjoint(p, n, q, k) && q + k <= |m|
    ensures V(m', q, k) == V(m, q, k)
  {
    SameV(m, m', q, k);
  }

  lemma Kept2(m: seq<word>, m': seq<word>, p: nat, n: nat, p2: nat, n2: nat, q: nat, k: nat)
    requires Frame2(m, m', p, n, p2, n2) && q + k <= |m|
    requires Disjoint(p, n, q, k) && Disjoint(p2, n2, q, k)
    ensures V(m', q, k) == V(m, q, k)
  {
    SameV(m, m', q, k);
  }

  /** A run cut in two: the high part weighs W^a. */
  lemma {:induction false} Split(m: seq<word>, p: nat, a: nat, b: nat)
    requires p + a + b <= |m|
    ensures V(m, p, a + b) == V(m, p, a) + Sh(V(m, p + a, b), a)
    decreases a
  {
    if a > 0 {
      Split(m, p + 1, a - 1, b);
    }
  }

  /** The top word of a run weighs W^n. */
  lemma Top(m: seq<word>, p: nat, n: nat)
    requires p + n < |m|
    ensures V(m, p, n + 1) == V(m, p, n) + Sh(m[p + n], n)
  {
    Split(m, p, n, 1);
    V1(m, p + n);
  }

  lemma V1(m: seq<word>, p: nat)
    requires p + 1 <= |m|
    ensures V(m, p, 1) == m[p] && Pw(1) == W
  {
    assert V(m, p + 1, 0) == 0 && Sh(1, 0) == 1;
  }

  lemma V2(m: seq<word>, p: nat)
    requires p + 2 <= |m|
    ensures V(m, p, 2) == m[p] + W * m[p + 1] && Pw(2) == W * W
  {
    V1(m, p + 1);
  }

  /** A run is zero exactly when all its words are. */
  lemma {:induction false} ZeroV(m: seq<word>, p: nat, n: nat)
    requires p + n <= |m|
    ensures V(m, p, n) == 0 <==> forall i :: p <= i < p + n ==> m[i] == 0
    decreases n
  {
    if n > 0 {
      ZeroV(m, p + 1, n - 1);
      assert V(m, p, n) == 0 <==> m[p] == 0 && V(m, p + 1, n - 1) == 0;
    }
  }

  /** x mod W^n. */
  ghost function LowPart(x: int, n: nat): int {
    x % Pw(n)
  }

  /** The floor of x / W^n. */
  ghost function HighPart(x: int, n: nat): int {
    x / Pw(n)
  }

  lemma Parts(x: int, n: nat)
    ensures x == LowPart(x, n) + Sh(HighPart(x, n), n)
    ensures 0 <= LowPart(x, n) < Pw(n)
  {
    hide Sh, Pw;
    DivParts(x, Pw(n));
    ShIsMul(x / Pw(n), n);
  }

  lemma PartsUnique(x: int, n: nat, low: int, high: int)
    requires x == low + Sh(high, n) && 0 <= low < Pw(n)
    ensures LowPart(x, n) == low && HighPart(x, n) == high
  {
    hide Sh, Pw;
    ShIsMul(high, n);
    DivUnique(x, Pw(n), high, low);
  }

  lemma {:induction false} PwGrows(n: nat, k: nat)
    requires n <= k
    ensures Pw(n) <= Pw(k)
  {
    ShSh(1, n, k - n);
    ShAtLeast(Pw(n), k - n);
  }

  lemma {:induction false} ShAtLeast(x: int, n: nat)
    requires 0 <= x
    ensures x <= Sh(x, n)
  {
    if n > 0 { ShAtLeast(x, n - 1); }
  }
}
