/** Divide: normalise, reduce two quotient words at a time, denormalise. */
module LongDivision {
  import opened Arithmetic
  import opened Words
  import opened LowLevel
  import opened Multiply
  import opened SmallDivision
  import opened Shifts
  import opened Division

  /** The number of significant bits of a word. */
  method BitPrecision(value: word) returns (h: nat)
    ensures h <= WORD_BITS
    ensures value == 0 <==> h == 0
    ensures h > 0 ==> Two(h - 1) <= value < Two(h)
  {
    if value == 0 {
      return 0;
    }
    hide Two;
    var l := 0;
    h := 8 * 4;
    TwoWord();
    TwoZeroPw();
    while h - l > 1
      invariant 0 <= l < h <= WORD_BITS
      invariant Two(l) <= value < Two(h)
    {
      var t := (l + h) / 2;
      DivParts(value, Two(t));
      if value / Two(t) != 0 {
        AtLeastOne(value, Two(t));
        l := t;
      } else {
        h := t;
      }
    }
  }

  lemma AtLeastOne(x: int, p: int)
    requires 0 <= x && 0 < p && x / p != 0
    ensures p <= x
  {
    DivParts(x, p);
    if x / p < 0 { MulMonotone(p, x / p, -1); }
    MulMonotone(p, 1, x / p);
  }

  /** The pair estimate is low, and by less than two units of the top. */
  lemma EstimateGood(r: int, b: int, a4: int, rlow: int, btop: int, blow: int, q: int, n: nat)
    requires r == rlow + Sh(a4, n) && b == blow + Sh(btop, n)
    requires 0 <= rlow < Pw(n) && 0 <= blow < Pw(n) && 0 <= q < W * W && 0 <= btop < W * W
    requires IsQuotient(q, a4, btop + 1)
    ensures 0 <= r - q * b < Pw(n + 3)
  {
    hide Sh, Pw;
    Distribute(btop, 1, q);
    Distribute(blow, Sh(btop, n), q);
    ShMul(q, btop, n);
    ShAdd(a4, q * btop, n);
    assert r - q * b == rlow - q * blow + Sh(a4 - q * btop, n);
    ShMono(q, a4 - q * btop, n);
    ShMono(a4 - q * btop, 2 * (W * W) - 1, n);
    ShIsMul(q, n);
    MulMonotone(q, blow, Pw(n) - 1);
    Distribute(Pw(n), 1, q);
    MulMonotone(q, 0, blow);
    TwiceTop(n);
  }

  /** With the top bit of the divisor set the estimate leaves less than three
      divisors, so that at most two corrections follow. */
  lemma EstimateClose(r: int, b: int, a4: int, rlow: int, btop: int, blow: int, q: int, n: nat, q': int, rest: int)
    requires r == rlow + Sh(a4, n) && b == blow + Sh(btop, n)
    requires 0 <= rlow < Pw(n) && 0 <= blow < Pw(n) && 0 <= q < W * W && W * W <= 2 * btop
    requires IsQuotient(q, a4, btop + 1) && r == q' * b + rest && 0 <= rest
    ensures q' - q <= 2
  {
    hide Sh, Pw;
    ShIsMul(a4, n);
    ShIsMul(btop, n);
    Distribute(btop, 1, q);
    LeftOver(r, b, a4 - q * btop, rlow, btop, blow, q, Pw(n), q * btop);
    if q' - q >= 3 {
      MulMonotone(b, 3, q' - q);
      Distribute(q', q, b);
    }
  }

  lemma LeftOver(r: int, b: int, e: int, rlow: int, btop: int, blow: int, q: int, p: int, qb: int)
    requires 0 <= rlow < p && 0 <= blow && 0 <= q < W * W <= 2 * btop
    requires r == rlow + (e + qb) * p && b == blow + btop * p && qb == q * btop && e <= q + btop
    ensures r - q * b < 3 * b
  {
    Distribute(e, qb, p);
    Distribute(blow, btop * p, q);
    Regroup(q, btop, p);
    MulMonotone(q, 0, blow);
    MulMonotone(p, e + 1, 3 * btop);
    Distribute(e, 1, p);
    assert (3 * btop) * p == 3 * (btop * p);
  }

  lemma TwiceTop(n: nat)
    ensures Sh(2 * (W * W) - 1, n) + Pw(n) <= Pw(n + 3)
  {
    hide Sh, Pw;
    PwOne(n);
    ShAdd(2 * (W * W), 1, n);
    ShMono(2 * (W * W), W * W * W, n);
    PwShift(3, n);
    assert Pw(3) == W * W * W by { PwThree(); }
  }

  lemma PwThree()
    ensures Pw(3) == W * W * W
  {
    assert Sh(1, 3) == W * (W * (W * 1));
  }

  /** A smaller run has no larger top pair. */
  lemma TopPair(m: seq<word>, p: nat, q: nat, n: nat)
    requires p + n + 2 <= |m| && q + n + 2 <= |m| && V(m, p, n + 2) < V(m, q, n + 2)
    ensures V(m, p + n, 2) <= V(m, q + n, 2)
  {
    hide V, Sh, Pw;
    Split(m, p, n, 2);
    Split(m, q, n, 2);
    PwOne(n);
    var x, y := V(m, p + n, 2), V(m, q + n, 2);
    if x > y {
      ShMono(y + 1, x, n);
      ShAdd(y, 1, n);
    }
  }

  /** Four words at a by the pair {b1, b0}, into Q[2]. */
  method AtomicDivide(mem: array<word>, Q: nat, a: nat, b0: word, b1: word)
    requires Q + 2 <= mem.Length && a + 4 <= mem.Length
    requires b0 + W * b1 != 0 ==> V(mem[..], a + 2, 2) < b0 + W * b1
    modifies mem
    ensures Frame(old(mem[..]), mem[..], Q, 2)
    ensures IsQuotient(V(mem[..], Q, 2), V(old(mem[..]), a, 4), if b0 + W * b1 == 0 then W * W else b0 + W * b1)
  {
    hide V, IsQuotient;
    V2(mem[..], a + 2);
    V4(mem[..], a);
    var q0, q1 := DivideFourWordsByTwo(mem[a], mem[a + 1], mem[a + 2], mem[a + 3], b0, b1);
    mem[Q] := q0;
    mem[Q + 1] := q1;
    V2(mem[..], Q);
  }

  /** One round: the quotient pair of R[NB+2] by TB, and the remainder in R. */
  method ReduceTop(mem: array<word>, R: nat, TP: nat, Q: nat, TB: nat, NB: nat, bt0: word, bt1: word)
    returns (ghost corrections: int)
    requires 2 <= NB && NB % 2 == 0
    requires R + NB + 2 <= mem.Length && TP + NB + 2 <= mem.Length && Q + 2 <= mem.Length && TB + NB <= mem.Length
    requires Disjoint(R, NB + 2, TP, NB + 2) && Disjoint(R, NB + 2, Q, 2) && Disjoint(R, NB + 2, TB, NB)
    requires Disjoint(TP, NB + 2, Q, 2) && Disjoint(TP, NB + 2, TB, NB) && Disjoint(Q, 2, TB, NB)
    requires bt0 + W * bt1 == (V(mem[..], TB + NB - 2, 2) + 1) % (W * W)
    requires V(mem[..], R + 2, NB) < V(mem[..], TB, NB)
    modifies mem
    ensures Frame3(old(mem[..]), mem[..], R, NB + 2, TP, NB + 2, Q, 2)
    ensures mem[R + NB] == 0 && mem[R + NB + 1] == 0
    ensures V(mem[..], R, NB) < V(old(mem[..]), TB, NB)
    ensures V(old(mem[..]), R, NB + 2) == V(mem[..], Q, 2) * V(old(mem[..]), TB, NB) + V(mem[..], R, NB)
    ensures W * W <= 2 * V(old(mem[..]), TB + NB - 2, 2) ==> corrections <= 2
  {
    hide V, Sh, Pw, IsQuotient;
    ghost var m0 := mem[..];
    var n := NB - 2;
    ghost var btop := V(m0, TB + n, 2);
    V2(m0, TB + n);
    TopPair(m0, R + 2, TB, n);
    Split(m0, R, n, 4);
    Split(m0, R, 2, NB);
    Split(m0, TB, n, 2);
    V2(m0, R);
    AtomicDivide(mem, Q, R + n, bt0, bt1);
    ghost var m1 := mem[..];
    V2(m1, Q);
    SameV(m0, m1, R, NB + 2);
    SameV(m0, m1, TB, NB);
    EstimateGood(V(m0, R, NB + 2), V(m0, TB, NB), V(m0, R + n, 4), V(m0, R, n), btop, V(m0, TB, n), V(m1, Q, 2), n);
    BelowShifted(V(m0, R, 2), V(m0, R + 2, NB), V(m0, TB, NB));
    CorrectQuotientEstimate(mem, R, TP, Q, TB, NB);
    corrections := V(mem[..], Q, 2) - V(m1, Q, 2);
    if W * W <= 2 * btop {
      EstimateClose(V(m0, R, NB + 2), V(m0, TB, NB), V(m0, R + n, 4), V(m0, R, n), btop, V(m0, TB, n), V(m1, Q, 2), n,
                    V(mem[..], Q, 2), V(mem[..], R, NB));
    }
  }

  lemma BelowShifted(low: int, high: int, b: int)
    requires 0 <= low < W * W && high < b
    ensures low + Sh(high, 2) < Sh(b, 2)
  {
    hide Sh;
    ShMono(high, b - 1, 2);
    ShAdd(b, 1, 2);
    assert Sh(1, 2) == W * W by { PwTwoWords(); }
  }

  /** The dividend a is accounted for by the quotient words from j up and the
      words of TA still to be reduced, whose top NB are below the divisor. */
  ghost predicate Reduced(m: seq<word>, TA: nat, Q: nat, TB: nat, NB: nat, NQ: nat, j: nat, a: int)
    requires j <= NQ && TA + NQ + NB <= |m| && Q + NQ <= |m| && TB + NB <= |m|
  {
    && a == Sh(V(m, Q + j, NQ - j) * V(m, TB, NB), j) + V(m, TA, j + NB)
    && V(m, TA + j, NB) < V(m, TB, NB)
  }

  /** The runs Divide works on lie clear of one another. */
  ghost predicate Apart(len: nat, TA: nat, TP: nat, Q: nat, TB: nat, NB: nat, NQ: nat) {
    && TA + NQ + NB <= len && TP + NB + 2 <= len && Q + NQ <= len && TB + NB <= len
    && Disjoint(TA, NQ + NB, TP, NB + 2) && Disjoint(TA, NQ + NB, Q, NQ) && Disjoint(TA, NQ + NB, TB, NB)
    && Disjoint(TP, NB + 2, Q, NQ) && Disjoint(TP, NB + 2, TB, NB) && Disjoint(Q, NQ, TB, NB)
  }

  method ReduceStep(mem: array<word>, TA: nat, TP: nat, Q: nat, TB: nat, NB: nat, NQ: nat, j: nat,
                    bt0: word, bt1: word, ghost a: int)
    requires 2 <= NB && NB % 2 == 0 && 2 <= j <= NQ && Apart(mem.Length, TA, TP, Q, TB, NB, NQ)
    requires bt0 + W * bt1 == (V(mem[..], TB + NB - 2, 2) + 1) % (W * W)
    requires Reduced(mem[..], TA, Q, TB, NB, NQ, j, a)
    modifies mem
    ensures Frame3(old(mem[..]), mem[..], TA, NQ + NB, TP, NB + 2, Q, NQ)
    ensures mem[TA + j - 2 + NB] == 0 && mem[TA + j - 1 + NB] == 0
    ensures Reduced(mem[..], TA, Q, TB, NB, NQ, j - 2, a)
  {
    hide V, Sh, Pw, Disjoint, Reduced;
    ghost var m0 := mem[..];
    var k := j - 2;
    StepRanges(mem.Length, TA, TP, Q, TB, NB, NQ, k);
    TopBelow(m0, TA, Q, TB, NB, NQ, j, a);
    ghost var _ := ReduceTop(mem, TA + k, TP, Q + k, TB, NB, bt0, bt1);
    StepState(m0, mem[..], TA, TP, Q, TB, NB, NQ, k, a);
  }

  lemma TopBelow(m: seq<word>, TA: nat, Q: nat, TB: nat, NB: nat, NQ: nat, j: nat, a: int)
    requires j <= NQ && TA + NQ + NB <= |m| && Q + NQ <= |m| && TB + NB <= |m|
    requires Reduced(m, TA, Q, TB, NB, NQ, j, a)
    ensures V(m, TA + j, NB) < V(m, TB, NB)
  {
  }

  lemma StepState(m0: seq<word>, m1: seq<word>, TA: nat, TP: nat, Q: nat, TB: nat, NB: nat, NQ: nat, k: nat, a: int)
    requires k + 2 <= NQ && Apart(|m0|, TA, TP, Q, TB, NB, NQ)
    requires Frame3(m0, m1, TA + k, NB + 2, TP, NB + 2, Q + k, 2)
    requires Reduced(m0, TA, Q, TB, NB, NQ, k + 2, a)
    requires V(m1, TA + k, NB) < V(m0, TB, NB)
    requires V(m0, TA + k, NB + 2) == V(m1, Q + k, 2) * V(m0, TB, NB) + V(m1, TA + k, NB)
    ensures Frame3(m0, m1, TA, NQ + NB, TP, NB + 2, Q, NQ)
    ensures Reduced(m1, TA, Q, TB, NB, NQ, k, a)
  {
    hide V, Sh, Disjoint;
    StepKept(m0, m1, TA, TP, Q, TB, NB, NQ, k);
    Split(m0, TA, k, NB + 2);
    Split(m1, TA, k, NB);
    Split(m1, Q + k, 2, NQ - k - 2);
    StepMath(k, a, V(m0, Q + k + 2, NQ - k - 2), V(m0, TB, NB), V(m0, TA, k), V(m0, TA + k, NB + 2),
             V(m1, Q + k, 2), V(m1, TA + k, NB));
  }

  lemma StepRanges(len: nat, TA: nat, TP: nat, Q: nat, TB: nat, NB: nat, NQ: nat, k: nat)
    requires k + 2 <= NQ && Apart(len, TA, TP, Q, TB, NB, NQ)
    ensures Disjoint(TA + k, NB + 2, TP, NB + 2) && Disjoint(TA + k, NB + 2, Q + k, 2)
        && Disjoint(TA + k, NB + 2, TB, NB)
    ensures Disjoint(TP, NB + 2, Q + k, 2) && Disjoint(TP, NB + 2, TB, NB) && Disjoint(Q + k, 2, TB, NB)
  {
  }

  lemma StepKept(m0: seq<word>, m1: seq<word>, TA: nat, TP: nat, Q: nat, TB: nat, NB: nat, NQ: nat, k: nat)
    requires k + 2 <= NQ && Apart(|m0|, TA, TP, Q, TB, NB, NQ)
    requires Frame3(m0, m1, TA + k, NB + 2, TP, NB + 2, Q + k, 2)
    ensures Frame3(m0, m1, TA, NQ + NB, TP, NB + 2, Q, NQ)
    ensures V(m1, TB, NB) == V(m0, TB, NB) && V(m1, TA, k) == V(m0, TA, k)
    ensures V(m1, Q + k + 2, NQ - k - 2) == V(m0, Q + k + 2, NQ - k - 2)
  {
    hide V;
    SameV(m0, m1, TB, NB);
    SameV(m0, m1, TA, k);
    SameV(m0, m1, Q + k + 2, NQ - k - 2);
  }

  lemma StepMath(k: nat, a: int, qh: int, b: int, low: int, r: int, q: int, rest: int)
    requires a == Sh(qh * b, k + 2) + (low + Sh(r, k)) && r == q * b + rest
    ensures a == Sh((q + Sh(qh, 2)) * b, k) + (low + Sh(rest, k))
  {
    hide Sh;
    Distribute(q, Sh(qh, 2), b);
    ShMul(qh, b, 2);
    ShSh(qh * b, 2, k);
    ShAdd(q * b, Sh(qh * b, 2), k);
    ShAdd(q * b, rest, k);
  }

  /** The main loop: i is the index of the top quotient pair in TA. */
  method ReduceAll(mem: array<word>, TA: nat, TP: nat, Q: nat, TB: nat, NA: nat, NB: nat, NQ: nat,
                   bt0: word, bt1: word, ghost a: int)
    requires 2 <= NB <= NA <= NQ + NB && NA % 2 == 0 && NB % 2 == 0 && Apart(mem.Length, TA, TP, Q, TB, NB, NQ)
    requires bt0 + W * bt1 == (V(mem[..], TB + NB - 2, 2) + 1) % (W * W)
    requires Reduced(mem[..], TA, Q, TB, NB, NQ, NA - NB, a)
    requires 0 < NQ && (NA == NB ==> mem[TA + NB] == 0)
    modifies mem
    ensures Frame3(old(mem[..]), mem[..], TA, NQ + NB, TP, NB + 2, Q, NQ)
    ensures Reduced(mem[..], TA, Q, TB, NB, NQ, 0, a)
    ensures mem[TA + NB] == 0
  {
    hide V, Sh, Pw, Disjoint, Reduced;
    ghost var m0 := mem[..];
    var i: int := NA - 2;
    while i >= NB
      invariant NB - 2 <= i <= NA - 2 && i % 2 == 0
      invariant Frame3(m0, mem[..], TA, NQ + NB, TP, NB + 2, Q, NQ)
      invariant Reduced(mem[..], TA, Q, TB, NB, NQ, i + 2 - NB, a)
      invariant i == NB - 2 ==> mem[TA + NB] == 0
    {
      KeptDivisor(m0, mem[..], TA, TP, Q, TB, NB, NQ);
      ReduceStep(mem, TA, TP, Q, TB, NB, NQ, i + 2 - NB, bt0, bt1, a);
      i := i - 2;
    }
  }

  lemma KeptDivisor(m0: seq<word>, m1: seq<word>, TA: nat, TP: nat, Q: nat, TB: nat, NB: nat, NQ: nat)
    requires 2 <= NB && Apart(|m0|, TA, TP, Q, TB, NB, NQ)
    requires Frame3(m0, m1, TA, NQ + NB, TP, NB + 2, Q, NQ)
    ensures |m1| == |m0|
    ensures V(m1, TB + NB - 2, 2) == V(m0, TB + NB - 2, 2) && V(m1, TB, NB) == V(m0, TB, NB)
  {
    hide V;
    SameV(m0, m1, TB + NB - 2, 2);
    SameV(m0, m1, TB, NB);
  }

  /** X := A * W^sw inside n words whose outer words were cleared first. */
  method CopyShifted(mem: array<word>, X: nat, n: nat, A: nat, k: nat, sw: nat)
    requires sw <= 1 && k + sw <= n && X + n <= mem.Length && A + k <= mem.Length && Disjoint(X, n, A, k)
    requires sw == 1 ==> mem[X] == 0
    requires forall i :: X + k + sw <= i < X + n ==> mem[i] == 0
    modifies mem
    ensures Frame(old(mem[..]), mem[..], X, n)
    ensures V(mem[..], X, n) == Sh(V(old(mem[..]), A, k), sw)
    ensures k > 0 ==> mem[X + sw + k - 1] == old(mem[A + k - 1])
  {
    hide V, Sh;
    ghost var m0 := mem[..];
    CopyWords(mem, X + sw, A, k);
    ghost var m1 := mem[..];
    Split(m1, X, sw, n - sw);
    Split(m1, X + sw, k, n - sw - k);
    ZeroV(m1, X, sw);
    ZeroV(m1, X + sw + k, n - sw - k);
    ShMono(0, 0, k);
    assert k > 0 ==> m1[X + sw + k - 1] == m1[X + sw..X + sw + k][k - 1] == m0[A..A + k][k - 1];
  }

  /** A word with h bits moved up by 32 - h bits fills the word. */
  lemma Filled(x: word, h: nat)
    requires 0 < h <= WORD_BITS && Two(h - 1) <= x < Two(h)
    ensures W / 2 <= x * Two(WORD_BITS - h) && (x + 1) * Two(WORD_BITS - h) <= W
  {
    hide Two;
    TwoSplit(h);
    var q := Two(WORD_BITS - h);
    TwoNext(h - 1);
    MulMonotone(q, Two(h - 1), x);
    MulMonotone(q, x + 1, Two(h));
    assert (2 * Two(h - 1)) * q == 2 * (Two(h - 1) * q);
  }

  lemma TwoSmall(s: nat)
    requires s < WORD_BITS
    ensures 2 * Two(s) <= W
  {
    hide Two;
    TwoSplit(s + 1);
    TwoNext(s);
    MulMonotone(Two(s + 1), 1, Two(WORD_BITS - (s + 1)));
  }

  /** TB := B moved up until its top bit is set. */
  method NormalizeDivisor(mem: array<word>, TB: nat, B: nat, NB: nat) returns (shiftWords: nat, shiftBits: nat)
    requires 2 <= NB && TB + NB <= mem.Length && B + NB <= mem.Length && Disjoint(TB, NB, B, NB)
    requires mem[B + NB - 1] != 0 || mem[B + NB - 2] != 0
    modifies mem
    ensures Frame(old(mem[..]), mem[..], TB, NB)
    ensures shiftWords <= 1 && shiftBits < WORD_BITS
    ensures V(mem[..], TB, NB) == Sh(V(old(mem[..]), B, NB), shiftWords) * Two(shiftBits)
    ensures Pw(NB) <= 2 * V(mem[..], TB, NB)
  {
    hide V, Sh, Pw, Two;
    ghost var m0 := mem[..];
    shiftWords := if mem[B + NB - 1] == 0 then 1 else 0;
    mem[TB] := 0;
    mem[TB + NB - 1] := 0;
    SameV(m0, mem[..], B, NB - shiftWords);
    CopyShifted(mem, TB, NB, B, NB - shiftWords, shiftWords);
    Top(m0, B, NB - 1);
    ShMono(0, 0, NB - 1);
    ghost var m1 := mem[..];
    ghost var x := V(m1, TB, NB);
    var h := BitPrecision(mem[TB + NB - 1]);
    shiftBits := WORD_BITS - h;
    var carry := ShiftWordsLeftByBits(mem, TB, NB, shiftBits);
    Filled(m1[TB + NB - 1], h);
    TopFilled(m1, TB, NB, Two(shiftBits));
    NoCarry(V(mem[..], TB, NB), carry, NB, x * Two(shiftBits));
  }

  lemma TopFilled(m: seq<word>, p: nat, n: nat, f: int)
    requires 0 < n && p + n <= |m| && 0 < f
    requires W / 2 <= m[p + n - 1] * f && (m[p + n - 1] + 1) * f <= W
    ensures V(m, p, n) * f < Pw(n) <= 2 * (V(m, p, n) * f)
  {
    hide V, Sh, Pw;
    var x := m[p + n - 1];
    Top(m, p, n - 1);
    var low := V(m, p, n - 1);
    PwOne(n - 1);
    Distribute(low, Sh(x, n - 1), f);
    ShMul(x, f, n - 1);
    MulMonotone(f, 0, low);
    MulMonotone(f, low, Pw(n - 1) - 1);
    Distribute(Pw(n - 1), 1, f);
    ShMul(1, f, n - 1);
    Distribute(x, 1, f);
    ShAdd(x * f, f, n - 1);
    ShMono(x * f + f, W, n - 1);
    ShMono(W / 2, x * f, n - 1);
    ShW(1, n - 1);
    PwOne(n);
    ShAdd(W / 2, W / 2, n - 1);
  }

  lemma NoCarry(v: int, carry: word, n: nat, x: int)
    requires 0 <= v && v + Sh(carry, n) == x < Pw(n)
    ensures v == x
  {
    hide Sh, Pw;
    PwOne(n);
    ShMono(0, 0, n);
    if carry > 0 { ShMono(1, carry, n); }
  }

  /** TA := A moved up by the same amount, in two words more. */
  method NormalizeDividend(mem: array<word>, TA: nat, A: nat, NA: nat, shiftWords: nat, shiftBits: nat)
    requires 2 <= NA && TA + NA + 2 <= mem.Length && A + NA <= mem.Length && Disjoint(TA, NA + 2, A, NA)
    requires shiftWords <= 1 && shiftBits < WORD_BITS
    modifies mem
    ensures Frame(old(mem[..]), mem[..], TA, NA + 2)
    ensures V(mem[..], TA, NA + 2) == Sh(V(old(mem[..]), A, NA), shiftWords) * Two(shiftBits)
    ensures 2 * V(mem[..], TA, NA + 2) < Pw(NA + 2)
  {
    hide V, Sh, Pw, Two;
    ghost var m0 := mem[..];
    mem[TA] := 0;
    mem[TA + NA] := 0;
    mem[TA + NA + 1] := 0;
    SameV(m0, mem[..], A, NA);
    CopyShifted(mem, TA, NA + 2, A, NA, shiftWords);
    ghost var x := Sh(V(m0, A, NA), shiftWords);
    var carry := ShiftWordsLeftByBits(mem, TA, NA + 2, shiftBits);
    DividendFits(V(m0, A, NA), shiftWords, shiftBits, NA);
    NoCarry(V(mem[..], TA, NA + 2), carry, NA + 2, x * Two(shiftBits));
  }

  lemma DividendFits(a: int, sw: nat, sb: nat, n: nat)
    requires 0 <= a < Pw(n) && sw <= 1 && sb < WORD_BITS
    ensures 0 <= Sh(a, sw) * Two(sb) && 2 * (Sh(a, sw) * Two(sb)) < Pw(n + 2)
  {
    hide Sh, Pw, Two;
    ShOne(a);
    ShOne(Pw(n));
    PwShift(n, 1);
    ShOne(Pw(n + 1));
    PwShift(n + 1, 1);
    TwoSmall(sb);
    TimesFactor(if sw == 0 then a else W * a, Two(sb), Pw(n + 1));
  }

  lemma TimesFactor(x: int, f: int, p: int)
    requires 0 <= x < p && 0 < f && 2 * f <= W
    ensures 0 <= x * f && 2 * (x * f) < W * p
  {
    MulMonotone(f, 0, x);
    MulMonotone(x, 2 * f, W);
    assert x * (2 * f) == 2 * (x * f);
  }

  /** The digits above the first full pair: at most three. */
  method FirstDigits(mem: array<word>, TA: nat, Q: nat, TB: nat, NA: nat, NB: nat)
    requires 2 <= NB <= NA && NB % 2 == 0 && TA + NA + 2 <= mem.Length && Q + NA - NB + 2 <= mem.Length
        && TB + NB <= mem.Length
    requires Disjoint(TA, NA + 2, Q, NA - NB + 2) && Disjoint(TA, NA + 2, TB, NB) && Disjoint(Q, NA - NB + 2, TB, NB)
    requires mem[TA + NA + 1] == 0 && mem[TA + NA] <= 1
    requires Pw(NB) <= 2 * V(mem[..], TB, NB)
    modifies mem
    ensures Frame2(old(mem[..]), mem[..], TA + NA - NB, NB + 1, Q + NA - NB, 2)
    ensures mem[TA + NA] == 0
    ensures Reduced(mem[..], TA, Q, TB, NB, NA - NB + 2, NA - NB, V(old(mem[..]), TA, NA + 2))
  {
    hide V, Sh, Pw;
    ghost var m0 := mem[..];
    var j := NA - NB;
    mem[Q + j + 1] := 0;
    mem[Q + j] := 0;
    ghost var m1 := mem[..];
    SameV(m0, m1, TA + j, NB + 1);
    SameV(m0, m1, TB, NB);
    ghost var b, r := V(m0, TB, NB), V(m0, TA + j, NB + 1);
    Top(m0, TA + j, NB);
    PwOne(NB);
    ShMono(m0[TA + NA], 1, NB);
    var more := AtLeast(mem, TA + j, TB, NB);
    while more
      invariant Frame2(m0, mem[..], TA + j, NB + 1, Q + j, 2)
      invariant mem[Q + j + 1] == 0
      invariant V(mem[..], TB, NB) == b
      invariant more <==> V(mem[..], TA + j, NB + 1) >= b
      invariant r == mem[Q + j] * b + V(mem[..], TA + j, NB + 1)
      decreases V(mem[..], TA + j, NB + 1)
    {
      ghost var m2 := mem[..];
      SmallDigit(m2[Q + j], b, r, V(m2, TA + j, NB + 1), NB);
      SubtractOnce(mem, TA + j, TB, NB);
      ghost var m3 := mem[..];
      mem[Q + j] := mem[Q + j] + 1;
      SameV(m3, mem[..], TA + j, NB + 1);
      SameV(m0, mem[..], TB, NB);
      more := AtLeast(mem, TA + j, TB, NB);
    }
    RemainderTop(mem[..], TA + j, NB, b);
    SameV(m0, mem[..], TA, j);
    FirstReduced(m0, mem[..], TA, Q, TB, NA, NB, r, b);
  }

  lemma SmallDigit(d: word, b: int, r: int, rest: int, n: nat)
    requires Pw(n) <= 2 * b && 0 <= r < 2 * Pw(n) && r == d * b + rest && rest >= b
    ensures 0 < b && d + 1 < W && r == (d + 1) * b + (rest - b)
  {
    hide Pw;
    Distribute(d, 1, b);
    if d + 1 >= 4 { MulMonotone(b, 4, d + 1); }
  }

  lemma FirstReduced(m0: seq<word>, m: seq<word>, TA: nat, Q: nat, TB: nat, NA: nat, NB: nat, r: int, b: int)
    requires NB <= NA && TA + NA + 2 <= |m0| && Q + NA - NB + 2 <= |m0| && TB + NB <= |m0|
    requires |m| == |m0| && V(m, TA, NA - NB) == V(m0, TA, NA - NB)
    requires m0[TA + NA + 1] == 0 && m[Q + NA - NB + 1] == 0 && V(m, TB, NB) == b
    requires r == V(m0, TA + NA - NB, NB + 1) == m[Q + NA - NB] * b + V(m, TA + NA - NB, NB)
    requires V(m, TA + NA - NB, NB) < b
    ensures Reduced(m, TA, Q, TB, NB, NA - NB + 2, NA - NB, V(m0, TA, NA + 2))
  {
    hide V, Sh;
    var j := NA - NB;
    Top(m0, TA, NA + 1);
    ShMono(0, 0, NA + 1);
    Split(m0, TA, j, NB + 1);
    Split(m, TA, j, NB);
    V2(m, Q + j);
    assert V(m, Q + j, 2) == m[Q + j];
    ShAdd(m[Q + j] * b, V(m, TA + j, NB), j);
  }

  lemma OpenReduced(m: seq<word>, TA: nat, Q: nat, TB: nat, NB: nat, NQ: nat, a: int)
    requires TA + NQ + NB <= |m| && Q + NQ <= |m| && TB + NB <= |m|
    requires Reduced(m, TA, Q, TB, NB, NQ, 0, a)
    ensures a == V(m, Q, NQ) * V(m, TB, NB) + V(m, TA, NB) && V(m, TA, NB) < V(m, TB, NB)
  {
    hide V;
  }

  /** Without first digits, the whole dividend is still to be reduced. */
  lemma NothingReduced(m: seq<word>, TA: nat, Q: nat, TB: nat, NA: nat, NB: nat)
    requires 2 <= NB <= NA && TA + NA + 2 <= |m| && Q + NA - NB + 2 <= |m| && TB + NB <= |m|
    requires 2 * V(m, TA, NA + 2) < Pw(NA + 2) && Pw(NB) <= 2 * V(m, TB, NB)
    ensures Reduced(m, TA, Q, TB, NB, NA - NB + 2, NA - NB + 2, V(m, TA, NA + 2))
  {
    hide V, Sh, Pw;
    var NQ := NA - NB + 2;
    Split(m, TA, NQ, NB);
    PwShift(NB, NQ);
    var top := V(m, TA + NQ, NB);
    ShAdd(top, top, NQ);
    if 2 * top >= Pw(NB) { ShMono(Pw(NB), 2 * top, NQ); }
    ZeroTimes(m, Q + NQ, V(m, TB, NB), NQ);
  }

  lemma ZeroTimes(m: seq<word>, p: nat, b: int, n: nat)
    requires p <= |m|
    ensures Sh(V(m, p, 0) * b, n) == 0
  {
    ShMono(0, 0, n);
    assert V(m, p, 0) * b == 0;
  }

  /** Quotient and remainder of a normalised dividend and divisor. */
  method DivideNormalized(mem: array<word>, TA: nat, TP: nat, Q: nat, TB: nat, NA: nat, NB: nat)
    requires 2 <= NB <= NA && NA % 2 == 0 && NB % 2 == 0 && Apart(mem.Length, TA, TP, Q, TB, NB, NA - NB + 2)
    requires 2 * V(mem[..], TA, NA + 2) < Pw(NA + 2) && Pw(NB) <= 2 * V(mem[..], TB, NB)
    modifies mem
    ensures Frame3(old(mem[..]), mem[..], TA, NA + 2, TP, NB + 2, Q, NA - NB + 2)
    ensures mem[TA + NB] == 0
    ensures V(old(mem[..]), TA, NA + 2)
         == V(mem[..], Q, NA - NB + 2) * V(old(mem[..]), TB, NB) + V(mem[..], TA, NB)
    ensures V(mem[..], TA, NB) < V(old(mem[..]), TB, NB)
  {
    hide V, Sh, Pw, Reduced, Disjoint, Apart, Frame3;
    ghost var m0 := mem[..];
    ApartBounds(mem.Length, TA, TP, Q, TB, NA, NB);
    var top := StartDivision(mem, TA, TP, Q, TB, NA, NB);
    ghost var m1 := mem[..];
    KeptDivisor(m0, m1, TA, TP, Q, TB, NB, NA - NB + 2);
    var bt0, bt1 := TopPairPlusOne(mem, TB + NB - 2);
    ReduceAll(mem, TA, TP, Q, TB, top, NB, NA - NB + 2, bt0, bt1, V(m0, TA, NA + 2));
    KeptDivisor(m1, mem[..], TA, TP, Q, TB, NB, NA - NB + 2);
    ChainFrame3(m0, m1, mem[..], TA, NA + 2, TP, NB + 2, Q, NA - NB + 2);
    OpenReduced(mem[..], TA, Q, TB, NB, NA - NB + 2, V(m0, TA, NA + 2));
  }

  /** The pair at p plus one, wrapped to zero when it is all ones. */
  method TopPairPlusOne(mem: array<word>, p: nat) returns (bt0: word, bt1: word)
    requires p + 2 <= mem.Length
    ensures bt0 + W * bt1 == (V(mem[..], p, 2) + 1) % (W * W)
  {
    hide V;
    V2(mem[..], p);
    bt0 := (mem[p] + 1) % W;
    bt1 := (mem[p + 1] + (if bt0 == 0 then 1 else 0)) % W;
  }

  lemma ApartBounds(len: nat, TA: nat, TP: nat, Q: nat, TB: nat, NA: nat, NB: nat)
    requires 2 <= NB <= NA && Apart(len, TA, TP, Q, TB, NB, NA - NB + 2)
    ensures TA + NA + 2 <= len && TP + NB + 2 <= len && Q + NA - NB + 2 <= len && TB + NB <= len
  {
  }

  lemma ChainFrame3(m0: seq<word>, m1: seq<word>, m2: seq<word>, p: nat, n: nat, q: nat, k: nat, s: nat, l: nat)
    requires Frame3(m0, m1, p, n, q, k, s, l) && Frame3(m1, m2, p, n, q, k, s, l)
    ensures Frame3(m0, m2, p, n, q, k, s, l)
  {
  }

  /** The quotient words above the pairs the loop will find. */
  method StartDivision(mem: array<word>, TA: nat, TP: nat, Q: nat, TB: nat, NA: nat, NB: nat) returns (top: nat)
    requires 2 <= NB <= NA && NA % 2 == 0 && NB % 2 == 0 && Apart(mem.Length, TA, TP, Q, TB, NB, NA - NB + 2)
    requires 2 * V(mem[..], TA, NA + 2) < Pw(NA + 2) && Pw(NB) <= 2 * V(mem[..], TB, NB)
    modifies mem
    ensures Frame3(old(mem[..]), mem[..], TA, NA + 2, TP, NB + 2, Q, NA - NB + 2)
    ensures top == NA || top == NA + 2
    ensures top == NB ==> mem[TA + NB] == 0
    ensures Reduced(mem[..], TA, Q, TB, NB, NA - NB + 2, top - NB, V(old(mem[..]), TA, NA + 2))
  {
    hide V, Sh, Pw, Reduced, Disjoint;
    ApartFirst(mem.Length, TA, TP, Q, TB, NA, NB);
    if mem[TA + NA + 1] == 0 && mem[TA + NA] <= 1 {
      FirstDigits(mem, TA, Q, TB, NA, NB);
      top := NA;
    } else {
      NothingReduced(mem[..], TA, Q, TB, NA, NB);
      top := NA + 2;
    }
  }

  lemma ApartFirst(len: nat, TA: nat, TP: nat, Q: nat, TB: nat, NA: nat, NB: nat)
    requires 2 <= NB <= NA && Apart(len, TA, TP, Q, TB, NB, NA - NB + 2)
    ensures Disjoint(TA, NA + 2, Q, NA - NB + 2) && Disjoint(TA, NA + 2, TB, NB) && Disjoint(Q, NA - NB + 2, TB, NB)
  {
  }

  /** R := the remainder in TA, moved back down. */
  method Denormalize(mem: array<word>, R: nat, TA: nat, NB: nat, sw: nat, sb: nat, ghost r: int)
    requires 0 < NB && sw <= 1 && sb < WORD_BITS
    requires R + NB <= mem.Length && TA + NB + 1 <= mem.Length && Disjoint(R, NB, TA, NB + 1)
    requires mem[TA + NB] == 0 && V(mem[..], TA, NB) == Sh(r, sw) * Two(sb)
    modifies mem
    ensures Frame(old(mem[..]), mem[..], R, NB)
    ensures V(mem[..], R, NB) == r
  {
    hide V, Sh, Pw, Two;
    ghost var m0 := mem[..];
    Top(m0, TA, NB);
    ShMono(0, 0, NB);
    Low(m0, TA, NB + 1);
    ShOne(r);
    CopyWords(mem, R, TA + sw, NB);
    ghost var v := V(mem[..], R, NB);
    if sw == 1 {
      assert (W * r) * Two(sb) == W * (r * Two(sb));
      WordShifted(m0[TA], v, r * Two(sb));
    }
    var c, rem := ShiftWordsRightByBits(mem, R, NB, sb);
    DivUnique(v, Two(sb), r, 0);
    DivUnique(v, Two(sb), V(mem[..], R, NB), rem);
  }

  lemma WordShifted(x: word, v: int, y: int)
    requires x + W * v == W * y
    ensures v == y
  {
  }

  /** A = Q * B + R with R < B, for runs of NA and NB words; T[NA+2*NB+4] is
      work space. The divisor must use its last pair of words. */
  method Divide(mem: array<word>, R: nat, Q: nat, T: nat, A: nat, NA: nat, B: nat, NB: nat)
    requires 2 <= NB <= NA && NA % 2 == 0 && NB % 2 == 0
    requires R + NB <= mem.Length && Q + NA - NB + 2 <= mem.Length && T + NA + 2 * NB + 4 <= mem.Length
    requires A + NA <= mem.Length && B + NB <= mem.Length
    requires Disjoint(T, NA + 2 * NB + 4, R, NB) && Disjoint(T, NA + 2 * NB + 4, Q, NA - NB + 2)
    requires Disjoint(T, NA + 2 * NB + 4, A, NA) && Disjoint(T, NA + 2 * NB + 4, B, NB)
    requires Disjoint(R, NB, Q, NA - NB + 2)
    requires mem[B + NB - 1] != 0 || mem[B + NB - 2] != 0
    modifies mem
    ensures Frame3(old(mem[..]), mem[..], R, NB, Q, NA - NB + 2, T, NA + 2 * NB + 4)
    ensures V(old(mem[..]), A, NA) == V(mem[..], Q, NA - NB + 2) * V(old(mem[..]), B, NB) + V(mem[..], R, NB)
    ensures V(mem[..], R, NB) < V(old(mem[..]), B, NB)
  {
    hide V, Sh, Pw, Two;
    ghost var m0 := mem[..];
    var TA, TB, TP := T, T + NA + 2, T + NA + 2 + NB;
    ghost var a, b := V(m0, A, NA), V(m0, B, NB);
    var sw, sb := NormalizeDivisor(mem, TB, B, NB);
    ghost var m1 := mem[..];
    Kept(m0, m1, TB, NB, A, NA);
    NormalizeDividend(mem, TA, A, NA, sw, sb);
    ghost var m2 := mem[..];
    Kept(m1, m2, TA, NA + 2, TB, NB);
    DivideNormalized(mem, TA, TP, Q, TB, NA, NB);
    ghost var m3 := mem[..];
    ghost var q := V(m3, Q, NA - NB + 2);
    Unscale(a, b, q, V(m3, TA, NB), sw, sb);
    Denormalize(mem, R, TA, NB, sw, sb, a - q * b);
    SameV(m3, mem[..], Q, NA - NB + 2);
  }

  /** Dividing the scaled numbers divides the numbers. */
  lemma Unscale(a: int, b: int, q: int, rest: int, sw: nat, sb: nat)
    requires sw <= 1
    requires Sh(a, sw) * Two(sb) == q * (Sh(b, sw) * Two(sb)) + rest
    requires 0 <= rest < Sh(b, sw) * Two(sb)
    ensures rest == Sh(a - q * b, sw) * Two(sb) && 0 <= a - q * b < b
  {
    hide Sh, Two;
    var f := Two(sb);
    ShMul(q, b, sw);
    ShAdd(a, q * b, sw);
    assert q * (Sh(b, sw) * f) == (q * Sh(b, sw)) * f;
    Distribute(Sh(a, sw), q * Sh(b, sw), f);
    var r := a - q * b;
    ShOne(r);
    ShOne(b);
    ScaleBounds(if sw == 0 then r else W * r, if sw == 0 then b else W * b, f);
  }

  lemma ScaleBounds(r: int, b: int, f: int)
    requires 0 < f && 0 <= r * f < b * f
    ensures 0 <= r < b
  {
    if r < 0 { MulMonotone(f, r, -1); }
    if r >= b { MulMonotone(f, b, r); }
  }
}
