/** Divisions of three and of four words by two. */
module SmallDivision {
  import opened Arithmetic
  import opened Words
  import opened Multiply

  /** a0 + a1*W + a2*W^2 */
  function Three(a0: int, a1: int, a2: int): int {
    a0 + W * a1 + W * W * a2
  }

  /** The first quotient digit guess: the two top words by the top divisor word
      plus one, which cannot exceed the true digit. */
  function Estimate(a1: word, a2: word, b1: word): int {
    if (b1 + 1) % W == 0 then a2 else (a1 + W * a2) / (b1 + 1)
  }

  lemma EstimateLow(a1: word, a2: word, b0: word, b1: word)
    requires a1 + W * a2 < b0 + W * b1
    ensures 0 <= Estimate(a1, a2, b1) < W
    ensures Estimate(a1, a2, b1) * (b1 + 1) <= a1 + W * a2
  {
    var q := Estimate(a1, a2, b1);
    if (b1 + 1) % W != 0 {
      DivParts(a1 + W * a2, b1 + 1);
      assert a2 <= b1;
      if q >= W { MulMonotone(b1 + 1, W, q); }
      if q < 0 { MulMonotone(b1 + 1, q, -1); }
    } else {
      assert b1 + 1 == W;
    }
  }

  lemma ProductOfDigit(q: int, b0: int, b1: int)
    ensures q * (b0 + W * b1) == q * b0 + W * (q * b1)
  {
    Distribute(b0, W * b1, q);
    assert q * (W * b1) == W * (q * b1);
  }

  /** q * B <= A for the guess q. */
  lemma EstimateBelow(a0: word, a1: word, a2: word, b0: word, b1: word, q: int)
    requires 0 <= q && q * (b1 + 1) <= a1 + W * a2
    ensures q * (b0 + W * b1) <= Three(a0, a1, a2)
  {
    ProductOfDigit(q, b0, b1);
    Distribute(b1, 1, q);
    MulMonotone(q, b0, W);
    assert q * W == W * q;
  }

  /** A := A - q * B over three words, in wrapped double-word steps. */
  method SubtractProduct(a0: word, a1: word, a2: word, b0: word, b1: word, q: word)
    returns (r0: word, r1: word, r2: word)
    requires q * (b0 + W * b1) <= Three(a0, a1, a2)
    ensures Three(r0, r1, r2) == Three(a0, a1, a2) - q * (b0 + W * b1)
  {
    var p := (b0 as int) * q;
    MulWords(b0, q);
    MulWords(b1, q);
    var u := (a0 - p % W) % (W * W);
    HalfBorrow(a0 - p % W);
    r0 := u % W;
    var borrow := (W - u / W) % W;
    var v := a1 - p / W - borrow - (b1 as int) * q;
    WordOfWrapped(v, v / W);
    r1 := (v % (W * W)) % W;
    r2 := (a2 + (v % (W * W)) / W) % W;
    ProductOfDigit(q, b0, b1);
    WrappedDifference(a0, a1, a2, p, (b1 as int) * q, borrow, v, r0, r1, r2);
  }

  lemma WrappedDifference(a0: word, a1: word, a2: word, p: int, pq: int, borrow: int, v: int, r0: word, r1: word,
      r2: word)
    requires 0 <= p && 0 <= pq && p + W * pq <= Three(a0, a1, a2)
    requires r0 == (a0 - p % W) % W && borrow == (if a0 < p % W then 1 else 0)
    requires v == a1 - p / W - borrow - pq
    requires r1 == v % W && r2 == (a2 + (v % (W * W)) / W) % W
    ensures Three(r0, r1, r2) == Three(a0, a1, a2) - p - W * pq
  {
    assert r0 == a0 - p % W + W * borrow;
    var total := Three(a0, a1, a2) - p - W * pq;
    assert total == r0 + W * (v + W * a2);
    HighWords(v, a2, r1, r2, total, r0);
  }

  lemma HighWords(v: int, a2: word, r1: word, r2: word, total: int, r0: word)
    requires total == r0 + W * (v + W * a2) && 0 <= total < W * W * W
    requires r1 == v % W && r2 == (a2 + (v % (W * W)) / W) % W
    ensures total == Three(r0, r1, r2)
  {
    var h := v / W;
    assert v == r1 + W * h;
    assert 0 <= v + W * a2 < W * W;
    assert 0 <= h + a2 < W;
    WordOfWrapped(v, h);
    assert (a2 + h % W) % W == (a2 + h) % W;
  }

  lemma WordOfWrapped(v: int, h: int)
    requires h == v / W
    ensures (v % (W * W)) / W == h % W && (v % (W * W)) % W == v % W
    ensures 0 <= v % (W * W) < W * W
  {
  }

  /** The borrow of a low-word difference, as its negated high half. */
  lemma HalfBorrow(x: int)
    requires -W < x < W
    ensures var u := x % (W * W);
      0 <= u < W * W && u % W == x % W && (W - u / W) % W == if x < 0 then 1 else 0
  {
  }

  /** Three words by two: the quotient fits in a word when {A2,A1} < {B1,B0}.
      The two remainder words replace A; the top word ends as zero. */
  method DivideThreeWordsByTwo(a0: word, a1: word, a2: word, b0: word, b1: word)
    returns (Q: word, r0: word, r1: word)
    requires a1 + W * a2 < b0 + W * b1
    ensures Three(a0, a1, a2) == Q * (b0 + W * b1) + r0 + W * r1
    ensures r0 + W * r1 < b0 + W * b1
  {
    hide Three, Estimate;
    ghost var B := b0 + W * b1;
    ghost var A := Three(a0, a1, a2);
    EstimateLow(a1, a2, b0, b1);
    Q := Estimate(a1, a2, b1);
    EstimateBelow(a0, a1, a2, b0, b1, Q);
    var r2;
    r0, r1, r2 := SubtractProduct(a0, a1, a2, b0, b1, Q);
    while r2 != 0 || r1 > b1 || (r1 == b1 && r0 >= b0)
      invariant A == Q * B + Three(r0, r1, r2)
      decreases Three(r0, r1, r2)
    {
      AtLeastDivisor(r0, r1, r2, b0, b1);
      NextDigit(A, a0, a1, a2, Q, B, Three(r0, r1, r2));
      OneTimes(b0 + W * b1);
      r0, r1, r2 := SubtractProduct(r0, r1, r2, b0, b1, 1);
      Q := Q + 1;
    }
    TopZero(r0, r1);
  }

  lemma OneTimes(x: int)
    ensures 1 * x == x
  {
  }

  lemma TopZero(r0: word, r1: word)
    ensures Three(r0, r1, 0) == r0 + W * r1
  {
  }

  lemma AtLeastDivisor(r0: word, r1: word, r2: word, b0: word, b1: word)
    requires r2 != 0 || r1 > b1 || (r1 == b1 && r0 >= b0)
    ensures Three(r0, r1, r2) >= b0 + W * b1
  {
  }

  /** Another subtraction keeps the digit within a word. */
  lemma NextDigit(A: int, a0: word, a1: word, a2: word, q: word, B: int, r: int)
    requires A == Three(a0, a1, a2) && a1 + W * a2 < B && A == q * B + r && r >= B
    ensures q + 1 < W && A == (q + 1) * B + (r - B)
  {
    Distribute(q, 1, B);
    assert A < W * B;
    if q + 1 >= W { MulMonotone(B, W, q + 1); }
  }

  /** Four words by two; a zero divisor stands for W^2. */
  method DivideFourWordsByTwo(t0: word, t1: word, t2: word, t3: word, b0: word, b1: word)
    returns (q0: word, q1: word)
    requires b0 + W * b1 != 0 ==> t2 + W * t3 < b0 + W * b1
    ensures IsQuotient(q0 + W * q1, t0 + W * t1 + W * W * (t2 + W * t3),
                       if b0 + W * b1 == 0 then W * W else b0 + W * b1)
  {
    if b0 + W * b1 == 0 {
      return t2, t3;
    }
    var r1, r2, s0, s1;
    q1, r1, r2 := DivideThreeWordsByTwo(t1, t2, t3, b0, b1);
    q0, s0, s1 := DivideThreeWordsByTwo(t0, r1, r2, b0, b1);
    ghost var B := b0 + W * b1;
    Distribute(q0, W * q1, B);
    assert (W * q1) * B == W * (q1 * B);
  }

  ghost predicate IsQuotient(q: int, x: int, b: int) {
    q * b <= x < q * b + b
  }
}
