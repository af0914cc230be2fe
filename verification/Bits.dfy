/** Values as runs of bits, most significant first. */
module Bits {
  import opened Arithmetic
  import opened Shifts

  /** The n lowest bits of x. */
  ghost function BitsOf(x: int, n: nat): (b: seq<bool>)
    ensures |b| == n
    decreases n
  {
    if n == 0 then [] else BitsOf(x / 2, n - 1) + [x % 2 == 1]
  }

  /** x holds its bits: fewer than n bits determine it. */
  lemma {:induction false} SameBits(x: int, y: int, n: nat)
    requires 0 <= x < Two(n) && 0 <= y < Two(n) && BitsOf(x, n) == BitsOf(y, n)
    ensures x == y
    decreases n
  {
    if n > 0 {
      var a, b := BitsOf(x, n), BitsOf(y, n);
      assert a[..n - 1] == BitsOf(x / 2, n - 1) && b[..n - 1] == BitsOf(y / 2, n - 1);
      assert a[n - 1] == b[n - 1];
      SameBits(x / 2, y / 2, n - 1);
    }
  }

  /** High bits, then low bits. */
  lemma {:induction false} BitsJoin(x: int, y: int, a: nat, b: nat)
    requires 0 <= y < Two(b)
    ensures BitsOf(x * Two(b) + y, a + b) == BitsOf(x, a) + BitsOf(y, b)
    decreases b
  {
    if b == 0 {
      assert x * Two(b) + y == x;
      assert BitsOf(x, a) + BitsOf(y, b) == BitsOf(x, a);
    } else {
      BitsJoin(x, y / 2, a, b - 1);
      var t: int := Two(b - 1);
      assert x * Two(b) + y == 2 * (x * t + y / 2) + y % 2 by {
        assert Two(b) == 2 * t;
        assert x * (2 * t) == 2 * (x * t);
      }
      DivUnique(x * Two(b) + y, 2, x * t + y / 2, y % 2);
      assert BitsOf(x, a) + (BitsOf(y / 2, b - 1) + [y % 2 == 1])
          == (BitsOf(x, a) + BitsOf(y / 2, b - 1)) + [y % 2 == 1];
    }
  }

  ghost function Zeros(n: nat): (b: seq<bool>)
    ensures |b| == n
  {
    seq(n, k => false)
  }

  lemma {:induction false} ZeroBits(n: nat)
    ensures BitsOf(0, n) == Zeros(n)
  {
    if n > 0 {
      ZeroBits(n - 1);
      assert Zeros(n) == Zeros(n - 1) + [false];
    }
  }

  ghost predicate Below(values: seq<int>, n: nat) {
    forall k :: 0 <= k < |values| ==> 0 <= values[k] < Two(n)
  }

  /** The bits of values of n bits each, one after the other. */
  ghost function Stream(values: seq<int>, n: nat): (b: seq<bool>)
    ensures |b| == |values| * n
  {
    if values == [] then [] else
      Distribute(|values| - 1, 1, n);
      Stream(values[..|values| - 1], n) + BitsOf(values[|values| - 1], n)
  }

  /** Bit i of n bits, the most significant being bit 0. */
  lemma {:induction false} BitAt(x: int, n: nat, i: nat)
    requires 0 <= x && i < n
    ensures BitsOf(x, n)[i] <==> x / Two(n - 1 - i) % 2 == 1
    decreases n
  {
    if i < n - 1 {
      BitAt(x / 2, n - 1, i);
      var t: int := Two(n - 2 - i);
      DivTwice(x, t);
      assert Two(n - 1 - i) == 2 * t;
    } else {
      assert Two(0) == 1 && x / 1 == x;
    }
  }

  lemma DivTwice(x: int, t: int)
    requires 0 <= x && 0 < t
    ensures x / 2 / t == x / (2 * t)
  {
    DivParts(x, 2);
    DivParts(x / 2, t);
    var q := x / 2 / t;
    assert 2 * (t * q) == (2 * t) * q;
    DivUnique(x, 2 * t, q, 2 * (x / 2 % t) + x % 2);
  }

  /** Bit i of a stream is bit i % n, from the top, of value i / n. */
  lemma {:induction false} StreamAt(values: seq<int>, n: nat, i: nat)
    requires 1 <= n && Below(values, n) && i < |values| * n
    ensures 0 <= i / n < |values|
    ensures Stream(values, n)[i] <==> values[i / n] / Two(n - 1 - i % n) % 2 == 1
    decreases |values|
  {
    hide Two, BitsOf;
    var m := |values| - 1;
    Distribute(m, 1, n);
    assert Stream(values, n) == Stream(values[..m], n) + BitsOf(values[m], n);
    if i < m * n {
      StreamAt(values[..m], n, i);
    } else {
      DivUnique(i, n, m, i - m * n);
      BitAt(values[m], n, i - m * n);
    }
  }

  lemma StreamAppend(values: seq<int>, v: int, n: nat)
    ensures Stream(values + [v], n) == Stream(values, n) + BitsOf(v, n)
  {
    assert (values + [v])[..|values|] == values;
  }

  lemma {:induction false} StreamJoin(a: seq<int>, b: seq<int>, n: nat)
    ensures Stream(a + b, n) == Stream(a, n) + Stream(b, n)
    decreases |b|
  {
    if b == [] {
      assert a + b == a;
    } else {
      var front, v := b[..|b| - 1], b[|b| - 1];
      StreamJoin(a, front, n);
      assert a + b == (a + front) + [v] && b == front + [v];
      StreamAppend(a + front, v, n);
      StreamAppend(front, v, n);
    }
  }

  /** Values of n bits are determined by their stream. */
  lemma {:induction false} SameStream(a: seq<int>, b: seq<int>, n: nat)
    requires Below(a, n) && Below(b, n) && |a| == |b| && Stream(a, n) == Stream(b, n)
    ensures a == b
    decreases |a|
  {
    hide BitsOf, Two;
    if |a| > 0 {
      var fa, va := a[..|a| - 1], a[|a| - 1];
      var fb, vb := b[..|b| - 1], b[|b| - 1];
      var sa, sb := Stream(fa, n), Stream(fb, n);
      assert Stream(a, n) == sa + BitsOf(va, n) && Stream(b, n) == sb + BitsOf(vb, n);
      assert sa == Stream(a, n)[..|sa|] && sb == Stream(b, n)[..|sb|];
      assert BitsOf(va, n) == Stream(a, n)[|sa|..] && BitsOf(vb, n) == Stream(b, n)[|sb|..];
      SameBits(va, vb, n);
      SameStream(fa, fb, n);
    }
  }
}
