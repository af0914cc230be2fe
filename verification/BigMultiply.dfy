/** FastTrack's bignum: products. */
module BigMultiply {
  import opened Arithmetic
  import opened Words
  import opened LowLevel
  import opened Multiply

  /** out[2*cnt] := in1[cnt] * in2[cnt], one row per word of in1. */
  method BigMul(cnt: nat, out: array<word>, in1: array<word>, in2: array<word>)
    requires out.Length >= 2 * cnt && in1.Length >= cnt && in2.Length >= cnt && out != in1 && out != in2
    modifies out
    ensures V(out[..], 0, 2 * cnt) == V(in1[..], 0, cnt) * V(in2[..], 0, cnt)
  {
    hide V, Sh;
    for i := 0 to 2 * cnt
      invariant forall k :: 0 <= k < i ==> out[k] == 0
    {
      out[i] := 0;
    }
    ZeroV(out[..], 0, cnt);
    Empty(in1[..], 0);
    for i := 0 to cnt
      invariant V(out[..], 0, cnt + i) == V(in1[..], 0, i) * V(in2[..], 0, cnt)
      invariant forall k :: cnt + i <= k < 2 * cnt ==> out[k] == 0
    {
      BigRow(cnt, out, in1, in2, i);
    }
  }

  /** Row i: out[i..] += in1[i] * in2, the last carry into a fresh word. The
      double-word accumulator never exceeds W^2 - 1. */
  method BigRow(cnt: nat, out: array<word>, in1: array<word>, in2: array<word>, i: nat)
    requires i < cnt && out.Length >= 2 * cnt && in1.Length >= cnt && in2.Length >= cnt && out != in1 && out != in2
    requires V(out[..], 0, cnt + i) == V(in1[..], 0, i) * V(in2[..], 0, cnt)
    modifies out
    ensures V(out[..], 0, cnt + i + 1) == V(in1[..], 0, i + 1) * V(in2[..], 0, cnt)
    ensures Frame(old(out[..]), out[..], i, cnt + 1)
  {
    hide V, Sh;
    ghost var m0 := out[..];
    ghost var in2s := in2[..];
    var k: int := 0;
    var j: nat := 0;
    Empty(m0, i); Empty(in2s, 0); ShMono(0, 0, 0);
    while j < cnt
      invariant j <= cnt && 0 <= k < W
      invariant in2[..] == in2s
      invariant Frame(m0, out[..], i, j)
      invariant V(out[..], i, j) + Sh(k, j) == V(m0, i, j) + V(in2s, 0, j) * in1[i]
    {
      ghost var m1 := out[..];
      MulWords(in1[i], in2[j]);
      k := k + out[i + j] + (in1[i] as int) * in2[j];
      assert k < W * W;
      RowStep(V(in2s, 0, j), V(m1, i, j), in2s[j], in1[i], m0[i + j], k - out[i + j] - (in1[i] as int) * in2[j], j);
      Commute(in2s[j], in1[i]);
      out[i + j] := k % W;
      k := k / W;
      Grow(m1, out[..], i, j);
      Top(m0, i, j);
      Top(in2s, 0, j);
      j := j + 1;
    }
    ghost var m2 := out[..];
    out[i + j] := k;
    RowDone(m0, m2, out[..], in1[..], i, cnt, V(in2s, 0, cnt));
  }

  lemma Commute(x: int, y: int)
    ensures x * y == y * x
  {
  }

  lemma RowDone(m0: seq<word>, m2: seq<word>, m3: seq<word>, a: seq<word>, i: nat, n: nat, b: int)
    requires i < |a| && i + n < |m0| && Frame(m0, m2, i, n) && Frame(m2, m3, i + n, 1)
    requires V(m0, 0, n + i) == V(a, 0, i) * b
    requires V(m2, i, n) + Sh(m3[i + n], n) == V(m0, i, n) + b * a[i]
    ensures V(m3, 0, n + i + 1) == V(a, 0, i + 1) * b
  {
    hide V, Sh;
    Split(m0, 0, i, n);
    Split(m3, 0, i, n + 1);
    Kept(m0, m2, i, n, 0, i);
    Kept(m2, m3, i + n, 1, 0, i);
    Grow(m2, m3, i, n);
    Top(a, 0, i);
    ShAdd(V(m0, i, n), b * a[i], i);
    ShMul(b, a[i], i);
    Distribute(V(a, 0, i), Sh(a[i], i), b);
    assert b * Sh(a[i], i) == Sh(a[i], i) * b;
  }
}
