/** Montgomery reduction and the ring it represents. */
module Montgomery {
  import opened Arithmetic
  import opened Words
  import opened LowLevel
  import opened Karatsuba
  import opened Halves
  import opened HighHalf
  import opened Inverse

  /** R := X / W^N modulo M, with work space T[3N], given U * M == 1 modulo W^N. */
  method MontgomeryReduce(mem: array<word>, R: nat, T: nat, X: nat, M: nat, U: nat, N: nat)
    requires IsSize(N) && Ranges(mem.Length, R, N, T, 3 * N, M, U, N)
    requires X + 2 * N <= mem.Length && Disjoint(R, N, X, 2 * N) && Disjoint(T, 3 * N, X, 2 * N)
    requires LowPart(V(mem[..], U, N) * V(mem[..], M, N), N) == 1
    requires V(mem[..], X, 2 * N) < Sh(V(mem[..], M, N), N)
    modifies mem
    ensures Frame2(old(mem[..]), mem[..], R, N, T, 3 * N)
    ensures V(mem[..], R, N) < V(old(mem[..]), M, N)
    ensures Congruent(Sh(V(mem[..], R, N), N), V(old(mem[..]), X, 2 * N), V(old(mem[..]), M, N))
  {
    hide V, Sh, Pw, LowPart, HighPart, Disjoint, Ranges, Congruent;
    SizeEven(N);
    ghost var m0 := mem[..];
    ReduceRanges(mem.Length, R, T, X, M, U, N);
    ghost var x0, x1, m, u := V(m0, X, N), V(m0, X + N, N), V(m0, M, N), V(m0, U, N);
    Split(m0, X, N, N);
    BelowModulus(x0, x1, m, N);
    RecursiveMultiplyBottom(mem, R, T, X, U, N);
    ghost var m1 := mem[..];
    ghost var r := V(m1, R, N);
    KeptHalves(m0, m1, R, N, T, N, X, N);
    Kept2(m0, m1, R, N, T, N, M, N);
    ghost var t := Cancelled(x0, u, m, r, N);
    RecursiveMultiplyTop(mem, T, T + N, X, R, M, N);
    ghost var m2 := mem[..];
    KeptHalves(m1, m2, T, N, T + N, 2 * N, X, N);
    Kept2(m1, m2, T, N, T + N, 2 * N, M, N);
    ReduceFinish(mem, R, T, X, M, N, x1, t, m);
    ChainReduce(m0, m1, m2, mem[..], R, T, N);
    Reduced(N, x0, x1, m, r, t, V(mem[..], R, N));
  }

  lemma ReduceRanges(len: nat, R: nat, T: nat, X: nat, M: nat, U: nat, N: nat)
    requires Ranges(len, R, N, T, 3 * N, M, U, N)
    requires X + 2 * N <= len && Disjoint(R, N, X, 2 * N) && Disjoint(T, 3 * N, X, 2 * N)
    ensures R + N <= len && T + 3 * N <= len && M + N <= len && U + N <= len
    ensures Ranges(len, R, N, T, N, X, U, N) && Ranges(len, T, N, T + N, 2 * N, R, M, N)
    ensures Disjoint(T, N, X, 2 * N) && Disjoint(T, N, M, N) && Disjoint(R, N, M, N)
    ensures Disjoint(T, N, X, N) && Disjoint(T + N, 2 * N, X, N)
    ensures Disjoint(T + N, 2 * N, X, 2 * N) && Disjoint(T + N, 2 * N, M, N)
    ensures Disjoint(T, 2 * N, M, N) && Disjoint(T, 2 * N, X + N, N) && Disjoint(R, N, T, 2 * N)
  {
  }

  lemma ChainReduce(m0: seq<word>, m1: seq<word>, m2: seq<word>, m3: seq<word>, R: nat, T: nat, N: nat)
    requires Frame2(m0, m1, R, N, T, N) && Frame2(m1, m2, T, N, T + N, 2 * N) && Frame2(m2, m3, R, N, T, 2 * N)
    ensures Frame2(m0, m3, R, N, T, 3 * N)
  {
  }

  lemma BelowModulus(x0: int, x1: int, m: int, N: nat)
    requires 0 <= x0 && x0 + Sh(x1, N) < Sh(m, N)
    ensures x1 < m
  {
    hide Sh;
    if x1 >= m { ShMono(m, x1, N); }
  }

  /** With r = x0 * u the low half of r * m is x0 again. */
  lemma Cancelled(x0: int, u: int, m: int, r: int, N: nat) returns (t: int)
    requires 0 <= x0 < Pw(N) && 0 < m && LowPart(u * m, N) == 1 && r == LowPart(x0 * u, N)
    ensures LowPart(r * m, N) == x0 && HighPart(r * m, N) == t && r * m == x0 + Sh(t, N)
    ensures t < m
  {
    hide Sh, Pw, LowPart, HighPart;
    Parts(u * m, N);
    Parts(x0 * u, N);
    var j, k := HighPart(u * m, N), HighPart(x0 * u, N);
    t := x0 * j - k * m;
    CancelShifts(x0, u, m, r, j, k, N);
    PartsUnique(r * m, N, x0, t);
    QuotientBelow(r, m, x0, t, N);
  }

  lemma CancelShifts(x0: int, u: int, m: int, r: int, j: int, k: int, N: nat)
    requires u * m == 1 + Sh(j, N) && x0 * u == r + Sh(k, N)
    ensures r * m == x0 + Sh(x0 * j - k * m, N)
  {
    hide Sh;
    CancelProduct(x0, u, m, r, Sh(j, N), Sh(k, N));
    ShMul(x0, j, N);
    ShMul(k, m, N);
    ShAdd(x0 * j, k * m, N);
  }

  lemma QuotientBelow(r: int, m: int, x0: int, t: int, N: nat)
    requires 0 <= r < Pw(N) && 0 < m && 0 <= x0 && r * m == x0 + Sh(t, N)
    ensures t < m
  {
    hide Sh, Pw;
    ShIsMul(m, N);
    if t >= m {
      ShMono(m, t, N);
      MulMonotone(m, r, Pw(N) - 1);
      Distribute(Pw(N), 1, m);
    }
  }

  lemma CancelProduct(x0: int, u: int, m: int, r: int, sj: int, sk: int)
    requires u * m == 1 + sj && x0 * u == r + sk
    ensures r * m == x0 + x0 * sj - sk * m
  {
    assert (x0 * u) * m == x0 * (u * m);
    Distribute(r, sk, m);
    Distribute(1, sj, x0);
  }

  /** R := X1 - T or, if that borrows, X1 - T + M; the addition is always done. */
  method ReduceFinish(mem: array<word>, R: nat, T: nat, X: nat, M: nat, N: nat, ghost x1: int, ghost t: int,
      ghost m: int)
    requires N % 2 == 0 && R + N <= mem.Length && T + 3 * N <= mem.Length && X + 2 * N <= mem.Length
        && M + N <= mem.Length
    requires Disjoint(R, N, T, 2 * N) && Disjoint(T, 2 * N, M, N) && Disjoint(T, 2 * N, X + N, N)
    requires x1 == V(mem[..], X + N, N) && t == V(mem[..], T, N) && m == V(mem[..], M, N)
    requires x1 < m && t < m
    modifies mem
    ensures Frame2(old(mem[..]), mem[..], R, N, T, 2 * N)
    ensures V(mem[..], R, N) == if x1 < t then x1 - t + m else x1 - t
  {
    hide V, Sh, Pw;
    ghost var m0 := mem[..];
    PwOne(N);
    ShMono(0, 1, N);
    var borrow := Subtract(mem, T, X + N, T, N);
    ghost var m1 := mem[..];
    SameV(m0, m1, M, N);
    var carry := Add(mem, T + N, T, M, N);
    assert carry == 1 || borrow == 0;
    ghost var m2 := mem[..];
    Kept(m1, m2, T + N, N, T, N);
    CopyWords(mem, R, T + (if borrow != 0 then N else 0), N);
  }

  lemma Reduced(N: nat, x0: int, x1: int, m: int, r: int, t: int, res: int)
    requires 0 < m && r * m == x0 + Sh(t, N)
    requires res == if x1 < t then x1 - t + m else x1 - t
    ensures Congruent(Sh(res, N), x0 + Sh(x1, N), m)
  {
    hide Sh, Pw, Congruent;
    ShAdd(x1, t, N);
    ShAdd(x1 - t, m, N);
    ShIsMul(m, N);
    var j := if x1 < t then Pw(N) - r else -r;
    Distribute(Pw(N), r, m);
    assert m * j == if x1 < t then Sh(m, N) - r * m else -(r * m);
    CongruentBy(Sh(res, N), x0 + Sh(x1, N), m, j);
  }
}
