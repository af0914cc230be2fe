/** Numbers moved in and out of word memory. */
module Storage {
  import opened Words
  import opened LowLevel
  import opened Shifts

  /** A run of words set to the digits of x. */
  method Store(mem: array<word>, p: nat, n: nat, x: nat)
    requires p + n <= mem.Length && x < Pw(n)
    modifies mem
    ensures Frame(old(mem[..]), mem[..], p, n)
    ensures V(mem[..], p, n) == x
  {
    hide V, Sh, Pw;
    ghost var m0 := mem[..];
    var rest: nat := x;
    Empty(m0, p);
    ShOne(x);
    for i := 0 to n
      invariant Frame(m0, mem[..], p, i)
      invariant V(mem[..], p, i) + Sh(rest, i) == x
    {
      ghost var m1 := mem[..];
      mem[p + i] := rest % W;
      Grow(m1, mem[..], p, i);
      ShAdd(rest % W, W * (rest / W), i);
      ShW(rest / W, i);
      rest := rest / W;
    }
    PwOne(n);
    ShMono(0, 0, n);
    if rest > 0 { ShMono(1, rest, n); }
  }

  /** The number a run of words holds. */
  method Load(mem: array<word>, p: nat, n: nat) returns (x: nat)
    requires p + n <= mem.Length
    ensures x == V(mem[..], p, n)
  {
    hide V;
    var i: nat := n;
    x := 0;
    Empty(mem[..], p + n);
    while i > 0
      invariant i <= n && x == V(mem[..], p + i, n - i)
    {
      i := i - 1;
      Low(mem[..], p + i, n - i);
      x := mem[p + i] + W * x;
    }
  }
}
