/** Residues in Montgomery form, multiplied in the object's own work space. */
module Representation {
  import opened Arithmetic
  import opened Words
  import opened LowLevel
  import opened Karatsuba
  import opened Shifts
  import opened Storage
  import opened AsymmetricProducts
  import opened Inverse
  import opened Montgomery
  import opened AlmostInversion
  import opened Modular

  lemma OddWord(m: seq<word>, p: nat, n: nat)
    requires 0 < n && p + n <= |m|
    ensures m[p] % 2 == V(m, p, n) % 2
  {
    hide V;
    Low(m, p, n);
  }

  /** A factor W^N may be dropped modulo m when m has an inverse u modulo W^N. */
  lemma CancelPower(x: int, y: int, m: int, u: int, N: nat)
    requires 0 < m && LowPart(u * m, N) == 1 && Congruent(Sh(x, N), Sh(y, N), m)
    ensures Congruent(x, y, m)
  {
    hide Sh, Pw, LowPart, HighPart, Congruent;
    var q := CongruentWitness(Sh(x, N), Sh(y, N), m);
    Parts(u * m, N);
    var j, d := HighPart(u * m, N), x - y;
    ShAdd(x, y, N);
    ShMul(d, j, N);
    assert d * (u * m) == d + d * Sh(j, N) by { Distribute(1, Sh(j, N), d); }
    assert d * (u * m) == m * (u * d);
    assert (m * q) * j == m * (q * j);
    Distribute(u * d, q * j, m);
    CongruentBy(x, y, m, u * d - q * j);
  }

  /** ConvertOut(Multiply(ConvertIn(a), ConvertIn(b))) is the product a * b mod m. */
  lemma RoundTrip(a: int, b: int, x: int, y: int, z: int, w: int, m: int, u: int, N: nat)
    requires 0 < m && LowPart(u * m, N) == 1
    requires x == Sh(a, N) % m && y == Sh(b, N) % m
    requires Congruent(Sh(z, N), x * y, m)
    requires 0 <= w < m && Congruent(Sh(w, N), z, m)
    ensures w == (a * b) % m
  {
    hide Sh, Pw, LowPart;
    ReducedCongruent(Sh(a, N), m);
    ReducedCongruent(Sh(b, N), m);
    CongruentProduct(x, Sh(a, N), y, Sh(b, N), m);
    var ab := a * b;
    ShMul(a, Sh(b, N), N);
    ShMul(a, b, N);
    assert Congruent(Sh(z, N), Sh(Sh(ab, N), N), m);
    CancelPower(z, Sh(ab, N), m, u, N);
    CancelPower(w, ab, m, u, N);
    DivUnique(w, m, 0, w);
  }

  class MontgomeryRepresentation {
    /** The modulus, its inverse, five blocks of work space, the result, and room
        for two operands, N words each. */
    const mem: array<word>
    const N: nat

    ghost predicate Valid()
      reads mem
    {
      && IsSize(N) && mem.Length == 10 * N
      && mem[0] % 2 == 1
      && LowPart(V(mem[..], N, N) * V(mem[..], 0, N), N) == 1
    }

    ghost function Modulus(): int
      requires 10 * N <= mem.Length
      reads mem
    {
      V(mem[..], 0, N)
    }

    ghost function Result(): int
      requires 10 * N <= mem.Length
      reads mem
    {
      V(mem[..], 7 * N, N)
    }

    /** The modulus must be odd; the inverse it needs is computed here. */
    constructor (m: nat, N: nat)
      requires IsSize(N) && m < Pw(N) && m % 2 == 1
      ensures Valid() && Modulus() == m && fresh(mem) && this.N == N
    {
      this.N := N;
      this.mem := new word[10 * N](_ => 0);
      new;
      hide V, Sh, Pw, LowPart;
      SizeEven(N);
      Store(mem, 0, N, m);
      OddWord(mem[..], 0, N);
      ghost var m1 := mem[..];
      RecursiveInverseModPower2(mem, N, 2 * N, 0, N);
      SameV(m1, mem[..], 0, N);
    }

    /** result := a * b / W^N mod M, for operands in Montgomery form, each of the
        length its number is kept in. */
    method Multiply(a: nat, na: nat, b: nat, nb: nat)
      requires Valid() && Operand(a, na) && Operand(b, nb)
      requires V(mem[..], a, na) < Modulus() && V(mem[..], b, nb) < Modulus()
      modifies mem
      ensures Valid() && Modulus() == old(Modulus()) && Kept8(old(mem[..]))
      ensures Result() < Modulus()
      ensures Congruent(Sh(Result(), N), old(V(mem[..], a, na) * V(mem[..], b, nb)), Modulus())
    {
      hide V, Sh, Pw, LowPart, Congruent, Lengths;
      SizeEven(N);
      ghost var m0 := mem[..];
      var T := 2 * N;
      ProductFits(V(m0, a, na), V(m0, b, nb), V(m0, 0, N), N);
      SizesFit(na, nb);
      AsymmetricMultiply(mem, T, T + 2 * N, a, na, b, nb);
      ClearAbove(T, na + nb);
      Reduce(m0);
    }

    /** The plain residue of a Montgomery form. */
    method ConvertOut(a: nat, na: nat)
      requires Valid() && Operand(a, na)
      modifies mem
      ensures Valid() && Modulus() == old(Modulus()) && Kept8(old(mem[..]))
      ensures Result() < Modulus()
      ensures Congruent(Sh(Result(), N), old(V(mem[..], a, na)), Modulus())
    {
      hide V, Sh, Pw, LowPart, Congruent;
      SizeEven(N);
      ghost var m0 := mem[..];
      var T := 2 * N;
      CopyWords(mem, T, a, na);
      ClearAbove(T, na);
      OddWord(m0, 0, N);
      PwGrows(na, N);
      SingleFits(V(m0, a, na), V(m0, 0, N), N);
      Reduce(m0);
    }

    /** The work space above the k words in use is set to zero. */
    method ClearAbove(T: nat, k: nat)
      requires T == 2 * N && k <= 2 * N && mem.Length == 10 * N
      modifies mem
      ensures Frame(old(mem[..]), mem[..], T, 2 * N)
      ensures V(mem[..], T, 2 * N) == V(old(mem[..]), T, k)
    {
      hide V, Sh;
      ghost var m1 := mem[..];
      SetWords(mem, T + k, 0, 2 * N - k);
      Kept(m1, mem[..], T + k, 2 * N - k, T, k);
      ZeroV(mem[..], T + k, 2 * N - k);
      Split(mem[..], T, k, 2 * N - k);
      ShMono(0, 0, k);
    }

    /** An operand lies clear of the modulus, its inverse and the work space. */
    ghost predicate Operand(a: nat, na: nat) {
      7 * N <= a && a + na <= 10 * N && IsSize(na) && na <= N
    }

    /** Only the work space and the result may differ from m. */
    ghost predicate Kept8(m: seq<word>)
      reads mem
    {
      Frame(m, mem[..], 2 * N, 6 * N)
    }

    /** The reduction both operations end with: work space -> result. */
    method Reduce(ghost m0: seq<word>)
      requires |m0| == mem.Length && IsSize(N) && mem.Length == 10 * N && m0[0] % 2 == 1
      requires LowPart(V(m0, N, N) * V(m0, 0, N), N) == 1
      requires Frame2(m0, mem[..], 2 * N, 2 * N, 4 * N, 2 * N)
      requires V(mem[..], 2 * N, 2 * N) < Sh(V(m0, 0, N), N)
      modifies mem
      ensures Valid() && Modulus() == V(m0, 0, N) && Kept8(m0)
      ensures Result() < Modulus()
      ensures Congruent(Sh(Result(), N), V(old(mem[..]), 2 * N, 2 * N), Modulus())
    {
      hide V, Sh, Pw, LowPart, Congruent;
      SizeEven(N);
      ghost var m1 := mem[..];
      SameV(m0, m1, 0, N);
      SameV(m0, m1, N, N);
      MontgomeryReduce(mem, 7 * N, 4 * N, 2 * N, 0, N, N);
      SameV(m1, mem[..], 0, N);
      SameV(m1, mem[..], N, N);
    }

    /** (a * b) mod M by way of the representation: both factors converted in,
        multiplied, and the product converted out. */
    method MultiplyModulo(a: int, b: int) returns (r: nat)
      requires Valid()
      modifies mem
      ensures Valid() && Modulus() == old(Modulus())
      ensures r == (a * b) % Modulus()
    {
      hide V, Sh, Pw, LowPart, Congruent;
      SizeEven(N);
      OddWord(mem[..], 0, N);
      var m := Load(mem, 0, N);
      ghost var u := V(mem[..], N, N);
      var x := Sh(a, N) % m;
      var y := Sh(b, N) % m;
      StoreOperands(m, x, y);
      Multiply(8 * N, N, 9 * N, N);
      ghost var z := Result();
      ConvertOut(7 * N, N);
      r := Load(mem, 7 * N, N);
      RoundTrip(a, b, x, y, z, r, m, u, N);
    }

    /** result := the inverse of a in Montgomery form: their product is W^2N, the
        form of 1 once more multiplied by W^N. Zero if a has no inverse. */
    method MultiplicativeInverse(a: nat, na: nat) returns (ghost found: bool)
      requires Valid() && Operand(a, na)
      modifies mem
      ensures Valid() && Modulus() == old(Modulus()) && Kept8(old(mem[..]))
      ensures Result() < Modulus()
      ensures found ==> Congruent(old(V(mem[..], a, na)) * Result(), Pw(2 * N), Modulus())
      ensures !found ==> Result() == 0
      ensures !found ==> Modulus() == 1 || forall x :: !IsInverse(x, old(V(mem[..], a, na)), Modulus())
    {
      hide V, Sh, Pw, Two, LowPart, Congruent, IsInverse, NoLonger;
      SizeEven(N);
      ghost var m0 := mem[..];
      ConvertOut(a, na);
      ghost var m1, r0 := mem[..], Result();
      ghost var m, u := V(m0, 0, N), V(m0, N, N);
      OddWord(m0, 0, N);
      var R, T, k := 7 * N, 2 * N, 0;
      ghost var z;
      BelowNoLonger(r0, m);
      k, found, z := AlmostInverse(mem, R, T, R, N, 0, N);
      ghost var m2, r := mem[..], Result();
      SameV(m1, m2, 0, N);
      if k > N * WORD_BITS {
        DivideByPower2Mod(mem, R, R, k - N * WORD_BITS, 0, N);
      } else {
        MultiplyByPower2Mod(mem, R, R, N * WORD_BITS - k, 0, N);
      }
      SameV(m2, mem[..], 0, N);
      SameV(m0, mem[..], N, N);
      if found {
        Corrected(r0, m, r, Result(), k, z, N * WORD_BITS);
        InverseForm(V(m0, a, na), r0, Result(), m, N);
      } else {
        NoForm(V(m0, a, na), r0, Result(), N * WORD_BITS, m, u, N);
      }
    }

    /** The inverse of a plain residue by way of the representation. */
    method InverseModulo(a: int) returns (r: nat)
      requires Valid()
      modifies mem
      ensures Valid() && Modulus() == old(Modulus())
      ensures InverseOrZero(r, a, Modulus())
    {
      hide V, Sh, Pw, LowPart, Congruent, IsInverse, InverseOrZero;
      SizeEven(N);
      OddWord(mem[..], 0, N);
      var m := Load(mem, 0, N);
      ghost var u := V(mem[..], N, N);
      var x := Sh(a, N) % m;
      StoreOperands(m, x, x);
      ghost var found := MultiplicativeInverse(8 * N, N);
      ghost var y := Result();
      ConvertOut(7 * N, N);
      r := Load(mem, 7 * N, N);
      InverseRoundTrip(a, x, y, r, m, u, N, found);
    }

    method StoreOperands(m: nat, x: int, y: int)
      requires Valid() && m == Modulus() && 0 <= x < m && 0 <= y < m
      modifies mem
      ensures Valid() && Modulus() == m
      ensures V(mem[..], 8 * N, N) == x && V(mem[..], 9 * N, N) == y
    {
      hide V, Sh, Pw, LowPart;
      SizeEven(N);
      ghost var m0 := mem[..];
      Store(mem, 8 * N, N, x);
      ghost var m1 := mem[..];
      Store(mem, 9 * N, N, y);
      SameV(m1, mem[..], 8 * N, N);
      SameV(m0, mem[..], 0, N);
      SameV(m0, mem[..], N, N);
    }
  }

  lemma ProductFits(x: int, y: int, m: int, N: nat)
    requires 0 <= x < m && 0 <= y < m < Pw(N)
    ensures x * y < Sh(m, N)
  {
    hide Sh, Pw;
    ProductBelow(x, y, m, Pw(N));
    ShIsMul(m, N);
  }

  lemma SingleFits(x: int, m: int, N: nat)
    requires 0 <= x < Pw(N) && 0 < m
    ensures x < Sh(m, N)
  {
    hide Sh, Pw;
    PwOne(N);
    ShMono(1, m, N);
  }

  /** The constructor of the original refuses an even modulus with an exception. */
  method Represent(m: nat, N: nat) returns (r: MontgomeryRepresentation?)
    requires IsSize(N) && m < Pw(N)
    ensures r == null <==> m % 2 == 0
    ensures r != null ==> r.Valid() && r.Modulus() == m && fresh(r) && fresh(r.mem)
  {
    if m % 2 == 0 {
      return null;
    }
    r := new MontgomeryRepresentation(m, N);
  }

  /** a is r0 * W^N, and r0 * v is W^N: so a * v is W^2N. */
  lemma InverseForm(a: int, r0: int, v: int, m: int, N: nat)
    requires 0 < m && Congruent(Sh(r0, N), a, m) && Congruent(r0 * v, Two(N * WORD_BITS), m)
    ensures Congruent(a * v, Pw(2 * N), m)
  {
    hide Sh, Pw, Two, Congruent;
    TwoPw(N);
    Reflexive(v, m);
    CongruentProduct(Sh(r0, N), a, v, v, m);
    Reflexive(Pw(N), m);
    CongruentProduct(r0 * v, Pw(N), Pw(N), Pw(N), m);
    PwAdd(N, N);
    ShMul(r0, v, N);
    ShIsMul(r0 * v, N);
    Chain(Sh(r0, N) * v, a * v, Pw(2 * N), m);
  }

  lemma Chain(x: int, y: int, z: int, m: int)
    requires 0 < m && Congruent(x, y, m) && Congruent(x, z, m)
    ensures Congruent(y, z, m) && Congruent(z, y, m)
  {
  }

  /** If r0 has no inverse, a = r0 * W^N has none; and zero scaled is zero. */
  lemma NoForm(a: int, r0: int, v: int, e: nat, m: int, u: int, N: nat)
    requires 0 < m && 0 <= v < m && Congruent(Sh(r0, N), a, m) && Congruent(v, 0 * Two(e), m)
    requires m == 1 || forall x :: !IsInverse(x, r0, m)
    ensures v == 0 && (m == 1 || forall x :: !IsInverse(x, a, m))
  {
    hide Sh, Pw, Two, IsInverse;
    DivUnique(v, m, 0, v);
    DivUnique(0, m, 0, 0);
    if m != 1 {
      forall x
        ensures !IsInverse(x, a, m)
      {
        Transfer(a, r0, x, m, N);
      }
    }
  }

  lemma Transfer(a: int, r0: int, x: int, m: int, N: nat)
    requires 0 < m && Congruent(Sh(r0, N), a, m)
    ensures IsInverse(x, a, m) <==> IsInverse(Sh(x, N), r0, m)
  {
    hide Sh;
    Reflexive(x, m);
    CongruentProduct(Sh(r0, N), a, x, x, m);
    ShMul(r0, x, N);
  }

  /** Converted in, inverted and converted out. */
  lemma InverseRoundTrip(a: int, x: int, y: int, r: int, m: int, u: int, N: nat, found: bool)
    requires 0 < m && LowPart(u * m, N) == 1 && x == Sh(a, N) % m
    requires 0 <= r < m && Congruent(Sh(r, N), y, m)
    requires found ==> Congruent(x * y, Pw(2 * N), m)
    requires !found ==> y == 0 && (m == 1 || forall z :: !IsInverse(z, x, m))
    ensures InverseOrZero(r, a, m)
  {
    hide Sh, Pw, LowPart, Congruent, IsInverse;
    ReducedCongruent(Sh(a, N), m);
    Symmetric(x, Sh(a, N), m);
    if found {
      CongruentProduct(Sh(a, N), x, Sh(r, N), y, m);
      ShMul(a, Sh(r, N), N);
      ShMul(a, r, N);
      PwAdd(N, N);
      PwOne(N);
      Transitive(Sh(Sh(a * r, N), N), x * y, Sh(Sh(1, N), N), m);
      CancelPower(Sh(a * r, N), Sh(1, N), m, u, N);
      CancelPower(a * r, 1, m, u, N);
      InverseIntro(r, a, m);
    } else {
      ShMono(0, 0, N);
      CancelPower(r, 0, m, u, N);
      ZeroResidue(r, m);
      if m == 1 {
        AnyInverse(a);
      } else {
        forall z
          ensures !IsInverse(z, a, m)
        {
          Untransfer(a, x, z, m, u, N);
        }
      }
    }
  }

  lemma ZeroResidue(r: int, m: int)
    requires 0 <= r < m && Congruent(r, 0, m)
    ensures r == 0
  {
    DivUnique(r, m, 0, r);
    DivUnique(0, m, 0, 0);
  }

  lemma AnyInverse(a: int)
    ensures IsInverse(0, a, 1)
  {
    assert a * 0 == 0;
  }

  /** An inverse of a would give one of x = a * W^N: u's cofactor undoes W^N. */
  lemma Untransfer(a: int, x: int, z: int, m: int, u: int, N: nat)
    requires 0 < m && LowPart(u * m, N) == 1 && Congruent(Sh(a, N), x, m)
    requires forall y :: !IsInverse(y, x, m)
    ensures !IsInverse(z, a, m)
  {
    hide Sh, Pw, LowPart, HighPart, IsInverse, Congruent;
    if IsInverse(z, a, m) {
      Parts(u * m, N);
      var k := HighPart(u * m, N);
      // -k is an inverse of W^N modulo m
      ShMul(a, 0 - z * k, N);
      PowerUndone(a, z, k, u, m, N);
      Transfer(x, a, 0 - z * k, m, N);
    }
  }

  lemma PowerUndone(a: int, z: int, k: int, u: int, m: int, N: nat)
    requires 0 < m && IsInverse(z, a, m) && u * m == 1 + Sh(k, N)
    ensures IsInverse(Sh(0 - z * k, N), a, m)
  {
    hide Sh;
    DivParts(a * z, m);
    DivParts(1, m);
    var q := a * z / m - 1 / m;
    assert a * z == 1 + m * q by { Distribute(a * z / m, 1 / m, m); }
    ShMul(0 - z, k, N);
    assert (0 - z) * k == 0 - z * k;
    var s := Sh(k, N);
    assert a * ((0 - z) * s) == 0 - (a * z) * s;
    Distribute(1, m * q, s);
    assert (m * q) * s == m * (q * s);
    CongruentBy(a * Sh(0 - z * k, N), 1, m, 0 - u - q * s);
  }
}
