/** FastTrack's oldest pad mixing: the cube of the key modulo a fixed number. */
module EncType1 {
  import opened Arithmetic
  import opened Bytes
  import opened Words
  import opened LowLevel
  import opened Shifts
  import opened BigPasses
  import opened BigReduce
  import opened BigPower
  import opened EncModulus

  /** The number whose base-256 digits are s, least significant first. */
  ghost function BytesV(s: seq<byte>): (v: int)
    ensures v >= 0
  {
    if |s| == 0 then 0 else s[0] + 0x100 * BytesV(s[1..])
  }

  function Unit(k: nat): (u: int)
    requires k < 4
    ensures 0 < u <= 0x100_0000
  {
    if k == 0 then 1 else if k == 1 then 0x100 else if k == 2 then 0x1_0000 else 0x100_0000
  }

  /** Byte k of a word. */
  function ByteOf(w: word, k: nat): byte
    requires k < 4
  {
    w / Unit(k) % 0x100
  }

  function Join(a: int, b: int, c: int, d: int): int {
    a + 0x100 * b + 0x1_0000 * c + 0x100_0000 * d
  }

  /** The word in the i-th four bytes. */
  function WordAt(s: seq<byte>, i: nat): int
    requires 4 * i + 4 <= |s|
  {
    Join(s[4 * i], s[4 * i + 1], s[4 * i + 2], s[4 * i + 3])
  }

  lemma BytesOfWord(w: word)
    ensures w == Join(ByteOf(w, 0), ByteOf(w, 1), ByteOf(w, 2), ByteOf(w, 3))
  {
    var a := w / 0x100;
    var b := a / 0x100;
    var c := b / 0x100;
    DivParts(w, 0x100);
    DivParts(a, 0x100);
    DivParts(b, 0x100);
    DivUnique(w, 0x1_0000, b, w % 0x100 + 0x100 * (a % 0x100));
    DivUnique(w, 0x100_0000, c, w % 0x100 + 0x100 * (a % 0x100) + 0x1_0000 * (b % 0x100));
  }

  /** Four bytes to a word. */
  ghost predicate SameNumber(s: seq<byte>, m: seq<word>, p: nat, n: nat) {
    |s| == 4 * n && p + n <= |m|
    && forall i :: 0 <= i < n ==> m[p + i] == WordAt(s, i)
  }

  lemma {:induction false} SameValue(s: seq<byte>, m: seq<word>, p: nat, n: nat)
    requires SameNumber(s, m, p, n)
    ensures BytesV(s) == V(m, p, n)
    decreases n
  {
    if n > 0 {
      var t := s[4..];
      forall i | 0 <= i < n - 1
        ensures m[p + 1 + i] == WordAt(t, i)
      {
        assert m[p + (i + 1)] == WordAt(s, i + 1);
      }
      SameValue(t, m, p + 1, n - 1);
      FourBytes(s);
      assert m[p + 0] == WordAt(s, 0);
    }
  }

  lemma FourBytes(s: seq<byte>)
    requires 4 <= |s|
    ensures BytesV(s) == Join(s[0], s[1], s[2], s[3]) + W * BytesV(s[4..])
  {
    assert s[1..][1..] == s[2..] && s[2..][1..] == s[3..] && s[3..][1..] == s[4..];
    assert BytesV(s[1..]) == s[1] + 0x100 * BytesV(s[2..]);
    assert BytesV(s[2..]) == s[2] + 0x100 * BytesV(s[3..]);
    assert BytesV(s[3..]) == s[3] + 0x100 * BytesV(s[4..]);
  }

  /** The lowest j bytes of the i-th word. */
  ghost function Partial(s: seq<byte>, i: nat, j: nat): int
    requires 4 * i + 4 <= |s| && j <= 4
  {
    if j == 0 then 0 else Partial(s, i, j - 1) + (s[4 * i + (j - 1)] as int) * Unit(j - 1)
  }

  lemma PartialWhole(s: seq<byte>, i: nat)
    requires 4 * i + 4 <= |s|
    ensures Partial(s, i, 0) == 0 && Partial(s, i, 4) == WordAt(s, i)
  {
    assert Partial(s, i, 1) == s[4 * i];
    assert Partial(s, i, 2) == Partial(s, i, 1) + 0x100 * s[4 * i + 1] as int;
    assert Partial(s, i, 3) == Partial(s, i, 2) + 0x1_0000 * s[4 * i + 2] as int;
  }

  lemma PartialNext(s: seq<byte>, i: nat, j: nat)
    requires 4 * i + 4 <= |s| && j < 4
    ensures Partial(s, i, j + 1) == Partial(s, i, j) + (s[4 * i + j] as int) * Unit(j)
  {
  }

  method ReadWord(src: array<byte>, i: nat) returns (tmp: word)
    requires 4 * i + 4 <= src.Length
    ensures tmp == WordAt(src[..], i)
  {
    hide Partial, Unit;
    var t: int := 0;
    PartialWhole(src[..], i);
    for j := 0 to 4
      invariant t == Partial(src[..], i, j)
    {
      PartialNext(src[..], i, j);
      t := t + (src[4 * i + j] as int) * Unit(j);
    }
    tmp := t;
  }

  /** dst := the number in the 256 bytes src. */
  method BigLetoh(dst: array<word>, src: array<byte>)
    requires dst.Length == 64 && src.Length == 256
    modifies dst
    ensures V(dst[..], 0, 64) == BytesV(src[..])
    ensures dst[63] == WordAt(src[..], 63)
  {
    hide V, BytesV, WordAt;
    for i := 0 to 64
      invariant forall k :: 0 <= k < i ==> dst[k] == WordAt(src[..], k)
    {
      dst[i] := ReadWord(src, i);
    }
    SameValue(src[..], dst[..], 0, 64);
  }

  /** dst[0..cnt] := the lowest cnt bytes of src. */
  method BigHtole(dst: array<byte>, src: array<word>, cnt: nat)
    requires cnt <= dst.Length && cnt <= 4 * src.Length
    modifies dst
    ensures forall i :: 0 <= i < cnt ==> dst[i] == ByteOf(src[i / 4], i % 4)
    ensures forall i :: cnt <= i < dst.Length ==> dst[i] == old(dst[i])
    ensures cnt % 4 == 0 ==> BytesV(dst[..cnt]) == V(src[..], 0, cnt / 4)
  {
    hide V, BytesV, ByteOf;
    for i := 0 to cnt
      invariant forall k :: 0 <= k < i ==> dst[k] == ByteOf(src[k / 4], k % 4)
      invariant forall k :: i <= k < dst.Length ==> dst[k] == old(dst[k])
    {
      dst[i] := ByteOf(src[i / 4], i % 4);
    }
    if cnt % 4 == 0 {
      WordsOfBytes(dst[..cnt], src[..], cnt / 4);
    }
  }

  lemma WordsOfBytes(s: seq<byte>, m: seq<word>, n: nat)
    requires |s| == 4 * n && n <= |m|
    requires forall i :: 0 <= i < 4 * n ==> s[i] == ByteOf(m[i / 4], i % 4)
    ensures BytesV(s) == V(m, 0, n)
  {
    hide V, BytesV, ByteOf;
    forall i | 0 <= i < n
      ensures m[0 + i] == WordAt(s, i)
    {
      BytesOfWord(m[i]);
      assert (4 * i) / 4 == i && (4 * i + 1) / 4 == i && (4 * i + 2) / 4 == i && (4 * i + 3) / 4 == i;
      assert (4 * i) % 4 == 0 && (4 * i + 1) % 4 == 1 && (4 * i + 2) % 4 == 2 && (4 * i + 3) % 4 == 3;
    }
    SameValue(s, m, 0, n);
  }

  /** The key as a number: its 255 bytes below a one. */
  ghost function KeyNumber(key: seq<byte>): int
    requires 255 <= |key|
  {
    BytesV(key[..255] + [1])
  }

  /** The key's 255 bytes with a one on top, as words. */
  method LoadKey(inKey: array<byte>) returns (num1: array<word>)
    requires 255 <= inKey.Length
    ensures fresh(num1) && num1.Length == 64
    ensures 0 < KeyNumber(inKey[..]) == V(num1[..], 0, 64) < ModulusNumber()
    ensures UsedWords(Modulus()) == 64 && Number(num1[..], Modulus()) == V(num1[..], 0, 64)
    ensures Number(Modulus(), Modulus()) == ModulusNumber()
  {
    hide V, BytesV, Modulus, ModulusNumber, WordAt, Number, UsedWords;
    num1 := new word[64](i => 0);
    var num2 := new byte[256](i => 0);
    forall i | 0 <= i < 255 {
      num2[i] := inKey[i];
    }
    num2[255] := 1;
    assert num2[..] == inKey[..][..255] + [1];
    BigLetoh(num1, num2);
    KeyFits(num1[..], num2[..]);
  }

  /** out_key := the little-endian bytes of K^3 mod N when no borrow is forgotten.
      For every key: the bytes of what two rounds of multiplying and squaring
      leave, each reduction giving the residue of the product and of what it
      forgets. */
  method EncType(outKey: array<byte>, inKey: array<byte>, modulus: array<word>)
    requires 256 <= outKey.Length && 255 <= inKey.Length && modulus[..] == Modulus()
    modifies outKey
    ensures var K := KeyNumber(old(inKey[..]));
      var N := 0xd453ec0a34eb20ca0a532f6aae08473dc6f2dc0e96e62735dd331dd5522f69d10d7a00501928851271a157acde7aa2fedbd26bb04d23ffc1b6a31787315d578051be98b0da2d7944ed64060a96e537a7a4037cdbde3c6725e9db63418443fd050829ee6d18e4dd48d61a70558606342ac3741ca71e4970e510a931f8b42d2df05250e6fe0a7703d88781ab210032a3dfe957a9b5d238b5b8363dc15e2c0054b3390a5a36b15e221669f29f9af97bb445695b3ca272f554fce475aa9e6e37192e91fd3a9ebc8c0457e7ee26ad19d2974dc11f00e38d5b5eb2e84b25f81b32a36fba1519a15efa55ffe569c5fc96d7f927bf77b6d6193bbd8f31c4a05eeb96841d;
      && 0 < K < N
      && BytesV(outKey[..256]) == RunResidue(1, K, N, 64, 2)
      && (CleanRun(1, K, N, 64, 2) ==> BytesV(outKey[..256]) == Power(K, 3) % N)
    ensures forall i :: 256 <= i < outKey.Length ==> outKey[i] == old(outKey[i])
  {
    hide V, BytesV, CleanRun, RunResidue, Power, Two, Modulus, ModulusNumber, WordAt, Number, UsedWords, Tame;
    ghost var key := inKey[..];
    var exp := new word[64](i => 0);
    exp[0] := 3;
    var num1 := LoadKey(inKey);
    assert modulus[..] == Modulus() && inKey[..] == key;
    ThreeNumber(exp[..]);
    ModulusTame();
    ModulusLiteral();
    var done;
    ghost var i;
    done, i := BigExpMod(num1, exp, modulus);
    ThreeHasTwoBits(i);
    KeyNumbers(num1[..]);
    BigHtole(outKey, num1, 256);
  }

  /** With this modulus every reduction ends, whatever it forgets. */
  lemma ModulusTame()
    ensures Tame(ModulusNumber(), 64)
  {
    hide V, Modulus, Pw, WordOf;
    BigEnough(Modulus());
    LastWord(Modulus(), 64);
  }

  lemma KeyFits(m: seq<word>, s: seq<byte>)
    requires |m| == 64 && |s| == 256 && s[255] == 1
    requires m[63] == WordAt(s, 63)
    ensures 0 < V(m, 0, 64) < ModulusNumber() && UsedWords(Modulus()) == 64
    ensures Number(m, Modulus()) == V(m, 0, 64)
    ensures Number(Modulus(), Modulus()) == ModulusNumber()
  {
    hide V, Modulus;
    DiffersAt(Modulus(), 0, m, 0, 63);
    KeyNumbers(m);
    BigEnough(m);
  }

  lemma KeyNumbers(m: seq<word>)
    requires |m| == 64
    ensures Number(m, Modulus()) == V(m, 0, 64)
  {
    hide V, Modulus;
  }

  lemma ThreeNumber(e: seq<word>)
    requires |e| == 64 && e[0] == 3 && forall k :: 1 <= k < 64 ==> e[k] == 0
    ensures V(e, 0, 64) == 3
  {
    hide V;
    Split(e, 0, 1, 63);
    ZeroV(e, 1, 63);
    ShMono(0, 0, 1);
    V1(e, 0);
  }

  lemma ThreeHasTwoBits(i: nat)
    requires 3 < Two(i) && (i > 0 ==> Two(i - 1) <= 3)
    ensures i == 2 && Two(i) - 1 == 3
  {
    assert Two(0) == 1 && Two(1) == 2 && Two(2) == 4;
    if i > 2 { TwoMonotone(2, i - 1); }
  }
}
