/** The fixed modulus of FastTrack's oldest pad mixing, written as one number. */
module EncModulus {
  import opened Words

  function Modulus0(): (r: seq<word>)
    ensures |r| == 16
  {
    [0xeb96841d, 0x31c4a05e, 0x193bbd8f, 0xbf77b6d6, 0x96d7f927, 0xe569c5fc, 0x5efa55ff, 0xba1519a1,
     0x1b32a36f, 0xe84b25f8, 0x8d5b5eb2, 0xc11f00e3, 0x19d2974d, 0xe7ee26ad, 0xbc8c0457, 0x91fd3a9e]
  }

  function Modulus1(): (r: seq<word>)
    ensures |r| == 16
  {
    [0x6e37192e, 0xe475aa9e, 0x72f554fc, 0x695b3ca2, 0xf97bb445, 0x69f29f9a, 0xb15e2216, 0x390a5a36,
     0x2c0054b3, 0x363dc15e, 0xd238b5b8, 0xe957a9b5, 0x0032a3df, 0x8781ab21, 0x0a7703d8, 0x5250e6fe]
  }

  function Modulus2(): (r: seq<word>)
    ensures |r| == 16
  {
    [0xb42d2df0, 0x10a931f8, 0x1e4970e5, 0xc3741ca7, 0x8606342a, 0xd61a7055, 0x18e4dd48, 0x0829ee6d,
     0x8443fd05, 0xe9db6341, 0xde3c6725, 0xa4037cdb, 0x96e537a7, 0xed64060a, 0xda2d7944, 0x51be98b0]
  }

  function Modulus3(): (r: seq<word>)
    ensures |r| == 16 && r[15] == 0xd453ec0a
  {
    [0x315d5780, 0xb6a31787, 0x4d23ffc1, 0xdbd26bb0, 0xde7aa2fe, 0x71a157ac, 0x19288512, 0x0d7a0050,
     0x522f69d1, 0xdd331dd5, 0x96e62735, 0xc6f2dc0e, 0xae08473d, 0x0a532f6a, 0x34eb20ca, 0xd453ec0a]
  }

  /** The fixed modulus, least significant word first. */
  function Modulus(): (r: seq<word>)
    ensures |r| == 64 && r[63] == 0xd453ec0a
  {
    hide Modulus0, Modulus1, Modulus2, Modulus3;
    Modulus0() + Modulus1() + Modulus2() + Modulus3()
  }

  lemma BigEnough(m: seq<word>)
    requires |m| == 64 && m[63] > 0
    ensures V(m, 0, 64) >= 1
  {
    hide V;
    ZeroV(m, 0, 64);
  }

  /** N: the fixed modulus as a number. */
  ghost function ModulusNumber(): (v: int)
    ensures v > 0
  {
    ModulusPositive();
    V(Modulus(), 0, 64)
  }

  lemma ModulusPositive()
    ensures V(Modulus(), 0, 64) > 0
  {
    hide V, Modulus;
    BigEnough(Modulus());
  }

  function Digit(m: seq<word>, i: nat): int
    requires i < |m|
  {
    m[i]
  }

  /** Eight words, least significant first. */
  lemma EightWords(m: seq<word>, p: nat)
    requires p + 8 <= |m|
    ensures V(m, p, 8)
         == Digit(m, p) + 0x1_0000_0000 * (Digit(m, p + 1) + 0x1_0000_0000 * (Digit(m, p + 2)
          + 0x1_0000_0000 * (Digit(m, p + 3) + 0x1_0000_0000 * (Digit(m, p + 4)
          + 0x1_0000_0000 * (Digit(m, p + 5) + 0x1_0000_0000 * (Digit(m, p + 6)
          + 0x1_0000_0000 * Digit(m, p + 7)))))))
  {
    V1(m, p + 7);
    assert V(m, p + 6, 2) == m[p + 6] + 0x1_0000_0000 * V(m, p + 7, 1);
    assert V(m, p + 5, 3) == m[p + 5] + 0x1_0000_0000 * V(m, p + 6, 2);
    assert V(m, p + 4, 4) == m[p + 4] + 0x1_0000_0000 * V(m, p + 5, 3);
    assert V(m, p + 3, 5) == m[p + 3] + 0x1_0000_0000 * V(m, p + 4, 4);
    assert V(m, p + 2, 6) == m[p + 2] + 0x1_0000_0000 * V(m, p + 3, 5);
    assert V(m, p + 1, 7) == m[p + 1] + 0x1_0000_0000 * V(m, p + 2, 6);
  }

  /** 2^256. */
  const UNIT: int := 0x1_0000000000000000_0000000000000000_0000000000000000_0000000000000000

  lemma ShEight(x: int)
    ensures Sh(x, 8) == UNIT * x
  {
    assert Sh(x, 2) == 0x1_0000_0000_0000_0000 * x by { assert Sh(x, 1) == W * Sh(x, 0); }
    assert Sh(x, 4) == 0x1_0000_0000_0000_0000 * Sh(x, 2) by { assert Sh(x, 3) == W * Sh(x, 2); }
    assert Sh(x, 6) == 0x1_0000_0000_0000_0000 * Sh(x, 4) by { assert Sh(x, 5) == W * Sh(x, 4); }
    assert Sh(x, 8) == 0x1_0000_0000_0000_0000 * Sh(x, 6) by { assert Sh(x, 7) == W * Sh(x, 6); }
  }

  lemma EightMore(m: seq<word>, p: nat, n: nat)
    requires p + 8 + n <= |m|
    ensures V(m, p, 8 + n) == V(m, p, 8) + UNIT * V(m, p + 8, n)
  {
    hide V, Sh;
    Split(m, p, 8, n);
    ShEight(V(m, p + 8, n));
  }

  lemma Sixteen0()
    ensures V(Modulus(), 0, 16)
         == 0xba1519a15efa55ffe569c5fc96d7f927bf77b6d6193bbd8f31c4a05eeb96841d
          + UNIT * 0x91fd3a9ebc8c0457e7ee26ad19d2974dc11f00e38d5b5eb2e84b25f81b32a36f
  {
    hide V, Modulus;
    var m := Modulus0();
    Sixteens();
    assert m[0..0 + 16] == Modulus()[0..0 + 16];
    MovedV(Modulus(), 0, m, 0, 16);
    EightMore(m, 0, 8);
    EightWords(m, 0);
    EightWords(m, 8);
  }

  lemma Sixteen1()
    ensures V(Modulus(), 16, 16)
         == 0x390a5a36b15e221669f29f9af97bb445695b3ca272f554fce475aa9e6e37192e
          + UNIT * 0x5250e6fe0a7703d88781ab210032a3dfe957a9b5d238b5b8363dc15e2c0054b3
  {
    hide V, Modulus;
    var m := Modulus1();
    Sixteens();
    assert m[0..0 + 16] == Modulus()[16..16 + 16];
    MovedV(Modulus(), 16, m, 0, 16);
    EightMore(m, 0, 8);
    EightWords(m, 0);
    EightWords(m, 8);
  }

  lemma Sixteen2()
    ensures V(Modulus(), 32, 16)
         == 0x0829ee6d18e4dd48d61a70558606342ac3741ca71e4970e510a931f8b42d2df0
          + UNIT * 0x51be98b0da2d7944ed64060a96e537a7a4037cdbde3c6725e9db63418443fd05
  {
    hide V, Modulus;
    var m := Modulus2();
    Sixteens();
    assert m[0..0 + 16] == Modulus()[32..32 + 16];
    MovedV(Modulus(), 32, m, 0, 16);
    EightMore(m, 0, 8);
    EightWords(m, 0);
    EightWords(m, 8);
  }

  lemma Sixteen3()
    ensures V(Modulus(), 48, 16)
         == 0x0d7a00501928851271a157acde7aa2fedbd26bb04d23ffc1b6a31787315d5780
          + UNIT * 0xd453ec0a34eb20ca0a532f6aae08473dc6f2dc0e96e62735dd331dd5522f69d1
  {
    hide V, Modulus;
    var m := Modulus3();
    Sixteens();
    assert m[0..0 + 16] == Modulus()[48..48 + 16];
    MovedV(Modulus(), 48, m, 0, 16);
    EightMore(m, 0, 8);
    EightWords(m, 0);
    EightWords(m, 8);
  }

  lemma Sixteens()
    ensures Modulus()[0..16] == Modulus0() && Modulus()[16..32] == Modulus1()
    ensures Modulus()[32..48] == Modulus2() && Modulus()[48..64] == Modulus3()
  {
    hide Modulus0, Modulus1, Modulus2, Modulus3;
  }

  /** N, most significant digit first. */
  lemma ModulusLiteral()
    ensures ModulusNumber()
         == 0xd453ec0a34eb20ca0a532f6aae08473dc6f2dc0e96e62735dd331dd5522f69d10d7a00501928851271a157acde7aa2fedbd26bb04d23ffc1b6a31787315d578051be98b0da2d7944ed64060a96e537a7a4037cdbde3c6725e9db63418443fd050829ee6d18e4dd48d61a70558606342ac3741ca71e4970e510a931f8b42d2df05250e6fe0a7703d88781ab210032a3dfe957a9b5d238b5b8363dc15e2c0054b3390a5a36b15e221669f29f9af97bb445695b3ca272f554fce475aa9e6e37192e91fd3a9ebc8c0457e7ee26ad19d2974dc11f00e38d5b5eb2e84b25f81b32a36fba1519a15efa55ffe569c5fc96d7f927bf77b6d6193bbd8f31c4a05eeb96841d
  {
    hide *;
    ModulusIs();
    Sixteen0();
    Sixteen1();
    Sixteen2();
    Sixteen3();
    SixteenMore(Modulus(), 0, 48);
    SixteenMore(Modulus(), 16, 32);
    SixteenMore(Modulus(), 32, 16);
    Joined(V(Modulus(), 0, 16), V(Modulus(), 16, 16), V(Modulus(), 32, 16), V(Modulus(), 48, 16));
  }

  lemma ModulusIs()
    ensures ModulusNumber() == V(Modulus(), 0, 64)
  {
    hide V, Modulus;
  }

  lemma Joined(a: int, b: int, c: int, d: int)
    requires a == 0xba1519a15efa55ffe569c5fc96d7f927bf77b6d6193bbd8f31c4a05eeb96841d
          + UNIT * 0x91fd3a9ebc8c0457e7ee26ad19d2974dc11f00e38d5b5eb2e84b25f81b32a36f
    requires b == 0x390a5a36b15e221669f29f9af97bb445695b3ca272f554fce475aa9e6e37192e
          + UNIT * 0x5250e6fe0a7703d88781ab210032a3dfe957a9b5d238b5b8363dc15e2c0054b3
    requires c == 0x0829ee6d18e4dd48d61a70558606342ac3741ca71e4970e510a931f8b42d2df0
          + UNIT * 0x51be98b0da2d7944ed64060a96e537a7a4037cdbde3c6725e9db63418443fd05
    requires d == 0x0d7a00501928851271a157acde7aa2fedbd26bb04d23ffc1b6a31787315d5780
          + UNIT * 0xd453ec0a34eb20ca0a532f6aae08473dc6f2dc0e96e62735dd331dd5522f69d1
    ensures a + UNIT * (UNIT * (b + UNIT * (UNIT * (c + UNIT * (UNIT * d)))))
         == 0xd453ec0a34eb20ca0a532f6aae08473dc6f2dc0e96e62735dd331dd5522f69d10d7a00501928851271a157acde7aa2fedbd26bb04d23ffc1b6a31787315d578051be98b0da2d7944ed64060a96e537a7a4037cdbde3c6725e9db63418443fd050829ee6d18e4dd48d61a70558606342ac3741ca71e4970e510a931f8b42d2df05250e6fe0a7703d88781ab210032a3dfe957a9b5d238b5b8363dc15e2c0054b3390a5a36b15e221669f29f9af97bb445695b3ca272f554fce475aa9e6e37192e91fd3a9ebc8c0457e7ee26ad19d2974dc11f00e38d5b5eb2e84b25f81b32a36fba1519a15efa55ffe569c5fc96d7f927bf77b6d6193bbd8f31c4a05eeb96841d
  {
  }

  lemma SixteenMore(m: seq<word>, p: nat, n: nat)
    requires p + 16 + n <= |m|
    ensures V(m, p, 16 + n) == V(m, p, 16) + UNIT * (UNIT * V(m, p + 16, n))
  {
    hide V;
    EightMore(m, p, 8 + n);
    EightMore(m, p, 8);
    EightMore(m, p + 8, n);
  }
}
