/** A key for which FastTrack's reduction does forget a borrow. */
module ForgottenBorrow {
  import opened Arithmetic
  import opened Bytes
  import opened Words
  import opened LowLevel
  import opened BigPasses
  import opened BigReduce
  import opened BigPower
  import opened EncModulus
  import opened EncType1

  /** The key's two parts: words 62 and 63, the top byte being the one that is
      put on top of every key, and word 46. All other words are zero. */
  const HIGH: int := 0x01e3ba5a_7875ea43
  const LOW: int := 0xdba51595

  function FailingKey(): (key: seq<byte>)
    ensures |key| == 255
  {
    seq(255, i =>
      if i == 184 then 0x95 else if i == 185 then 0x15 else if i == 186 then 0xa5 else if i == 187 then 0xdb
      else if i == 248 then 0x43 else if i == 249 then 0xea else if i == 250 then 0x75 else if i == 251 then 0x78
      else if i == 252 then 0x5a else if i == 253 then 0xba else if i == 254 then 0xe3 else 0)
  }

  function KeyWords(): (m: seq<word>)
    ensures |m| == 64
  {
    seq(64, i => if i == 46 then 0xdba51595 else if i == 62 then 0x7875ea43 else if i == 63 then 0x01e3ba5a else 0)
  }

  lemma KeyIsWords()
    ensures KeyNumber(FailingKey()) == V(KeyWords(), 0, 64)
  {
    hide V, BytesV;
    var s, m := FailingKey()[..255] + [1], KeyWords();
    forall i | 0 <= i < 64
      ensures m[0 + i] == WordAt(s, i)
    {
    }
    SameValue(s, m, 0, 64);
  }

  lemma KeyParts()
    ensures KeyNumber(FailingKey()) == Sh(LOW, 46) + Sh(HIGH, 62)
  {
    hide V, Sh, KeyNumber, FailingKey;
    var m := KeyWords();
    KeyIsWords();
    Split(m, 0, 62, 2);
    V2(m, 62);
    Split(m, 0, 47, 15);
    Top(m, 0, 46);
    ZeroV(m, 0, 46);
    ZeroV(m, 47, 15);
    ShMono(0, 0, 47);
  }

  /** The square of a number with two parts W^16 apart. */
  lemma SquareParts(l: int, h: int, p: nat, d: nat)
    ensures (Sh(l, p) + Sh(h, p + d)) * (Sh(l, p) + Sh(h, p + d))
         == Sh(l * l + Sh(2 * l * h, d) + Sh(h * h, 2 * d), 2 * p)
  {
    hide Sh;
    var x, y := Sh(l, p), Sh(h, p + d);
    Distribute(x, y, x + y);
    Distribute(x, y, x);
    Distribute(x, y, y);
    PartProduct(l, p, l, p);
    PartProduct(l, p, h, p + d);
    PartProduct(h, p + d, l, p);
    PartProduct(h, p + d, h, p + d);
    ShAdd(l * l, Sh(2 * l * h, d), 2 * p);
    ShAdd(l * l + Sh(2 * l * h, d), Sh(h * h, 2 * d), 2 * p);
    ShSh(2 * l * h, d, 2 * p);
    ShSh(h * h, 2 * d, 2 * p);
    ShAdd(l * h, h * l, 2 * p + d);
    assert 2 * l * h == l * h + h * l;
  }

  lemma PartProduct(x: int, a: nat, y: int, b: nat)
    ensures Sh(x, a) * Sh(y, b) == Sh(x * y, a + b)
  {
    hide Sh;
    ShMul(x, Sh(y, b), a);
    ShMul(x, y, b);
    ShSh(x * y, b, a);
  }

  /** The first window of the reduction of the key's square: the square from
      word 63 on, of which words 0 to 28 are zero. */
  ghost function Window(): int {
    Sh(LOW * LOW, 29) + Sh(2 * LOW * HIGH, 45) + Sh(HIGH * HIGH, 61)
  }

  lemma SquareIsWindow()
    ensures KeyNumber(FailingKey()) * KeyNumber(FailingKey()) == Sh(Window(), 63)
    ensures HighPart(Sh(Window(), 63), 63) == Window()
  {
    hide Sh, Pw, KeyNumber, FailingKey, HighPart, LowPart;
    KeyParts();
    SquareParts(LOW, HIGH, 46, 16);
    var z := LOW * LOW + Sh(2 * LOW * HIGH, 16) + Sh(HIGH * HIGH, 32);
    ShAdd(LOW * LOW, Sh(2 * LOW * HIGH, 16), 29);
    ShAdd(LOW * LOW + Sh(2 * LOW * HIGH, 16), Sh(HIGH * HIGH, 32), 29);
    ShSh(2 * LOW * HIGH, 16, 29);
    ShSh(HIGH * HIGH, 32, 29);
    ShSh(z, 29, 63);
    assert Window() == Sh(z, 29);
    PwOne(63);
    ShMono(0, 0, 63);
    ShMono(0, 1, 63);
    PartsUnique(Sh(Window(), 63), 63, 0, Window());
  }

  const GUESS: int := 282120

  /** Words 45 to 47 of the modulus, and what GUESS times them leaves of the
      window there, modulo W^3. */
  const MIDDLE: int := 0x51be98b0_da2d7944_ed64060a
  const LEFT: int := 0xf04bd6_30f073ae

  /** The three runs of the modulus that matter, and the rest. */
  lemma ModulusParts() returns (m0: int, mA: int)
    ensures V(Modulus(), 0, 64) == m0 + Sh(MIDDLE, 45) + Sh(mA, 48) && 0 <= m0 < Pw(45)
    ensures LowPart(V(Modulus(), 0, 64), 47) == m0 + Sh(MIDDLE % (W * W), 45)
  {
    hide V, Sh, Pw, Modulus, LowPart, HighPart;
    var m := Modulus();
    MiddleWords();
    m0, mA := V(m, 0, 45), V(m, 48, 16);
    Split(m, 0, 48, 16);
    Split(m, 0, 45, 3);
    Top(m, 45, 2);
    V2(m, 45);
    MiddleValue(m);
    Split(m, 0, 47, 17);
    Split(m, 0, 45, 2);
    PartsUnique(V(m, 0, 64), 47, V(m, 0, 47), V(m, 47, 17));
  }

  lemma MiddleWords()
    ensures Modulus()[45] == 0xed64060a && Modulus()[46] == 0xda2d7944 && Modulus()[47] == 0x51be98b0
    ensures Modulus()[61] == 0x0a532f6a && Modulus()[62] == 0x34eb20ca && Modulus()[63] == 0xd453ec0a
  {
    hide Modulus0, Modulus1;
    assert Modulus()[45] == Modulus2()[13] && Modulus()[46] == Modulus2()[14] && Modulus()[47] == Modulus2()[15];
    assert Modulus()[61] == Modulus3()[13] && Modulus()[62] == Modulus3()[14];
  }

  lemma MiddleValue(m: seq<word>)
    requires |m| == 64 && m[45] == 0xed64060a && m[46] == 0xda2d7944 && m[47] == 0x51be98b0
    requires V(m, 45, 2) == m[45] + W * m[46] && V(m, 45, 3) == V(m, 45, 2) + Sh(m[47], 2)
    ensures V(m, 45, 3) == MIDDLE && V(m, 45, 2) == MIDDLE % (W * W)
  {
    assert Sh(m[47], 2) == W * (W * m[47]);
  }

  /** The top words that the guess for the first digit is made from. */
  lemma TopOfModulus()
    ensures HighPart(V(Modulus(), 0, 64), 63) == 0xd453ec0a
  {
    hide V, Sh, Pw, Modulus, HighPart, LowPart;
    var m := Modulus();
    Top(m, 0, 63);
    PartsUnique(V(m, 0, 64), 63, V(m, 0, 63), m[63]);
  }

  lemma TopOfWindow()
    ensures HighPart(Window(), 63) == HIGH * HIGH / (W * W)
  {
    hide Sh, Pw, HighPart, LowPart;
    var top, rest := HIGH * HIGH / (W * W), HIGH * HIGH % (W * W);
    BelowMiddle();
    ShAdd(rest, 1, 61);
    ShMono(rest + 1, W * W, 61);
    ShMono(0, rest, 61);
    PwOne(61);
    TwoWordsUp(1, 61);
    PwOne(63);
    TwoWordsUp(top, 61);
    ShAdd(rest, W * W * top, 61);
    PartsUnique(Window(), 63, Sh(LOW * LOW, 29) + Sh(2 * LOW * HIGH, 45) + Sh(rest, 61), top);
  }

  /** The lower two terms of the window stay below word 61. */
  lemma BelowMiddle()
    ensures 0 <= Sh(LOW * LOW, 29) < Pw(45)
    ensures 0 <= Sh(LOW * LOW, 29) + Sh(2 * LOW * HIGH, 45) < Pw(61)
  {
    hide Sh, Pw;
    ShMono(0, LOW * LOW, 29);
    ShMono(LOW * LOW, W * W, 29);
    TwoWordsUp(1, 29);
    PwOne(31);
    PwGrows(31, 45);
    var x := 2 * LOW * HIGH;
    ShMono(0, x, 45);
    ShMono(x + 1, W * (W * W), 45);
    ShAdd(x, 1, 45);
    PwOne(45);
    ThreeWordsUp(1, 45);
    PwOne(48);
    PwGrows(48, 61);
  }

  lemma TwoWordsUp(x: int, n: nat)
    ensures Sh(W * W * x, n) == Sh(x, n + 2)
  {
    hide Sh;
    ShW(W * x, n);
    ShW(x, n + 1);
    assert W * W * x == W * (W * x);
  }

  lemma ThreeWordsUp(x: int, n: nat)
    ensures Sh(W * (W * W) * x, n) == Sh(x, n + 3)
  {
    hide Sh;
    TwoWordsUp(W * x, n);
    ShW(x, n + 2);
    assert W * (W * W) * x == W * W * (W * x);
  }

  /** What the guess leaves still contains the modulus. */
  lemma PassNeeded()
    ensures GUESS * V(Modulus(), 0, 64) + V(Modulus(), 0, 64) <= Window()
  {
    hide V, Sh, Pw, Modulus;
    var m := Modulus();
    MiddleWords();
    Split(m, 0, 61, 3);
    Top(m, 61, 2);
    V2(m, 61);
    var t := V(m, 61, 3);
    TopThree(m);
    ShAdd(t, 1, 61);
    PwOne(61);
    MulMonotone(GUESS + 1, V(m, 0, 64), Sh(t + 1, 61));
    ShMul(GUESS + 1, t + 1, 61);
    ShMono((GUESS + 1) * (t + 1), HIGH * HIGH, 61);
    BelowMiddle();
  }

  lemma TopThree(m: seq<word>)
    requires |m| == 64 && m[61] == 0x0a532f6a && m[62] == 0x34eb20ca && m[63] == 0xd453ec0a
    requires V(m, 61, 2) == m[61] + W * m[62] && V(m, 61, 3) == V(m, 61, 2) + Sh(m[63], 2)
    ensures (GUESS + 1) * (V(m, 61, 3) + 1) <= HIGH * HIGH
  {
    assert Sh(m[63], 2) == W * (W * m[63]);
  }

  /** The first pass finds word 47 zero with a borrow coming in. */
  lemma DropsAt47()
    ensures DropAt(Window() - GUESS * V(Modulus(), 0, 64), V(Modulus(), 0, 64), 47)
  {
    hide V, Sh, Pw, Modulus, LowPart, HighPart;
    var m0, mA := ModulusParts();
    var m := V(Modulus(), 0, 64);
    var h := HIGH * HIGH;
    BelowMiddle();
    ShSh(h, 16, 45);
    ShSh(h, 13, 48);
    RunLeft(m0, mA, m, Sh(LOW * LOW, 29), Window() - GUESS * m, Sh(h, 13));
  }

  lemma RunLeft(m0: int, mA: int, m: int, w0: int, r: int, wA: int)
    requires m == m0 + Sh(MIDDLE, 45) + Sh(mA, 48) && 0 <= m0 < Pw(45) && 0 <= w0 < Pw(45)
    requires LowPart(m, 47) == m0 + Sh(MIDDLE % (W * W), 45)
    requires r == w0 + Sh(2 * LOW * HIGH, 45) + Sh(wA, 48) - GUESS * m
    ensures DropAt(r, m, 47)
  {
    hide Sh, Pw, LowPart, HighPart;
    var d := w0 - GUESS * m0;
    Parts(d, 45);
    var s, k := LowPart(d, 45), HighPart(d, 45);
    BorrowBounds(m0, w0, k, s);
    var u := LEFT + k;
    LeftOver();
    Distribute(m0 + Sh(MIDDLE, 45), Sh(mA, 48), GUESS);
    Distribute(m0, Sh(MIDDLE, 45), GUESS);
    ShMul(GUESS, MIDDLE, 45);
    ShMul(GUESS, mA, 48);
    ShAdd(2 * LOW * HIGH, GUESS * MIDDLE, 45);
    ShAdd(LEFT, W * (W * W) * -90085, 45);
    ThreeWordsUp(-90085, 45);
    ShAdd(LEFT, k, 45);
    var g := wA - GUESS * mA - 90085;
    ShAdd(wA, GUESS * mA, 48);
    ShAdd(wA - GUESS * mA, 90085, 48);
    ShAdd(0, 90085, 48);
    ShMono(0, 0, 48);
    assert r == s + Sh(u, 45) + Sh(g, 48);
    WordIsZero(s, u, g, r);
    ShMono(u + 1, MIDDLE % (W * W), 45);
    ShAdd(u, 1, 45);
    PwOne(45);
  }

  /** The lowest 45 words of GUESS * m borrow at most GUESS from above. */
  lemma BorrowBounds(m0: int, w0: int, k: int, s: int)
    requires 0 <= m0 < Pw(45) && 0 <= w0 < Pw(45) && 0 <= s < Pw(45) && w0 - GUESS * m0 == s + Sh(k, 45)
    ensures -GUESS <= k <= 0
  {
    hide Sh, Pw;
    ShIsMul(k, 45);
    if k > 0 { MulMonotone(Pw(45), 1, k); }
    if k < -GUESS { MulMonotone(Pw(45), k, -GUESS - 1); }
  }

  lemma LeftOver()
    ensures 2 * LOW * HIGH - GUESS * MIDDLE == LEFT + W * (W * W) * -90085
    ensures GUESS <= LEFT < MIDDLE % (W * W)
  {
  }

  lemma WordIsZero(s: int, u: int, g: int, r: int)
    requires 0 <= s < Pw(45) && 0 <= u && u + 1 <= W * W && r == s + Sh(u, 45) + Sh(g, 48)
    ensures HighPart(r, 47) % W == 0 && LowPart(r, 47) == s + Sh(u, 45)
  {
    hide Sh, Pw, LowPart, HighPart;
    ShMono(0, u, 45);
    ShMono(u + 1, W * W, 45);
    ShAdd(u, 1, 45);
    PwOne(45);
    TwoWordsUp(1, 45);
    PwOne(47);
    ShW(g, 47);
    PartsUnique(r, 47, s + Sh(u, 45), W * g);
    DivUnique(W * g, W, g, 0);
  }

  /** The very first reduction of this key forgets a borrow. The key is one the
      function takes: any 255 bytes are. */
  lemma KeyForgetsBorrow()
    ensures var K, N := KeyNumber(FailingKey()), ModulusNumber();
      && !Clean(K * K, N, 64, 64) && !CleanRun(1, K, N, 64, 2) && Forgotten(K * K, N, 64, 64) > 0
  {
    hide *;
    var K, N := KeyNumber(FailingKey()), ModulusNumber();
    SquareIsWindow();
    TopOfModulus();
    TopOfWindow();
    PassNeeded();
    DropsAt47();
    ModulusIs();
    ModulusTame();
    WindowFits();
    FirstDigitDrops(K * K, Window(), N);
    FirstDigitForgets(K * K, Window(), N);
    RunStep(1, K, N, 64, 2);
  }

  lemma FirstDigitDrops(x: int, w: int, m: int)
    requires HighPart(x, 63) == w && 0 < m && HighPart(m, 63) == 0xd453ec0a
    requires HighPart(w, 63) == HIGH * HIGH / (W * W) && GUESS * m + m <= w
    requires DropAt(w - GUESS * m, m, 47)
    ensures !Clean(x, m, 64, 64)
  {
    hide HighPart, LowPart, DropAt, CleanPasses;
    var r := w - GUESS * m;
    assert HIGH * HIGH / (W * W) / (0xd453ec0a + 1) == GUESS;
    assert FirstRemainder(w, m, 64) == r;
    PassesFirst(r, m, 64);
    assert !NoDrop(r, m, 64);
  }

  lemma WindowFits()
    ensures Window() < Pw(65)
  {
    hide Sh, Pw;
    var h := HIGH * HIGH;
    BelowMiddle();
    ShAdd(h, 1, 61);
    ShMono(h + 1, W * W * (W * W), 61);
    PwOne(61);
    TwoWordsUp(W * W, 61);
    TwoWordsUp(1, 63);
    PwOne(65);
  }

  lemma FirstDigitForgets(x: int, w: int, m: int)
    requires HighPart(x, 63) == w < Pw(65) && Tame(m, 64) && HighPart(m, 63) == 0xd453ec0a
    requires HighPart(w, 63) == HIGH * HIGH / (W * W) && GUESS * m + m <= w
    requires DropAt(w - GUESS * m, m, 47)
    ensures Forgotten(x, m, 64, 64) > 0
  {
    hide HighPart, LowPart, DropAt, Tame, Pw, Sh, Lost, AfterPass, NextDigits;
    TamePositive(m, 64);
    var r := w - GUESS * m;
    assert HIGH * HIGH / (W * W) / (0xd453ec0a + 1) == GUESS;
    assert FirstRemainder(w, m, 64) == r;
    DropsLose(r, m, 64);
    assert !NoDrop(r, m, 64);
    RankFalls(r, m, 64);
    assert Excess(r, m, 64) > 0;
    OneDigit(x, m, 64, 63);
    ShMono(0, Excess(r, m, 64), 63);
  }

  lemma TamePositive(m: int, n: nat)
    requires 1 <= n && Tame(m, n)
    ensures m > 0
  {
  }
}
