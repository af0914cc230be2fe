/** FastTrack's stream cipher told from outside: how the draws of the generator
    become the pads, the position and the table it starts with. */
module FstStart {
  import opened Bytes
  import opened Words
  import opened Shifts
  import opened FstCipher
  import opened FstClock
  import opened FstSetup

  /** Some bit of 0x1E6: the pad takes up 20 mixed words. */
  ghost predicate WordsUsed(encType: word) {
    || encType / 0x02 % 2 == 1 || encType / 0x04 % 2 == 1 || encType / 0x20 % 2 == 1
    || encType / 0x40 % 2 == 1 || encType / 0x80 % 2 == 1 || encType / 0x100 % 2 == 1
  }

  /** Bit 0, or no bit of 0x1E7: the pad takes up the cube. */
  ghost predicate CubeUsed(encType: word) {
    encType % 2 == 1 || !WordsUsed(encType)
  }

  lemma Used(encType: word)
    ensures WordsUsed(encType) <==> UsesWords(encType)
    ensures CubeUsed(encType) <==> UsesCube(encType)
    ensures Supported(encType) <==> encType / 0x04 % 2 == 0 && encType / 0x100 % 2 == 0
  {
    hide Flag;
    KindBits(encType);
  }

  /** Draws taken for the cube. */
  ghost function CubeDraws(encType: word): nat {
    if CubeUsed(encType) then 255 else 0
  }

  /** Draws taken up to the end of the words. */
  ghost function PadDraws(encType: word): nat {
    CubeDraws(encType)
    + if WordsUsed(encType) then 20 + encType / 0x02 % 2 + encType / 0x20 % 2 + encType / 0x80 % 2 else 0
  }

  /** The 20 words u[1] to u[20], through the mixers asked for in the order 2, 20,
      80, each with the next draw. */
  ghost function MixedBy(m: Mixers, u: seq<word>, encType: word): seq<word>
    requires |u| >= 24
  {
    var n2 := 20 + encType / 0x02 % 2;
    var n20 := n2 + encType / 0x20 % 2;
    var k2 := if encType / 0x02 % 2 == 1 then m.encType2(u[1..21], u[21]) else u[1..21];
    var k20 := if encType / 0x20 % 2 == 1 then m.encType20(k2, u[n2 + 1]) else k2;
    if encType / 0x80 % 2 == 1 then m.encType80(k20, u[n20 + 1]) else k20
  }

  lemma DrawsFrom(w: seq<word>, seed: word, c: nat)
    requires Draws(w, seed) && c < |w|
    ensures Draws(w[c..], w[c])
  {
  }

  lemma MixIs(on: bool, f: (seq<word>, word) -> seq<word>, key: seq<word>, u: seq<word>, seed: word, n: nat)
    requires Draws(u, seed) && n + 1 < |u|
    ensures Mix(on, f, key, SeedAfter(seed, n)) == if on then (f(key, u[n + 1]), u[n + 1]) else (key, u[n])
  {
    hide Draws, SeedStep;
    DrawnAfter(u, seed, n);
    DrawnAfter(u, seed, n + 1);
    assert SeedAfter(seed, n + 1) == SeedStep(SeedAfter(seed, n));
  }

  lemma WordsDrawn(m: Mixers, u: seq<word>, seed: word, encType: word)
    requires Sized(m) && Draws(u, seed) && |u| >= 24
    ensures MixedWords(m, seed, encType).0 == MixedBy(m, u, encType)
    ensures MixedWords(m, seed, encType).1 == u[20 + encType / 0x02 % 2 + encType / 0x20 % 2 + encType / 0x80 % 2]
  {
    hide Draws, SeedAfter, Seeds, Flag, Mix, Sized;
    KindBits(encType);
    DrawnSeeds(u, seed, 20);
    DrawnAfter(u, seed, 20);
    MixIs(Flag(encType, 1), m.encType2, Seeds(seed, 20), u, seed, 20);
    var n2 := 20 + encType / 0x02 % 2;
    var k2 := Mix(Flag(encType, 1), m.encType2, Seeds(seed, 20), SeedAfter(seed, 20));
    DrawnAfter(u, seed, n2);
    MixIs(Flag(encType, 5), m.encType20, k2.0, u, seed, n2);
    var n20 := n2 + encType / 0x20 % 2;
    var k20 := Mix(Flag(encType, 5), m.encType20, k2.0, k2.1);
    DrawnAfter(u, seed, n20);
    MixIs(Flag(encType, 7), m.encType80, k20.0, u, seed, n20);
  }

  /** The bytes handed to the cube: the draws' upper 15 bits modulo 0xE0. */
  ghost function CubeBytes(w: seq<word>): seq<bv8>
    requires |w| >= 256
  {
    seq(256, i requires 0 <= i < 256 => if i < 255 then (w[i + 1] / 0x2_0000 % 0xE0) as bv8 else 0)
  }

  lemma CubeDrawn(w: seq<word>, seed: word)
    requires Draws(w, seed) && |w| >= 256
    ensures CubeKey(seed) == CubeBytes(w)
  {
    hide Draws, SeedAfter;
    forall i | 0 <= i < 256
      ensures CubeKey(seed)[i] == CubeBytes(w)[i]
    {
      DrawnAfter(w, seed, i);
      if i < 255 {
        DrawnAfter(w, seed, i + 1);
        SmallByte(w[i + 1] / 0x2_0000 % 0xE0);
      }
    }
  }

  lemma SmallByte(x: nat)
    requires x < 0xE0
    ensures Byte(x) == x as bv8
  {
  }

  /** What a byte of a word weighs. */
  ghost function ByteUnit(k: nat): (u: int)
    ensures u > 0
  {
    if k == 0 then 1 else if k == 1 then 0x100 else if k == 2 then 0x1_0000 else 0x100_0000
  }

  /** Byte i of the pad before it is adjusted: the cube's byte xor-ed with byte
      i % 4 of mixed word i / 4, as far as each is used. */
  ghost function StartByte(m: Mixers, w: seq<word>, encType: word, i: nat): bv8
    requires Sized(m) && |w| >= 300 && i < 63
  {
    Xor(if CubeUsed(encType) then m.encType1(CubeBytes(w))[i] else 0,
        if WordsUsed(encType) then WordByte(MixedBy(m, w[CubeDraws(encType)..], encType), i) else 0)
  }

  ghost function WordByte(k: seq<word>, i: nat): bv8 {
    if i / 4 < |k| then (k[i / 4] / ByteUnit(i % 4) % 0x100) as bv8 else 0
  }

  lemma WordByteIs(k: seq<word>, i: nat)
    requires i < 4 * |k|
    ensures WordBytes(k)[i] == WordByte(k, i)
  {
    hide Two;
    var x, e := k[i / 4], i % 4;
    ByteUnits();
    LowByte(x / ByteUnit(e));
    assert x / Two(8 * e) == x / ByteUnit(e);
  }

  lemma ByteUnits()
    ensures Two(0) == 1 && Two(8) == 0x100 && Two(16) == 0x1_0000 && Two(24) == 0x100_0000
    ensures forall e :: 0 <= e < 4 ==> Two(8 * e) == ByteUnit(e)
  {
    hide Two;
    SmallPowers();
    TwoAdd(8, 8);
    TwoAdd(16, 8);
  }

  /** The pad the draws give. */
  ghost predicate StartsAs(pad: seq<bv8>, m: Mixers, w: seq<word>, encType: word)
    requires Sized(m) && |w| >= 300
  {
    |pad| == 63 && forall i :: 0 <= i < 63 ==> pad[i] == StartByte(m, w, encType, i)
  }

  lemma StartPad(m: Mixers, w: seq<word>, seed: word, encType: word)
    requires Sized(m) && Draws(w, seed) && |w| >= 300
    ensures StartsAs(PadInit(m, seed, encType).0, m, w, encType)
    ensures PadInit(m, seed, encType).1 == w[PadDraws(encType)]
  {
    hide Draws, SeedAfter, CubeKey, CubeBytes, MixedWords, MixedBy, WordBytes, WordByte, Xor, UsesWords, UsesCube,
      WordsUsed, Sized;
    Used(encType);
    CubeDrawn(w, seed);
    DrawnAfter(w, seed, 255);
    DrawnAfter(w, seed, 0);
    SeedNow(seed);
    var c := CubeDraws(encType);
    DrawsFrom(w, seed, c);
    var u := w[c..];
    WordsDrawn(m, u, w[c], encType);
    var k := MixedWords(m, w[c], encType).0;
    CubeSize(m, CubeKey(seed));
    forall i | 0 <= i < 63
      ensures PadInit(m, seed, encType).0[i] == StartByte(m, w, encType, i)
    {
      WordByteIs(k, i);
      XorParts(m.encType1(CubeKey(seed))[i], WordByte(k, i));
    }
  }

  lemma CubeSize(m: Mixers, k: seq<bv8>)
    requires Sized(m)
    ensures |m.encType1(k)| == 256
  {
  }

  lemma SeedNow(seed: word)
    ensures SeedAfter(seed, 0) == seed
  {
  }

  lemma XorParts(a: bv8, b: bv8)
    ensures Xor(Xor(0, a), b) == Xor(a, b) && Xor(Xor(0, a), 0) == Xor(a, 0)
    ensures Xor(0, 0) == 0 && Xor(0, a) == a && Xor(a, 0) == a
  {
  }

  /** The position: 63 times the upper half of the draw after the pad's, over
      2^16. */
  lemma StartPosition(m: Mixers, w: seq<word>, seed: word, encType: word, pad16: seq<word>)
    requires Sized(m) && Draws(w, seed) && |w| >= 300 && Supported(encType)
    ensures Initial(m, seed, encType, pad16).pos == w[PadDraws(encType) + 1] / 0x1_0000 * 63 / 0x1_0000
  {
    hide Draws, SeedAfter, PadInit, Adjusted, ModifyThirds, SortWindow, SortPosition, Shuffled, Identity, Rekeyed, Flag;
    StartPad(m, w, seed, encType);
    NextDraw(w, seed, PadDraws(encType));
  }

  lemma NextDraw(w: seq<word>, seed: word, j: nat)
    requires Draws(w, seed) && j + 1 < |w|
    ensures SeedStep(w[j]) == w[j + 1]
  {
  }

  /** a is the start pad p with an odd byte in any case. */
  ghost predicate MadeOdd(p: seq<bv8>, a: seq<bv8>) {
    |a| == |p| == 63
    && (forall i :: 1 <= i < 63 ==> a[i] == p[i])
    && a[0] == if exists i :: 0 <= i < 63 && p[i] & 1 == 1 then p[0] else p[0] | 0x71
  }

  lemma {:induction false} OrOdd(p: seq<bv8>, n: nat)
    requires n <= |p|
    ensures OrAll(p, n) & 1 == 0 <==> forall i :: 0 <= i < n ==> p[i] & 1 != 1
  {
    if n > 0 {
      OrOdd(p, n - 1);
      hide OrAll, ByteOr;
      OrNext(p, n - 1);
      EitherOdd(OrAll(p, n - 1), p[n - 1]);
    } else {
      OrNone(p);
    }
  }

  lemma EitherOdd(a: bv8, b: bv8)
    ensures ByteOr(a, b) & 1 == 0 <==> a & 1 == 0 && b & 1 != 1
  {
  }

  lemma AdjustedOdd(p: seq<bv8>)
    requires |p| == 63
    ensures MadeOdd(p, Adjusted(p))
  {
    hide OrAll;
    OrOdd(p, 63);
  }

  /** b is a with the entries of places i and j exchanged. */
  ghost predicate Exchanged(a: seq<bv8>, b: seq<bv8>, i: nat, j: int) {
    |a| == |b| == 256 && i < 256 && 0 <= j < 256 && b[i] == a[j] && b[j] == a[i]
    && forall k :: 0 <= k < 256 && k != i && k != j ==> b[k] == a[k]
  }

  /** Every place holds its own number. */
  ghost predicate InPlace(t: seq<bv8>) {
    |t| == 256 && forall k :: 0 <= k < 256 ==> t[k] == k as bv8
  }

  /** A place not before i, from the upper half of a draw. */
  ghost function PlaceFrom(x: word, i: nat): int {
    x / 0x1_0000 * (0x100 - i) / 0x1_0000 + i
  }

  /** The table before the first and after each of 256 exchanges: place i with one
      not before it, found from the i-th draw of n. */
  ghost predicate Exchanges(tables: seq<seq<bv8>>, n: seq<word>) {
    && |tables| == |n| == 257 && InPlace(tables[0])
    && forall i :: 0 <= i < 256 ==> Exchanged(tables[i], tables[i + 1], i, PlaceFrom(n[i + 1], i))
  }

  lemma {:induction false} ShuffledBy(tables: seq<seq<bv8>>, n: seq<word>, num: word, i: nat)
    requires Exchanges(tables, n) && Draws(n, num) && i <= 256
    ensures Shuffled(num, i) == tables[i]
    decreases i
  {
    hide Draws, SeedAfter, Identity, Exchanged, InPlace;
    if i == 0 {
      TableStart(tables[0]);
    } else {
      ShuffledBy(tables, n, num, i - 1);
      DrawnAfter(n, num, i);
      var j := Scaled(SeedAfter(num, i), 0x100 - (i - 1)) + (i - 1);
      SwapIs(tables[i - 1], tables[i], i - 1, j);
    }
  }

  lemma TableStart(t: seq<bv8>)
    requires InPlace(t)
    ensures t == Identity()
  {
  }

  lemma SwapIs(a: seq<bv8>, b: seq<bv8>, i: nat, j: nat)
    requires Exchanged(a, b, i, j)
    ensures b == Swapped(a, i, j)
  {
  }

  /** Everything about the state a supported kind starts with: p is the start pad,
      a the same made odd, t the five bytes put in order, n the draws from its
      digest with the tables they give, v the draws from the position. */
  lemma StartState(m: Mixers, w: seq<word>, seed: word, encType: word, pad16: seq<word>, n: seq<word>,
      tables: seq<seq<bv8>>, v: seq<word>) returns (p: seq<bv8>, a: seq<bv8>, t: seq<bv8>)
    requires Sized(m) && Draws(w, seed) && |w| >= 300 && |v| >= 22
    requires Supported(encType)
    requires Draws(v, Initial(m, seed, encType, pad16).pos)
    requires Exchanges(tables, n) && Draws(n, m.md5(Adjusted(PadInit(m, seed, encType).0)))
    ensures StartsAs(p, m, w, encType) && MadeOdd(p, a) && n[0] == m.md5(a)
    ensures var s := Initial(m, seed, encType, pad16);
      && s.pos == w[PadDraws(encType) + 1] / 0x1_0000 * 63 / 0x1_0000
      && s.wrapcount == 0 && s.addToLookup == 0 && s.encType == encType
      && Rearranged(a, s.pad, (s.pos * s.pos + 2) % 59, t)
      && s.lookup == (if encType / 0x08 % 2 == 1 then tables[256] else tables[0])
      && s.pad16 == (if encType / 0x10 % 2 == 1 then m.encType2(v[1..21], v[21]) else pad16)
  {
    hide Draws, Exchanges, PadInit, Adjusted, ModifyThirds, SortWindow, Shuffled, Identity, Rekeyed, Flag, Scaled,
      StartsAs, MadeOdd, Rearranged;
    var s := Initial(m, seed, encType, pad16);
    p := PadInit(m, seed, encType).0;
    a := Adjusted(p);
    StartPad(m, w, seed, encType);
    StartPosition(m, w, seed, encType, pad16);
    AdjustedOdd(p);
    t := RearrangedIs(a, SortPosition(s.pos));
    KindBits(encType);
    ShuffledBy(tables, n, m.md5(a), 256);
    ShuffledBy(tables, n, m.md5(a), 0);
    ShuffledNone(m.md5(a));
    DrawnKey(m, v, s.pos);
    FirstDraw(n, m.md5(a));
  }

  lemma ShuffledNone(num: word)
    ensures Shuffled(num, 0) == Identity()
  {
    hide Identity;
  }

  lemma FirstDraw(n: seq<word>, num: word)
    requires Draws(n, num)
    ensures n[0] == num
  {
  }

  /** The pad, and the generator after it, for the draws from seed. */
  ghost predicate PadFor(m: Mixers, seed: word, encType: word, pad: seq<bv8>, next: word)
    requires Sized(m)
  {
    PadDraws(encType) < 299
    && forall w: seq<word> :: Draws(w, seed) && |w| >= 300 ==>
         StartsAs(pad, m, w, encType) && next == w[PadDraws(encType)]
  }

  /** The position for the draws from seed. */
  ghost predicate PositionFor(seed: word, encType: word, pos: nat) {
    PadDraws(encType) < 299
    && forall w: seq<word> :: Draws(w, seed) && |w| >= 300 ==>
         pos == w[PadDraws(encType) + 1] / 0x1_0000 * 63 / 0x1_0000
  }

  /** x is word 7 of 20 draws from seed, mixed with the next. */
  ghost predicate MaskFor(m: Mixers, seed: word, x: bv32) {
    forall w: seq<word> :: Draws(w, seed) && |w| >= 22 ==>
      |m.encType2(w[1..21], w[21])| == 20 && x == m.encType2(w[1..21], w[21])[7] as bv32
  }

  lemma StartPadAny(m: Mixers, seed: word, encType: word)
    requires Sized(m)
    ensures PadFor(m, seed, encType, PadInit(m, seed, encType).0, PadInit(m, seed, encType).1)
  {
    hide Draws, StartsAs, PadDraws, PadInit, Sized;
    DrawsBounded(encType);
    forall w: seq<word> | Draws(w, seed) && |w| >= 300
      ensures StartsAs(PadInit(m, seed, encType).0, m, w, encType)
      ensures PadInit(m, seed, encType).1 == w[PadDraws(encType)]
    {
      StartPad(m, w, seed, encType);
    }
  }

  lemma DrawsBounded(encType: word)
    ensures PadDraws(encType) < 299
  {
    hide WordsUsed;
  }

  lemma StartPositionAny(m: Mixers, seed: word, encType: word, pad16: seq<word>)
    requires Sized(m) && Supported(encType)
    ensures PositionFor(seed, encType, Initial(m, seed, encType, pad16).pos)
  {
    hide Draws, PadDraws, Initial, Sized, Supported;
    DrawsBounded(encType);
    forall w: seq<word> | Draws(w, seed) && |w| >= 300
      ensures Initial(m, seed, encType, pad16).pos == w[PadDraws(encType) + 1] / 0x1_0000 * 63 / 0x1_0000
    {
      StartPosition(m, w, seed, encType, pad16);
    }
  }

  ghost function MangleKey(m: Mixers, seed: word): bv32
    requires Sized(m)
  {
    Rekeyed(m, seed)[7] as bv32
  }

  lemma MaskAny(m: Mixers, seed: word)
    requires Sized(m)
    ensures MaskFor(m, seed, MangleKey(m, seed))
  {
    hide Draws, Rekeyed, Sized;
    RekeyedSize(m, seed);
    forall w: seq<word> | Draws(w, seed) && |w| >= 22
      ensures Rekeyed(m, seed) == m.encType2(w[1..21], w[21])
    {
      DrawnKey(m, w, seed);
    }
  }
}
