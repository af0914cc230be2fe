/** FastTrack's stream cipher: what a clock does to its state. */
module FstCipher {
  import opened Bytes
  import opened Words
  import opened Shifts
  import opened FstSort

  const PAD_SIZE: nat := 63

  /** The key-mixing functions, of which only the sizes matter here. */
  datatype Mixers = Mixers(
    encType1: seq<bv8> -> seq<bv8>,
    encType2: (seq<word>, word) -> seq<word>,
    encType20: (seq<word>, word) -> seq<word>,
    encType80: (seq<word>, word) -> seq<word>,
    md5: seq<bv8> -> word)

  ghost predicate Sized(m: Mixers) {
    && (forall k :: |m.encType1(k)| == 256)
    && (forall k, s :: |k| == 20 ==> |m.encType2(k, s)| == 20)
    && (forall k, s :: |k| == 20 ==> |m.encType20(k, s)| == 20)
    && (forall k, s :: |k| == 20 ==> |m.encType80(k, s)| == 20)
  }

  /** Bit k of a word. */
  predicate Flag(x: word, k: nat) {
    x / Two(k) % 2 == 1
  }

  function SeedStep(seed: word): word {
    (0x10dcd * seed + 0x4271) % W
  }

  /** n steps on. */
  function SeedAfter(seed: word, n: nat): word {
    if n == 0 then seed else SeedStep(SeedAfter(seed, n - 1))
  }

  /** The next n seeds. */
  function Seeds(seed: word, n: nat): (s: seq<word>)
    ensures |s| == n
  {
    seq(n, i requires 0 <= i < n => SeedAfter(seed, i + 1))
  }

  function Byte(x: word): bv8 {
    (x % 0x100) as bv8
  }

  predicate Odd(b: bv8) {
    b & 1 == 1
  }

  datatype State = State(
    pos: nat,
    wrapcount: word,
    addToLookup: word,
    encType: word,
    pad: seq<bv8>,
    lookup: seq<bv8>,
    pad16: seq<word>)

  /** All 256 byte values in 256 places: each exactly once. */
  ghost predicate IsPermutation(s: seq<bv8>) {
    |s| == 256 && forall b: bv8 :: b in s
  }

  predicate Shaped(s: State) {
    s.pos < PAD_SIZE && |s.pad| == PAD_SIZE && |s.lookup| == 256 && |s.pad16| == 20
  }

  ghost predicate SomeOdd(pad: seq<bv8>) {
    exists i :: 0 <= i < |pad| && Odd(pad[i])
  }

  /** What holds of a cipher between any two clocks. */
  ghost predicate Sound(s: State) {
    && Shaped(s) && IsPermutation(s.lookup)
    && s.addToLookup == (if Flag(s.encType, 3) then s.wrapcount else 0)
    && (!Flag(s.encType, 4) ==> SomeOdd(s.pad))
  }

  /** The five bytes from p on in order. */
  function SortWindow(pad: seq<bv8>, p: nat): (r: seq<bv8>)
    requires p + 5 <= |pad|
    ensures |r| == |pad|
  {
    pad[..p] + Sort(pad[p..p + 5]) + pad[p + 5..]
  }

  function Third(b: bv8, i: nat): bv8
    requires i < 256
  {
    (!b + i as bv8) | 1
  }

  /** Every third byte, from the fifth on, inverted, shifted and made odd. */
  function ModifyThirds(pad: seq<bv8>): (r: seq<bv8>)
    requires |pad| == PAD_SIZE
    ensures |r| == |pad|
  {
    seq(PAD_SIZE, i requires 0 <= i < PAD_SIZE => if i >= 5 && i % 3 == 2 then Third(pad[i], i) else pad[i])
  }

  /** Where the sorted window begins: it always ends within the pad. */
  function SortPosition(x: int): (p: nat)
    ensures p + 5 <= PAD_SIZE
  {
    (x * x + 2) % (PAD_SIZE - 4)
  }

  function Plus(a: bv8, b: bv8): bv8 {
    a + b
  }

  /** The running total at the current position. */
  function Total(pos: nat, pad: seq<bv8>): bv8
    requires pos < PAD_SIZE == |pad|
  {
    Plus(pad[pos], pad[if pos > 0 then pos - 1 else PAD_SIZE - 1])
  }

  function Summed(pos: nat, pad: seq<bv8>): (r: seq<bv8>)
    requires pos < PAD_SIZE == |pad|
    ensures |r| == PAD_SIZE
  {
    pad[pos := Total(pos, pad)]
  }

  /** The pad after the total, rearranged now and then. */
  function Mangled(pos: nat, pad: seq<bv8>): (r: seq<bv8>)
    requires pos < PAD_SIZE == |pad|
    ensures |r| == PAD_SIZE
  {
    var xor, summed := Total(pos, pad), Summed(pos, pad);
    if pos == 7 && xor & 0x70 == 0 then
      ModifyThirds(SortWindow(summed, SortPosition(xor as int + summed[2] as int)))
    else summed
  }

  /** n bytes of the second pad mixed into the first. */
  function Mixed(pad: seq<bv8>, pad16: seq<word>, offset: nat, shift: nat, n: nat): (r: seq<bv8>)
    requires n <= |pad16| && offset + n <= |pad|
    ensures |r| == |pad|
  {
    if n == 0 then pad else
      var r := Mixed(pad, pad16, offset, shift, n - 1);
      r[offset + n - 1 := Xor(r[offset + n - 1], ShiftedByte(pad16[n - 1], shift))]
  }

  function ShiftedByte(x: word, shift: nat): bv8 {
    Byte(x / Two(shift) % W)
  }

  /** Six bytes of the second pad go into the first, never beyond its end, and
      one of them gets a bit set. */
  function Merged(pad: seq<bv8>, pad16: seq<word>): (r: seq<bv8>)
    requires |pad| == PAD_SIZE && |pad16| == 20
    ensures |r| == PAD_SIZE
  {
    var offset := LowBits(pad[0x19], 32);
    var mixed := Mixed(pad, pad16, offset, LowBits(pad[0x18], 16), 6);
    mixed[offset + 4 := SetBit(mixed[offset + 4], mixed[0x0A])]
  }

  function LowBits(b: bv8, n: nat): (r: nat)
    requires 0 < n
    ensures r < n
  {
    b as int % n
  }

  /** b with the bit numbered by the low bits of which. */
  function SetBit(b: bv8, which: bv8): bv8 {
    b | OneBit(which)
  }

  function OneBit(b: bv8): bv8 {
    1 << (b & 7)
  }

  function Rekeyed(m: Mixers, wrapcount: word): seq<word> {
    m.encType2(Seeds(wrapcount, 20), SeedAfter(wrapcount, 21))
  }

  /** The state after a clock. */
  function Next(m: Mixers, s: State): State
    requires Shaped(s)
  {
    var pad := Mangled(s.pos, s.pad);
    if s.pos + 1 < PAD_SIZE then s.(pos := s.pos + 1, pad := pad)
    else
      var wrapcount := (s.wrapcount + 1) % W;
      s.(pos := 0, wrapcount := wrapcount,
         addToLookup := if Flag(s.encType, 3) then (s.addToLookup + 1) % W else s.addToLookup,
         pad := if Flag(s.encType, 4) then Merged(pad, s.pad16) else pad,
         pad16 := if Flag(s.encType, 4) && wrapcount % 16 == 0 then Rekeyed(m, wrapcount) else s.pad16)
  }

  /** The byte a clock puts out. */
  function Output(m: Mixers, s: State): bv8
    requires Shaped(s)
  {
    var at := (Next(m, s).addToLookup + Total(s.pos, s.pad) as int) % 256;
    s.lookup[at]
  }

  // Parity

  lemma SumParity(a: bv8, b: bv8)
    ensures Odd(Plus(a, b)) <==> Odd(a) != Odd(b)
  {
  }

  lemma ThirdIsOdd(b: bv8, i: nat)
    requires i < 256
    ensures Odd(Third(b, i))
  {
  }

  lemma ThirdsSomeOdd(pad: seq<bv8>)
    requires |pad| == PAD_SIZE
    ensures SomeOdd(ModifyThirds(pad))
  {
    hide Third, Odd;
    ThirdIsOdd(pad[5], 5);
    assert Odd(ModifyThirds(pad)[5]);
  }

  lemma SummedSomeOdd(pos: nat, pad: seq<bv8>)
    requires pos < PAD_SIZE == |pad| && SomeOdd(pad)
    ensures SomeOdd(Summed(pos, pad))
  {
    hide Odd, Plus;
    var last := if pos > 0 then pos - 1 else PAD_SIZE - 1;
    var r := Summed(pos, pad);
    SumParity(pad[pos], pad[last]);
    var i :| 0 <= i < PAD_SIZE && Odd(pad[i]);
    if i != pos {
      assert Odd(r[i]);
    } else {
      assert Odd(r[if Odd(pad[last]) then last else pos]);
    }
  }

  /** A clock keeps what holds between clocks. */
  lemma NextSound(m: Mixers, s: State)
    requires Sized(m) && Sound(s)
    ensures Sound(Next(m, s)) && Next(m, s).lookup == s.lookup && Next(m, s).encType == s.encType
  {
    hide Merged, Rekeyed, Mangled, Flag, Odd, IsPermutation;
    if !Flag(s.encType, 4) {
      StillOdd(s.pos, s.pad);
    }
    RekeyedSize(m, (s.wrapcount + 1) % W);
  }

  lemma RekeyedSize(m: Mixers, w: word)
    requires Sized(m)
    ensures |Rekeyed(m, w)| == 20
  {
  }

  lemma StillOdd(pos: nat, pad: seq<bv8>)
    requires pos < PAD_SIZE == |pad| && SomeOdd(pad)
    ensures SomeOdd(Mangled(pos, pad))
  {
    hide SortWindow, ModifyThirds, Odd, SomeOdd, Summed, Total, SortPosition;
    SummedSomeOdd(pos, pad);
    var xor, summed := Total(pos, pad), Summed(pos, pad);
    ThirdsSomeOdd(SortWindow(summed, SortPosition(xor as int + summed[2] as int)));
  }

  lemma NextShaped(m: Mixers, s: State)
    requires Sized(m) && Shaped(s)
    ensures Shaped(Next(m, s))
  {
    hide Merged, Rekeyed, Mangled, Flag;
    RekeyedSize(m, (s.wrapcount + 1) % W);
  }

  /** n clocks on. */
  ghost function Run(m: Mixers, s: State, n: nat): (r: State)
    requires Shaped(s) && Sized(m)
    ensures Shaped(r)
  {
    if n == 0 then s else
      var r := Run(m, s, n - 1);
      NextShaped(m, r);
      Next(m, r)
  }

  /** What n clocks put out. */
  ghost function Keystream(m: Mixers, s: State, n: nat): (k: seq<bv8>)
    requires Shaped(s) && Sized(m)
    ensures |k| == n
  {
    seq(n, i requires 0 <= i < n => Output(m, Run(m, s, i)))
  }

  /** Over any run the invariant holds, the key stays, and position and count
      of wraps are those of n steps around the pad. */
  lemma {:induction false} RunInvariant(m: Mixers, s: State, n: nat)
    requires Sized(m) && Sound(s)
    ensures Sound(Run(m, s, n))
    ensures Run(m, s, n).lookup == s.lookup && Run(m, s, n).encType == s.encType
    ensures Run(m, s, n).pos == (s.pos + n) % PAD_SIZE
    ensures Run(m, s, n).wrapcount == (s.wrapcount + (s.pos + n) / PAD_SIZE) % W
  {
    hide Sound, Sized, Next;
    SoundShaped(s);
    if n > 0 {
      RunInvariant(m, s, n - 1);
      var r := Run(m, s, n - 1);
      NextSound(m, r);
      NextCounts(m, r);
      Counting(s.pos, s.wrapcount, n, r.pos, r.wrapcount);
    }
  }

  lemma SoundShaped(s: State)
    requires Sound(s)
    ensures Shaped(s)
  {
  }

  lemma NextCounts(m: Mixers, s: State)
    requires Shaped(s)
    ensures Next(m, s).pos == (s.pos + 1) % PAD_SIZE
    ensures Next(m, s).wrapcount == if s.pos + 1 == PAD_SIZE then (s.wrapcount + 1) % W else s.wrapcount
  {
    hide Merged, Rekeyed, Mangled, Flag;
  }

  lemma Counting(pos: nat, wraps: word, n: nat, p: nat, w: word)
    requires 0 < n && p == (pos + n - 1) % PAD_SIZE && w == (wraps + (pos + n - 1) / PAD_SIZE) % W
    ensures (p + 1) % PAD_SIZE == (pos + n) % PAD_SIZE
    ensures (if p + 1 == PAD_SIZE then (w + 1) % W else w) == (wraps + (pos + n) / PAD_SIZE) % W
  {
  }

  lemma {:induction false} RunAdd(m: Mixers, s: State, a: nat, b: nat)
    requires Shaped(s) && Sized(m)
    ensures Run(m, Run(m, s, a), b) == Run(m, s, a + b)
    decreases b
  {
    hide Sized, Next, Shaped;
    if b > 0 {
      RunAdd(m, s, a, b - 1);
    }
  }

  /** A keystream does not depend on how it is drawn. */
  lemma KeystreamAdd(m: Mixers, s: State, a: nat, b: nat)
    requires Shaped(s) && Sized(m)
    ensures Keystream(m, s, a + b) == Keystream(m, s, a) + Keystream(m, Run(m, s, a), b)
  {
    hide Sized, Next, Shaped, Output;
    forall i | 0 <= i < b
      ensures Keystream(m, Run(m, s, a), b)[i] == Output(m, Run(m, s, a + i))
    {
      RunAdd(m, s, a, i);
    }
  }

  function Mask(data: seq<bv8>, key: seq<bv8>): (r: seq<bv8>)
    requires |key| == |data|
    ensures |r| == |data|
  {
    seq(|data|, i requires 0 <= i < |data| => Xor(data[i], key[i]))
  }

  lemma MaskTwice(data: seq<bv8>, key: seq<bv8>)
    requires |key| == |data|
    ensures Mask(Mask(data, key), key) == data
  {
    hide Xor;
    forall i | 0 <= i < |data|
      ensures Mask(Mask(data, key), key)[i] == data[i]
    {
      XorLaws(data[i], key[i]);
    }
  }
}
