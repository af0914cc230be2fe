/** FastTrack's stream cipher: the state a seed and a kind of encryption give. */
module FstSetup {
  import opened Arithmetic
  import opened Bytes
  import opened Words
  import opened Shifts
  import opened FstCipher

  /** Some bit of 0x1E6. */
  predicate UsesWords(encType: word) {
    Flag(encType, 1) || Flag(encType, 2) || Flag(encType, 5) || Flag(encType, 6) || Flag(encType, 7) || Flag(encType, 8)
  }

  /** Bit 0, or no bit of 0x1E7. */
  predicate UsesCube(encType: word) {
    Flag(encType, 0) || !UsesWords(encType)
  }

  /** Two kinds of mixing were never implemented. */
  predicate Supported(encType: word) {
    !Flag(encType, 2) && !Flag(encType, 8)
  }

  function XorInto(pad: seq<bv8>, key: seq<bv8>): (r: seq<bv8>)
    requires |pad| == PAD_SIZE <= |key|
    ensures |r| == PAD_SIZE
  {
    seq(PAD_SIZE, i requires 0 <= i < PAD_SIZE => Xor(pad[i], key[i]))
  }

  /** The bytes handed to the first kind of mixing. */
  function CubeKey(seed: word): (r: seq<bv8>)
    ensures |r| == 256
  {
    seq(256, i requires 0 <= i < 256 => if i < 255 then Byte(SeedAfter(seed, i + 1) / 0x20000 % 0xE0) else 0)
  }

  function Blank(): (r: seq<bv8>)
    ensures |r| == PAD_SIZE
  {
    seq(PAD_SIZE, i => 0)
  }

  ghost function CubePad(m: Mixers, seed: word, encType: word): (r: (seq<bv8>, word))
    requires Sized(m)
    ensures |r.0| == PAD_SIZE
  {
    if UsesCube(encType) then (XorInto(Blank(), m.encType1(CubeKey(seed))), SeedAfter(seed, 255)) else (Blank(), seed)
  }

  /** One optional kind of mixing of the 20 words. */
  function Mix(on: bool, f: (seq<word>, word) -> seq<word>, key: seq<word>, seed: word): (seq<word>, word) {
    if on then (f(key, SeedStep(seed)), SeedStep(seed)) else (key, seed)
  }

  /** The 20 words after all kinds of mixing asked for. */
  ghost function MixedWords(m: Mixers, seed: word, encType: word): (r: (seq<word>, word))
    requires Sized(m)
    ensures |r.0| == 20
  {
    var k2 := Mix(Flag(encType, 1), m.encType2, Seeds(seed, 20), SeedAfter(seed, 20));
    var k20 := Mix(Flag(encType, 5), m.encType20, k2.0, k2.1);
    Mix(Flag(encType, 7), m.encType80, k20.0, k20.1)
  }

  /** Words as bytes, least significant first. */
  function WordBytes(key: seq<word>): (r: seq<bv8>)
    ensures |r| == 4 * |key|
  {
    seq(4 * |key|, i requires 0 <= i < 4 * |key| => Byte(key[i / 4] / Two(8 * (i % 4)) % W))
  }

  ghost function PadInit(m: Mixers, seed: word, encType: word): (r: (seq<bv8>, word))
    requires Sized(m)
    ensures |r.0| == PAD_SIZE
  {
    var cube := CubePad(m, seed, encType);
    if UsesWords(encType) then
      var words := MixedWords(m, cube.1, encType);
      (XorInto(cube.0, WordBytes(words.0)), words.1)
    else cube
  }

  function ByteOr(a: bv8, b: bv8): bv8 {
    a | b
  }

  /** All bytes or-ed together. */
  function OrAll(pad: seq<bv8>, n: nat): bv8
    requires n <= |pad|
  {
    if n == 0 then 0 else ByteOr(OrAll(pad, n - 1), pad[n - 1])
  }

  /** The pad with an odd byte in any case. */
  function Adjusted(pad: seq<bv8>): (r: seq<bv8>)
    requires |pad| == PAD_SIZE
    ensures |r| == PAD_SIZE
  {
    if OrAll(pad, PAD_SIZE) & 1 == 0 then pad[0 := ByteOr(pad[0], 0x71)] else pad
  }

  /** A number below val from the top half of a seed. */
  function Scaled(seed: word, val: nat): (r: nat)
    ensures val > 0 ==> r < val
  {
    ScaledBelow(seed / 0x1_0000, val);
    (seed / 0x1_0000) * val / 0x1_0000
  }

  lemma ScaledBelow(t: nat, val: nat)
    requires t < 0x1_0000
    ensures 0 <= t * val && t * val / 0x1_0000 >= 0 && (val > 0 ==> t * val / 0x1_0000 < val)
  {
    MulMonotone(val, t, 0xFFFF);
  }

  function Swapped(s: seq<bv8>, i: nat, j: nat): (r: seq<bv8>)
    requires i < |s| && j < |s|
    ensures |r| == |s|
  {
    s[i := s[j]][j := s[i]]
  }

  function Identity(): (r: seq<bv8>)
    ensures |r| == 256
  {
    seq(256, i requires 0 <= i < 256 => i as bv8)
  }

  /** The table after its first n places were exchanged with places not before
      them. */
  function Shuffled(num: word, n: nat): (r: seq<bv8>)
    requires n <= 256
    ensures |r| == 256
  {
    if n == 0 then Identity() else
      Swapped(Shuffled(num, n - 1), n - 1, Scaled(SeedAfter(num, n), 0x100 - (n - 1)) + (n - 1))
  }

  /** The state a seed and a kind of encryption give; the second pad keeps what
      it held unless it is used. */
  ghost function Initial(m: Mixers, seed: word, encType: word, pad16: seq<word>): State
    requires Sized(m) && Supported(encType)
  {
    var start := PadInit(m, seed, encType);
    var pad := Adjusted(start.0);
    var pos := Scaled(SeedStep(start.1), 63);
    State(pos, 0, 0, encType,
          ModifyThirds(SortWindow(pad, SortPosition(pos))),
          if Flag(encType, 3) then Shuffled(m.md5(pad), 256) else Identity(),
          if Flag(encType, 4) then Rekeyed(m, pos) else pad16)
  }

  lemma SwapKeeps(s: seq<bv8>, i: nat, j: nat)
    requires IsPermutation(s) && i < 256 && j < 256
    ensures IsPermutation(Swapped(s, i, j))
  {
    var t := Swapped(s, i, j);
    forall b: bv8
      ensures b in t
    {
      assert b in s;
      var k :| 0 <= k < |s| && s[k] == b;
      assert t[if k == i then j else if k == j then i else k] == b;
    }
  }

  lemma NumberRoundTrip(b: bv8)
    ensures (b as int) as bv8 == b
  {
  }

  lemma IdentityHas(b: bv8)
    ensures b in Identity()
  {
    NumberRoundTrip(b);
    assert Identity()[b as int] == b;
  }

  lemma IdentityPermutes()
    ensures IsPermutation(Identity())
  {
    hide Identity;
    forall b: bv8
      ensures b in Identity()
    {
      IdentityHas(b);
    }
  }

  lemma {:induction false} ShuffleKeeps(num: word, n: nat)
    requires n <= 256
    ensures IsPermutation(Shuffled(num, n))
  {
    hide IsPermutation, Identity, Swapped;
    if n == 0 {
      IdentityPermutes();
    } else {
      ShuffleKeeps(num, n - 1);
      SwapKeeps(Shuffled(num, n - 1), n - 1, Scaled(SeedAfter(num, n), 0x100 - (n - 1)) + (n - 1));
    }
  }

  /** Every cipher that could be set up starts sound. */
  lemma InitialSound(m: Mixers, seed: word, encType: word, pad16: seq<word>)
    requires Sized(m) && Supported(encType) && |pad16| == 20
    ensures Sound(Initial(m, seed, encType, pad16))
  {
    hide IsPermutation, Identity, Shuffled, Scaled, SortWindow, ModifyThirds, SortPosition, Rekeyed, Flag, PadInit,
      Adjusted, Odd;
    var start := PadInit(m, seed, encType);
    var pad := Adjusted(start.0);
    var pos := Scaled(SeedStep(start.1), 63);
    ThirdsSomeOdd(SortWindow(pad, SortPosition(pos)));
    ShuffleKeeps(m.md5(pad), 256);
    IdentityPermutes();
    RekeyedSize(m, pos);
  }

  /** The same cipher, up to a second pad that is not in use. */
  ghost predicate Alike(s: State, t: State) {
    s.(pad16 := t.pad16) == t && (Flag(s.encType, 4) ==> s == t)
  }

  lemma NextAlike(m: Mixers, s: State, t: State)
    requires Sized(m) && Shaped(s) && Shaped(t) && Alike(s, t)
    ensures Alike(Next(m, s), Next(m, t)) && Output(m, s) == Output(m, t)
  {
    hide Flag, Merged, Rekeyed, Mangled, Total;
  }

  lemma {:induction false} RunAlike(m: Mixers, s: State, t: State, n: nat)
    requires Sized(m) && Shaped(s) && Shaped(t) && Alike(s, t)
    ensures Alike(Run(m, s, n), Run(m, t, n))
  {
    hide Alike, Next, Sized, Shaped;
    if n > 0 {
      RunAlike(m, s, t, n - 1);
      NextAlike(m, Run(m, s, n - 1), Run(m, t, n - 1));
    }
  }

  lemma SameKeystream(m: Mixers, s: State, t: State, n: nat)
    requires Sized(m) && Shaped(s) && Shaped(t) && Alike(s, t)
    ensures Keystream(m, s, n) == Keystream(m, t, n)
  {
    hide Alike, Next, Sized, Shaped, Output;
    forall i | 0 <= i < n
      ensures Keystream(m, s, n)[i] == Keystream(m, t, n)[i]
    {
      RunAlike(m, s, t, i);
      NextAlike(m, Run(m, s, i), Run(m, t, i));
    }
  }

  lemma MixedNone(pad: seq<bv8>, pad16: seq<word>, offset: nat, shift: nat)
    requires offset <= |pad|
    ensures Mixed(pad, pad16, offset, shift, 0) == pad
  {
  }

  lemma MixedNext(pad: seq<bv8>, pad16: seq<word>, offset: nat, shift: nat, n: nat)
    requires n < |pad16| && offset + n < |pad|
    ensures var r := Mixed(pad, pad16, offset, shift, n);
      Mixed(pad, pad16, offset, shift, n + 1) == r[offset + n := Xor(r[offset + n], ShiftedByte(pad16[n], shift))]
  {
  }

  lemma OrNone(pad: seq<bv8>)
    ensures OrAll(pad, 0) == 0
  {
  }

  lemma OrNext(pad: seq<bv8>, n: nat)
    requires n < |pad|
    ensures OrAll(pad, n + 1) == ByteOr(OrAll(pad, n), pad[n])
  {
  }
}
