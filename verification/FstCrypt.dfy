/** FastTrack's stream cipher: set-up from a seed, and use. */
module FstCrypt {
  import opened Bytes
  import opened Words
  import opened FstSort
  import opened FstCipher
  import opened FstClock
  import opened FstSetup
  import opened FstStart

  class FSTCipher {
    var pos: nat
    var wrapcount: word
    var addToLookup: word
    var encType: word
    var seed: word
    const pad: array<bv8>
    const lookup: array<bv8>
    const pad16: array<word>

    ghost predicate Allocated() {
      pad.Length == PAD_SIZE && lookup.Length == 256 && pad16.Length == 20 && pad != lookup
    }

    ghost function View(): State
      reads this, pad, lookup, pad16
    {
      State(pos, wrapcount, addToLookup, encType, pad[..], lookup[..], pad16[..])
    }

    constructor ()
      ensures Allocated() && fresh(pad) && fresh(lookup) && fresh(pad16)
    {
      pos, wrapcount, addToLookup, encType, seed := 0, 0, 0, 0, 0;
      pad, lookup, pad16 := new bv8[PAD_SIZE](i => 0), new bv8[256](i => 0), new word[20](i => 0);
    }

    /** Five bytes put in order where they stand. */
    method SortBytes(p: nat)
      requires Allocated() && p + 5 <= PAD_SIZE
      modifies pad
      ensures pad[..] == SortWindow(old(pad[..]), p)
    {
      hide Sort;
      var sorted := Sort(pad[p..p + 5]);
      forall k | 0 <= k < 5 {
        pad[p + k] := sorted[k];
      }
    }

    method ModifyEveryThird()
      requires Allocated()
      modifies pad
      ensures pad[..] == ModifyThirds(old(pad[..]))
    {
      hide Third;
      ghost var before := pad[..];
      var i := 5;
      while i < PAD_SIZE
        invariant 5 <= i <= PAD_SIZE + 2 && i % 3 == 2
        invariant forall k ::
          0 <= k < PAD_SIZE ==> pad[k] == if 5 <= k < i && k % 3 == 2 then Third(before[k], k) else before[k]
      {
        pad[i] := Third(pad[i], i);
        i := i + 3;
      }
    }

    /** One step of the state; the result masks one byte of data. */
    method Clock(m: Mixers) returns (xor: bv8)
      requires Allocated() && Sized(m) && pos < PAD_SIZE
      modifies this`pos, this`wrapcount, this`addToLookup, pad, pad16
      ensures View() == Next(m, old(View())) && xor == Output(m, old(View())) && pos < PAD_SIZE
      ensures var s := old(View());
        xor == s.lookup[(s.addToLookup + (if s.pos == 62 && s.encType / 0x08 % 2 == 1 then 1 else 0)
                         + Number(s.pad[if s.pos == 0 then 62 else s.pos - 1]) + Number(s.pad[s.pos])) % 256]
    {
      hide Merged, Rekeyed, Mangled, Total, Flag, Sized, Number;
      OneByte(m, View());
      xor := Accumulate();
      pos := pos + 1;
      if pos == 0x3f {
        Wrap(m);
      }
      var temp := (addToLookup + xor as int) % 256;
      xor := lookup[temp];
    }

    method AddPrevious() returns (xor: bv8)
      requires Allocated() && pos < PAD_SIZE
      modifies pad
      ensures pad[..] == Summed(pos, old(pad[..])) && xor == Total(pos, old(pad[..]))
    {
      hide Plus;
      var lastpos := if pos > 0 then pos - 1 else PAD_SIZE - 1;
      pad[pos] := Plus(pad[pos], pad[lastpos]);
      xor := pad[pos];
    }

    /** The running total, and the rearrangement it may cause. */
    method Accumulate() returns (xor: bv8)
      requires Allocated() && pos < PAD_SIZE
      modifies pad
      ensures pad[..] == Mangled(pos, old(pad[..])) && xor == Total(pos, old(pad[..]))
    {
      hide ModifyThirds, SortWindow, SortPosition, Summed, Total;
      xor := AddPrevious();
      if pos == 7 && xor & 0x70 == 0 {
        var sortpos := SortPosition(xor as int + pad[2] as int);
        SortBytes(sortpos);
        ModifyEveryThird();
      }
    }

    /** Back to the start of the pad. */
    method Wrap(m: Mixers)
      requires Allocated() && Sized(m)
      modifies this`pos, this`wrapcount, this`addToLookup, pad, pad16
      ensures pos == 0 && wrapcount == (old(wrapcount) + 1) % W
      ensures addToLookup == if Flag(encType, 3) then (old(addToLookup) + 1) % W else old(addToLookup)
      ensures pad[..] == if Flag(encType, 4) then Merged(old(pad[..]), old(pad16[..])) else old(pad[..])
      ensures pad16[..] == if Flag(encType, 4) && wrapcount % 16 == 0 then Rekeyed(m, wrapcount) else old(pad16[..])
    {
      hide Merged, Rekeyed, Flag, Sized;
      pos := 0;
      wrapcount := (wrapcount + 1) % W;
      if Flag(encType, 3) {
        addToLookup := (addToLookup + 1) % W;
      }
      if Flag(encType, 4) {
        MergePads();
        if wrapcount % 16 == 0 {
          Rekey(m, wrapcount);
        }
      }
    }

    /** The six-byte merge; the last byte touched lies within the pad. */
    method MergePads()
      requires Allocated()
      modifies pad
      ensures pad[..] == Merged(old(pad[..]), pad16[..])
    {
      hide Mixed, SetBit, LowBits;
      var shiftFactor := LowBits(pad[0x18], 16);
      var padOffset := LowBits(pad[0x19], 32);
      MixSix(padOffset, shiftFactor);
      ghost var now := pad[..];
      pad[padOffset + 4] := SetBit(pad[padOffset + 4], pad[0x0A]);
      assert pad[..] == now[padOffset + 4 := SetBit(now[padOffset + 4], now[0x0A])];
    }

    method MixSix(padOffset: nat, shiftFactor: nat)
      requires Allocated() && padOffset < 32
      modifies pad
      ensures pad[..] == Mixed(old(pad[..]), pad16[..], padOffset, shiftFactor, 6)
    {
      hide Mixed, ShiftedByte, Xor;
      ghost var before := pad[..];
      MixedNone(before, pad16[..], padOffset, shiftFactor);
      for i := 0 to 6
        invariant pad[..] == Mixed(before, pad16[..], padOffset, shiftFactor, i)
      {
        ghost var now := pad[..];
        pad[padOffset + i] := Xor(pad[padOffset + i], ShiftedByte(pad16[i], shiftFactor));
        assert pad[..] == now[padOffset + i := Xor(now[padOffset + i], ShiftedByte(pad16[i], shiftFactor))];
        MixedNext(before, pad16[..], padOffset, shiftFactor, i);
      }
    }

    /** key masks the pad. */
    method XorPad(key: seq<bv8>)
      requires Allocated() && PAD_SIZE <= |key|
      modifies pad
      ensures pad[..] == XorInto(old(pad[..]), key)
    {
      hide Xor;
      ghost var before := pad[..];
      for i := 0 to PAD_SIZE
        invariant forall k :: 0 <= k < i ==> pad[k] == Xor(before[k], key[k])
        invariant forall k :: i <= k < PAD_SIZE ==> pad[k] == before[k]
      {
        pad[i] := Xor(pad[i], key[i]);
      }
    }

    /** The next n seeds, and the seed after them. */
    method DrawSeeds(seed: word, n: nat) returns (key: array<word>, seed': word)
      ensures fresh(key) && key[..] == Seeds(seed, n) && seed' == SeedAfter(seed, n)
    {
      hide SeedStep;
      key := new word[n](i => 0);
      seed' := seed;
      for i := 0 to n
        invariant seed' == SeedAfter(seed, i) && forall k :: 0 <= k < i ==> key[k] == SeedAfter(seed, k + 1)
      {
        seed' := SeedStep(seed');
        key[i] := seed';
      }
    }

    method CubeMix(m: Mixers, seed: word) returns (seed': word)
      requires Allocated() && Sized(m) && pad[..] == Blank()
      modifies pad
      ensures (pad[..], seed') == (XorInto(Blank(), m.encType1(CubeKey(seed))), SeedAfter(seed, 255))
    {
      hide SeedStep, Byte, XorInto, Blank;
      var keyIn := new bv8[256](i => 0);
      seed' := seed;
      for i := 0 to 0xFF
        invariant seed' == SeedAfter(seed, i) && keyIn[255] == 0
        invariant forall k :: 0 <= k < i ==> keyIn[k] == Byte(SeedAfter(seed, k + 1) / 0x20000 % 0xE0)
        invariant pad[..] == Blank()
      {
        seed' := SeedStep(seed');
        var temp := seed' / 0x20000;
        keyIn[i] := Byte(temp % 0xE0);
      }
      assert keyIn[..] == CubeKey(seed);
      var keyOut := m.encType1(keyIn[..]);
      XorPad(keyOut);
    }

    /** The 20 words, through the kinds of mixing asked for. */
    method WordMix(m: Mixers, seed: word, encType: word) returns (ok: bool, seed': word)
      requires Allocated() && Sized(m)
      modifies pad
      ensures ok <==> Supported(encType)
      ensures ok ==> pad[..] == XorInto(old(pad[..]), WordBytes(MixedWords(m, seed, encType).0))
      ensures ok ==> seed' == MixedWords(m, seed, encType).1
    {
      hide SeedStep, Seeds, SeedAfter, Byte, XorInto, WordBytes, Flag;
      var key80, s := DrawSeeds(seed, 20);
      ok, seed' := false, s;
      var words := key80[..];
      if Flag(encType, 1) {
        seed' := SeedStep(seed');
        words := m.encType2(words, seed');
      }
      if Flag(encType, 2) {
        seed' := SeedStep(seed');
        return;
      }
      if Flag(encType, 5) {
        seed' := SeedStep(seed');
        words := m.encType20(words, seed');
      }
      if Flag(encType, 7) {
        seed' := SeedStep(seed');
        words := m.encType80(words, seed');
      }
      if Flag(encType, 8) {
        seed' := SeedStep(seed');
        return;
      }
      XorPad(WordBytes(words));
      ok := true;
    }

    method InitPad(m: Mixers, seed: word, encType: word) returns (ok: bool, seed': word)
      requires Allocated() && Sized(m)
      modifies pad
      ensures ok <==> Supported(encType)
      ensures ok ==> (pad[..], seed') == PadInit(m, seed, encType)
      ensures ok <==> encType / 0x04 % 2 == 0 && encType / 0x100 % 2 == 0
      ensures ok ==> PadFor(m, seed, encType, pad[..], seed')
    {
      hide XorInto, WordBytes, MixedWords, SeedAfter, CubeKey, Flag, PadFor, Sized;
      Used(encType);
      StartPadAny(m, seed, encType);
      forall i | 0 <= i < PAD_SIZE {
        pad[i] := 0;
      }
      assert pad[..] == Blank();
      ok, seed' := true, seed;
      if UsesCube(encType) {
        seed' := CubeMix(m, seed);
      }
      if UsesWords(encType) {
        ok, seed' := WordMix(m, seed', encType);
      }
    }

    /** Makes sure some byte is odd. */
    method AdjustPad()
      requires Allocated()
      modifies pad
      ensures pad[..] == Adjusted(old(pad[..]))
    {
      hide OrAll, ByteOr;
      ghost var before := pad[..];
      var c: bv8 := 0;
      OrNone(before);
      for i := 0 to PAD_SIZE
        invariant pad[..] == before && c == OrAll(before, i)
      {
        OrNext(before, i);
        c := ByteOr(c, pad[i]);
      }
      if c & 1 == 0 {
        pad[0] := ByteOr(pad[0], 0x71);
      }
    }

    /** The lookup table, shuffled by a number derived from the pad. */
    method InitLookup(m: Mixers, encType: word)
      requires Allocated()
      modifies lookup
      ensures lookup[..] == if Flag(encType, 3) then Shuffled(m.md5(pad[..]), 256) else Identity()
    {
      hide Flag, SeedStep, Scaled;
      forall i | 0 <= i < 256 {
        lookup[i] := i as bv8;
      }
      assert lookup[..] == Identity();
      if Flag(encType, 3) {
        ghost var md5 := m.md5(pad[..]);
        var num := m.md5(pad[..]);
        for i := 0 to 256
          invariant num == SeedAfter(md5, i) && lookup[..] == Shuffled(md5, i)
        {
          num := SeedStep(num);
          var j := Scaled(num, 0x100 - i) + i;
          SwapPlaces(i, j);
        }
      }
    }

    method SwapPlaces(i: nat, j: nat)
      requires Allocated() && i < 256 && j < 256
      modifies lookup
      ensures lookup[..] == Swapped(old(lookup[..]), i, j)
    {
      if j != i {
        var a, b := lookup[j], lookup[i];
        lookup[i] := a;
        lookup[j] := b;
      }
    }

    /** Sets the cipher up; false if the kind of encryption is not supported. */
    method Init(m: Mixers, seed: word, encType: word) returns (ok: bool)
      requires Allocated() && Sized(m)
      modifies this`pos, this`wrapcount, this`addToLookup, this`encType, this`seed, pad, lookup, pad16
      ensures ok <==> Supported(encType)
      ensures ok ==> pos < PAD_SIZE && View() == Initial(m, seed, encType, old(pad16[..]))
      ensures ok <==> encType / 0x04 % 2 == 0 && encType / 0x100 % 2 == 0
      ensures ok ==> PositionFor(seed, encType, pos)
    {
      hide Supported, PositionFor, Initial, Sized;
      ghost var pad16s := pad16[..];
      Used(encType);
      if Supported(encType) { StartPositionAny(m, seed, encType, pad16s); }
      this.encType := encType;
      wrapcount := 0;
      addToLookup := 0;
      this.seed := seed;
      var s;
      ok, s := InitPad(m, seed, encType);
      if ok {
        InitState(m, seed, s);
      }
    }

    /** The rest of it, once there is a pad. */
    method InitState(m: Mixers, ghost start: word, s: word)
      requires Allocated() && Sized(m) && Supported(encType) && wrapcount == addToLookup == 0
      requires (pad[..], s) == PadInit(m, start, encType)
      modifies this`pos, pad, lookup, pad16
      ensures pos < PAD_SIZE && View() == Initial(m, start, encType, old(pad16[..]))
    {
      hide PadInit, Adjusted, Shuffled, Identity, SortWindow, ModifyThirds, SortPosition, Rekeyed, Scaled, Sized,
        SeedStep, Flag;
      AdjustPad();
      pos := Scaled(SeedStep(s), 63);
      InitLookup(m, encType);
      if Flag(encType, 4) {
        Rekey(m, pos);
      }
      SortBytes(SortPosition(pos));
      ModifyEveryThird();
    }

    /** A new second pad from a count. */
    method Rekey(m: Mixers, from: word)
      requires Allocated() && Sized(m)
      modifies pad16
      ensures pad16[..] == Rekeyed(m, from)
    {
      hide SeedStep;
      var s := from;
      for i := 0 to 20
        invariant s == SeedAfter(from, i) && forall k :: 0 <= k < i ==> pad16[k] == SeedAfter(from, k + 1)
      {
        s := SeedStep(s);
        pad16[i] := s;
      }
      assert pad16[..] == Seeds(from, 20);
      s := SeedStep(s);
      var mixed := m.encType2(pad16[..], s);
      forall k | 0 <= k < 20 {
        pad16[k] := mixed[k];
      }
    }

    method CryptByte(m: Mixers, data: array<bv8>, at: nat)
      requires Allocated() && Sized(m) && pos < PAD_SIZE
      requires at < data.Length && data != pad && data != lookup && (data as object) != pad16
      modifies this`pos, this`wrapcount, this`addToLookup, pad, pad16, data
      ensures View() == Next(m, old(View())) && pos < PAD_SIZE
      ensures data[..] == old(data[..])[at := Xor(old(data[at]), Output(m, old(View())))]
    {
      hide Next, Output, Sized, Xor;
      var xor := Clock(m);
      ghost var now := View();
      data[at] := Xor(data[at], xor);
      assert View().pad == now.pad && View().lookup == now.lookup && View().pad16 == now.pad16;
    }

    /** Masks data with the next len bytes of the keystream. */
    method Crypt(m: Mixers, data: array<bv8>, len: int)
      requires Allocated() && Sized(m) && pos < PAD_SIZE
      requires len <= data.Length && data != pad && data != lookup && (data as object) != pad16
      modifies this`pos, this`wrapcount, this`addToLookup, pad, pad16, data
      ensures pos < PAD_SIZE && View() == Run(m, old(View()), Count(len))
      ensures data[..Count(len)] == Mask(old(data[..Count(len)]), Keystream(m, old(View()), Count(len)))
      ensures var s, n := old(View()), Count(len);
        s.pos + n <= 62 && (s.pos > 7 || s.pos + n <= 8) ==> MaskedByTotals(s, old(data[..n]), data[..n])
      ensures data[Count(len)..] == old(data[Count(len)..])
    {
      hide Next, Output, Sized, Xor, MaskedByTotals;
      ghost var s, before := View(), data[..];
      var i: nat := 0;
      while i < len
        invariant i <= Count(len) && pos < PAD_SIZE && View() == Run(m, s, i) && |data[..]| == |before|
        invariant forall k :: 0 <= k < i ==> data[..][k] == Xor(before[k], Output(m, Run(m, s, k)))
        invariant forall k :: i <= k < data.Length ==> data[..][k] == before[k]
      {
        CryptByte(m, data, i);
        i := i + 1;
      }
      assert data[..i] == Mask(before[..i], Keystream(m, s, i));
      if s.pos + i <= 62 && (s.pos > 7 || s.pos + i <= 8) {
        MaskTotals(m, s, before[..i]);
      }
    }
  }

  /** A negative length counts as none. */
  function Count(len: int): nat {
    if len > 0 then len else 0
  }

  /** Data handed over in two calls is masked as in one; so in any number. */
  lemma CutAnywhere(m: Mixers, s: State, data: seq<bv8>, a: nat)
    requires Sized(m) && Shaped(s) && a <= |data|
    ensures Mask(data, Keystream(m, s, |data|))
         == Mask(data[..a], Keystream(m, s, a)) + Mask(data[a..], Keystream(m, Run(m, s, a), |data| - a))
  {
    hide Sized, Shaped, Xor, Next, Output, Run, Keystream;
    KeystreamAdd(m, s, a, |data| - a);
  }

  /** Encrypting with one cipher and decrypting with another that was set up
      alike gives the data back, however either is cut into calls. */
  lemma CryptUndoes(m: Mixers, seed: word, encType: word, pad16: seq<word>, pad16': seq<word>, data: seq<bv8>)
    requires Sized(m) && Supported(encType) && |pad16| == |pad16'| == 20
    ensures var s, t := Initial(m, seed, encType, pad16), Initial(m, seed, encType, pad16');
      && Shaped(s) && Shaped(t)
      && Mask(Mask(data, Keystream(m, s, |data|)), Keystream(m, t, |data|)) == data
  {
    hide PadInit, Adjusted, Shuffled, Identity, SortWindow, ModifyThirds, SortPosition, Rekeyed, Scaled, Sized,
      SeedStep, Flag, Sound, Mask, Keystream;
    var s, t := Initial(m, seed, encType, pad16), Initial(m, seed, encType, pad16');
    InitialSound(m, seed, encType, pad16);
    InitialSound(m, seed, encType, pad16');
    SoundShaped(s);
    SoundShaped(t);
    SameKeystream(m, s, t, |data|);
    MaskTwice(data, Keystream(m, s, |data|));
  }

  /** From set-up on: the position and the number of wraps after n clocks. */
  lemma RunFromStart(m: Mixers, seed: word, encType: word, pad16: seq<word>, n: nat)
    requires Sized(m) && Supported(encType) && |pad16| == 20
    ensures var s := Initial(m, seed, encType, pad16);
      && Sound(s) && Sound(Run(m, s, n))
      && Run(m, s, n).pos == (s.pos + n) % PAD_SIZE
      && Run(m, s, n).wrapcount == (s.pos + n) / PAD_SIZE % W
  {
    hide PadInit, Adjusted, Shuffled, Identity, SortWindow, ModifyThirds, SortPosition, Rekeyed, Scaled, Sized,
      SeedStep, Flag, Sound;
    var s := Initial(m, seed, encType, pad16);
    InitialSound(m, seed, encType, pad16);
    SoundShaped(s);
    RunInvariant(m, s, n);
  }

  function Masked(a: bv32, b: bv32): bv32 {
    a ^ b
  }

  /** The kind of encryption, masked by a word derived from the seed: word 7 of 20
      draws, mixed with the next. */
  method MangleEncType(m: Mixers, seed: word, encType: bv32) returns (r: bv32)
    requires Sized(m)
    ensures r == Masked(encType, MangleKey(m, seed))
    ensures MaskFor(m, seed, Masked(r, encType))
  {
    hide *;
    var key := MangleWord(m, seed);
    r := Masked(encType, key);
    MaskAny(m, seed);
    Unmasked(encType, key);
  }

  method MangleWord(m: Mixers, seed: word) returns (key: bv32)
    requires Sized(m)
    ensures key == MangleKey(m, seed)
  {
    hide SeedStep;
    var s := seed;
    var key80 := new word[20](i => 0);
    for i := 0 to 20
      invariant s == SeedAfter(seed, i) && forall k :: 0 <= k < i ==> key80[k] == SeedAfter(seed, k + 1)
    {
      s := SeedStep(s);
      key80[i] := s;
    }
    assert key80[..] == Seeds(seed, 20);
    s := SeedStep(s);
    var mixed := m.encType2(key80[..], s);
    key := mixed[7] as bv32;
  }

  lemma Unmasked(a: bv32, b: bv32)
    ensures Masked(a, b) == a ^ b
    ensures Masked(Masked(a, b), a) == b && Masked(Masked(a, b), b) == a
  {
  }

  /** What one side mangles the other side's mangling, of the same seed, gives
      back. */
  method MangleUndoes(m: Mixers, seed: word, encType: bv32) returns (r: bv32)
    requires Sized(m)
    ensures r == encType
  {
    hide *;
    var mangled := MangleEncType(m, seed, encType);
    r := MangleEncType(m, seed, mangled);
    Unmasked(encType, MangleKey(m, seed));
  }
}
