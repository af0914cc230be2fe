/** FastTrack's stream cipher told from outside: which bytes come out, and what
    becomes of the pads. */
module FstClock {
  import opened Bytes
  import opened Words
  import opened Shifts
  import opened FstSort
  import opened FstCipher

  function Number(b: bv8): (n: nat)
    ensures n < 0x100
  {
    b as nat
  }

  /** The bytes of the pad from p on, n of them, added up as integers. */
  ghost function PadSum(pad: seq<bv8>, p: nat, n: nat): nat
    requires p + n <= |pad|
  {
    if n == 0 then 0 else PadSum(pad, p, n - 1) + Number(pad[p + n - 1])
  }

  // Bytes added modulo 256

  function Before(b: bv8): bv8 {
    b - 1
  }

  lemma NextByte(a: bv8)
    ensures Number(a + 1) == if a == 0xFF then 0 else Number(a) + 1
  {
  }

  lemma OneLess(a: bv8, b: bv8)
    requires b != 0
    ensures Plus(a, b) == Plus(a, Before(b)) + 1 && b == Before(b) + 1 && Before(b) != 0xFF
  {
  }

  lemma PlusZero(a: bv8)
    ensures Plus(a, 0) == a && Number(0) == 0 && Number(0xFF) == 0xFF
  {
  }

  lemma SmallRest(x: nat)
    ensures x < 0x100 ==> x % 0x100 == x
    ensures (x % 0x100 + 1) % 0x100 == (x + 1) % 0x100
  {
  }

  lemma SumStep(a: bv8, b: bv8)
    requires b != 0
    ensures Number(b) == Number(Before(b)) + 1
    ensures Number(Plus(a, b)) == (Number(Plus(a, Before(b))) + 1) % 0x100
  {
    OneLess(a, b);
    hide *;
    NextByte(Before(b));
    NextByte(Plus(a, Before(b)));
    PlusZero(a);
    SmallRest(Number(Plus(a, b)));
  }

  lemma {:induction false} PlusNumber(a: bv8, b: bv8)
    ensures Number(Plus(a, b)) == (Number(a) + Number(b)) % 0x100
    decreases Number(b)
  {
    hide *;
    if b == 0 {
      PlusZero(a);
      SmallRest(Number(a));
    } else {
      SumStep(a, b);
      PlusNumber(a, Before(b));
      SmallRest(Number(a) + Number(Before(b)));
    }
  }

  /** The byte before position p, round the pad. */
  function Previous(pad: seq<bv8>, p: nat): bv8
    requires p < |pad| == 63
  {
    pad[if p == 0 then 62 else p - 1]
  }

  lemma TotalNumber(pad: seq<bv8>, p: nat)
    requires p < |pad| == PAD_SIZE
    ensures Number(Total(p, pad)) == (Number(Previous(pad, p)) + Number(pad[p])) % 0x100
  {
    hide Plus, Number;
    PlusNumber(pad[p], Previous(pad, p));
  }

  /** The bits of a kind of encryption, by their values. */
  lemma KindBits(x: word)
    ensures Flag(x, 0) <==> x % 2 == 1
    ensures Flag(x, 1) <==> x / 0x02 % 2 == 1
    ensures Flag(x, 2) <==> x / 0x04 % 2 == 1
    ensures Flag(x, 3) <==> x / 0x08 % 2 == 1
    ensures Flag(x, 4) <==> x / 0x10 % 2 == 1
    ensures Flag(x, 5) <==> x / 0x20 % 2 == 1
    ensures Flag(x, 6) <==> x / 0x40 % 2 == 1
    ensures Flag(x, 7) <==> x / 0x80 % 2 == 1
    ensures Flag(x, 8) <==> x / 0x100 % 2 == 1
  {
    SmallPowers();
    hide Two;
    assert x / 1 == x;
  }

  lemma SmallPowers()
    ensures Two(0) == 1 && Two(1) == 2 && Two(2) == 4 && Two(3) == 8 && Two(4) == 0x10
    ensures Two(5) == 0x20 && Two(6) == 0x40 && Two(7) == 0x80 && Two(8) == 0x100
  {
    TwoNext(0);
    TwoNext(1);
    TwoNext(2);
    TwoNext(3);
    TwoNext(4);
    TwoNext(5);
    TwoNext(6);
    TwoNext(7);
  }

  // The keystream

  /** A clock that neither rearranges the pad nor wraps. */
  lemma PlainClock(m: Mixers, s: State)
    requires Shaped(s) && s.pos < 62
    requires s.pos != 7 || (s.pad[6] + s.pad[7]) & 0x70 != 0
    ensures Next(m, s) == s.(pos := s.pos + 1, pad := s.pad[s.pos := s.pad[s.pos] + Previous(s.pad, s.pos)])
  {
    hide Flag, Merged, Rekeyed, ModifyThirds, SortWindow, SortPosition;
    if s.pos == 7 { Commutes(s.pad[6], s.pad[7]); }
  }

  lemma Commutes(a: bv8, b: bv8)
    ensures Plus(b, a) == a + b
  {
  }

  /** After i clocks: how far the running total has come. */
  ghost predicate Along(s: State, r: State, i: nat)
    requires Shaped(s) && s.pos + i <= 62
  {
    && Shaped(r) && r.pos == s.pos + i && r.lookup == s.lookup && r.addToLookup == s.addToLookup
    && (forall j :: s.pos + i <= j < 63 ==> r.pad[j] == s.pad[j])
    && Number(Previous(r.pad, r.pos)) == (Number(Previous(s.pad, s.pos)) + PadSum(s.pad, s.pos, i)) % 0x100
  }

  lemma AlongStart(s: State)
    requires Shaped(s) && s.pos <= 62
    ensures Along(s, s, 0)
  {
    hide Number;
  }

  lemma AlongNext(m: Mixers, s: State, r: State, i: nat)
    requires Shaped(s) && s.pos + i + 1 <= 62 && Along(s, r, i) && s.pos + i != 7
    ensures Along(s, Next(m, r), i + 1)
  {
    hide Number, Next, Plus, PadSum;
    var p := r.pos;
    PlainClock(m, r);
    PlusIs(r.pad[p], Previous(r.pad, p));
    var next := Next(m, r);
    assert Previous(next.pad, next.pos) == Plus(r.pad[p], Previous(r.pad, p));
    NextTotal(s, r.pad[p], Previous(r.pad, p), i);
  }

  lemma NextTotal(s: State, b: bv8, last: bv8, i: nat)
    requires Shaped(s) && s.pos + i < 62 && b == s.pad[s.pos + i]
    requires Number(last) == (Number(Previous(s.pad, s.pos)) + PadSum(s.pad, s.pos, i)) % 0x100
    ensures Number(Plus(b, last)) == (Number(Previous(s.pad, s.pos)) + PadSum(s.pad, s.pos, i + 1)) % 0x100
  {
    hide Number, Plus, Previous;
    PlusNumber(b, last);
    SumRest(Number(Previous(s.pad, s.pos)) + PadSum(s.pad, s.pos, i), Number(b));
  }

  lemma PlusIs(a: bv8, b: bv8)
    ensures Plus(a, b) == a + b
  {
  }

  lemma SumRest(x: nat, y: nat)
    ensures (y + x % 0x100) % 0x100 == (x + y) % 0x100
    ensures (x + y % 0x100) % 0x100 == (x + y) % 0x100
  {
  }

  lemma {:induction false} AlongRun(m: Mixers, s: State, n: nat, i: nat)
    requires Sized(m) && Shaped(s) && i < n && s.pos + n <= 62 && (s.pos > 7 || s.pos + n <= 8)
    ensures Along(s, Run(m, s, i), i)
    decreases i
  {
    hide Along, Next, Sized, Shaped;
    if i == 0 {
      AlongStart(s);
    } else {
      AlongRun(m, s, n, i - 1);
      AlongNext(m, s, Run(m, s, i - 1), i - 1);
    }
  }

  /** Up to the end of the pad and clear of position 7, except as the last: byte i
      put out is the table's entry at the table offset plus the byte before the
      position plus the pad bytes from the position on. */
  lemma RunningTotals(m: Mixers, s: State, n: nat, i: nat)
    requires Sized(m) && Shaped(s) && i < n && s.pos + n <= 62 && (s.pos > 7 || s.pos + n <= 8)
    ensures Keystream(m, s, n)[i]
         == s.lookup[(s.addToLookup + Number(s.pad[if s.pos == 0 then 62 else s.pos - 1])
                      + PadSum(s.pad, s.pos, i + 1)) % 256]
  {
    hide Sized, Next, Along, PadSum, Number, Total;
    AlongRun(m, s, n, i);
    var r := Run(m, s, i);
    AlongOutput(m, s, r, i);
  }

  /** The data masked by the table's entries at the running totals. */
  ghost predicate MaskedByTotals(s: State, data: seq<bv8>, masked: seq<bv8>)
    requires Shaped(s) && s.pos + |data| <= 62
  {
    |masked| == |data|
    && forall i :: 0 <= i < |data| ==>
         masked[i] == Xor(data[i],
           s.lookup[(s.addToLookup + Number(s.pad[if s.pos == 0 then 62 else s.pos - 1])
                     + PadSum(s.pad, s.pos, i + 1)) % 256])
  }

  lemma MaskTotals(m: Mixers, s: State, data: seq<bv8>)
    requires Sized(m) && Shaped(s) && s.pos + |data| <= 62 && (s.pos > 7 || s.pos + |data| <= 8)
    ensures MaskedByTotals(s, data, Mask(data, Keystream(m, s, |data|)))
  {
    hide Sized, Keystream, PadSum, Number, Xor;
    forall i | 0 <= i < |data|
      ensures Mask(data, Keystream(m, s, |data|))[i] == Xor(data[i],
                s.lookup[(s.addToLookup + Number(s.pad[if s.pos == 0 then 62 else s.pos - 1])
                          + PadSum(s.pad, s.pos, i + 1)) % 256])
    {
      RunningTotals(m, s, |data|, i);
    }
  }

  lemma AlongOutput(m: Mixers, s: State, r: State, i: nat)
    requires Shaped(s) && s.pos + i + 1 <= 62 && Along(s, r, i)
    ensures Shaped(r)
    ensures Output(m, r)
         == s.lookup[(s.addToLookup + Number(Previous(s.pad, s.pos)) + PadSum(s.pad, s.pos, i + 1)) % 256]
  {
    hide Number, Total, Next;
    var p, before := r.pos, Number(Previous(s.pad, s.pos)) + PadSum(s.pad, s.pos, i);
    NextOffset(m, r);
    TotalNumber(r.pad, p);
    assert PadSum(s.pad, s.pos, i + 1) == PadSum(s.pad, s.pos, i) + Number(s.pad[p]);
    SumRest(before, Number(s.pad[p]));
    SumRest(s.addToLookup, before + Number(s.pad[p]));
    OutputAt(m, r);
  }

  lemma NextOffset(m: Mixers, s: State)
    requires Shaped(s)
    ensures Next(m, s).addToLookup
         == if s.pos == 62 && s.encType / 0x08 % 2 == 1 then (s.addToLookup + 1) % 0x1_0000_0000 else s.addToLookup
  {
    hide Flag, Merged, Rekeyed, Mangled;
    KindBits(s.encType);
  }

  lemma OutputAt(m: Mixers, s: State)
    requires Shaped(s)
    ensures Output(m, s) == s.lookup[(Next(m, s).addToLookup + Number(Total(s.pos, s.pad))) % 256]
  {
    hide Next, Total;
  }

  /** Any one clock: with bit 3 the one that wraps looks up one place further. */
  lemma OneByte(m: Mixers, s: State)
    requires Sized(m) && Shaped(s)
    ensures Keystream(m, s, 1)[0]
         == s.lookup[(s.addToLookup + (if s.pos == 62 && s.encType / 0x08 % 2 == 1 then 1 else 0)
                      + Number(s.pad[if s.pos == 0 then 62 else s.pos - 1]) + Number(s.pad[s.pos])) % 256]
  {
    hide Number, Total, Next, Sized;
    var x := Number(Previous(s.pad, s.pos)) + Number(s.pad[s.pos]);
    assert Run(m, s, 0) == s;
    OutputAt(m, s);
    NextOffset(m, s);
    TotalNumber(s.pad, s.pos);
    var a: nat := Next(m, s).addToLookup;
    SumRest(a, x);
    var b: nat := s.addToLookup + if s.pos == 62 && s.encType / 0x08 % 2 == 1 then 1 else 0;
    WordRest(b, x);
  }

  lemma WordRest(b: nat, x: nat)
    requires b <= 0x1_0000_0000
    ensures (b % 0x1_0000_0000 + x) % 0x100 == (b + x) % 0x100
  {
    if b == 0x1_0000_0000 { assert (b + x) % 0x100 == x % 0x100; }
  }

  // The pads

  /** r is a with the five bytes from p on put in order, bit 5 inverted, as t is,
      and every third byte from the fifth on inverted, moved up by its place and
      made odd. */
  ghost predicate Rearranged(a: seq<bv8>, r: seq<bv8>, p: nat, t: seq<bv8>) {
    && |a| == |r| == 63 && p + 5 <= 63 && |t| == 5 && multiset(t) == multiset(a[p..p + 5])
    && (forall i, j :: 0 <= i < j < 5 ==> (t[i] ^ 0x20) as int <= (t[j] ^ 0x20) as int)
    && (forall i :: 0 <= i < 63 ==> r[i] == ThirdOr(if p <= i < p + 5 then t[i - p] else a[i], i))
  }

  ghost function ThirdOr(b: bv8, i: nat): bv8
    requires i < 63
  {
    if i >= 5 && i % 3 == 2 then (0 - b - 1 + i as bv8) | 1 else b
  }

  lemma ThirdOrIs(b: bv8, i: nat)
    requires i < 63
    ensures ThirdOr(b, i) == if i >= 5 && i % 3 == 2 then Third(b, i) else b
  {
    hide Third;
    ThirdIs(b, i);
    Negated(b, i as bv8);
  }

  lemma ThirdIs(b: bv8, i: nat)
    requires i < 63
    ensures Third(b, i) == (!b + i as bv8) | 1
  {
  }

  lemma Negated(b: bv8, i: bv8)
    ensures (!b + i) | 1 == (0 - b - 1 + i) | 1
  {
  }

  lemma RearrangedIs(a: seq<bv8>, p: nat) returns (t: seq<bv8>)
    requires |a| == 63 && p + 5 <= 63
    ensures Rearranged(a, ModifyThirds(SortWindow(a, p)), p, t)
  {
    hide Third, ThirdOr, Sort;
    t := Sort(a[p..p + 5]);
    SortOrdered(a[p..p + 5]);
    KeyOrder(t);
    var u := SortWindow(a, p);
    forall i | 0 <= i < 63
      ensures ModifyThirds(u)[i] == ThirdOr(if p <= i < p + 5 then t[i - p] else a[i], i)
    {
      ThirdOrIs(u[i], i);
    }
  }

  lemma KeyOrder(t: seq<bv8>)
    requires Ordered(t)
    ensures forall i, j :: 0 <= i < j < |t| ==> (t[i] ^ 0x20) as int <= (t[j] ^ 0x20) as int
  {
    forall i, j | 0 <= i < j < |t|
      ensures (t[i] ^ 0x20) as int <= (t[j] ^ 0x20) as int
    {
      assert Key(t[i]) <= Key(t[j]);
    }
  }

  /** The clock at position 7, when the total has none of the bits 0x70. */
  lemma Rearranges(m: Mixers, s: State) returns (t: seq<bv8>)
    requires Shaped(s) && s.pos == 7 && (s.pad[6] + s.pad[7]) & 0x70 == 0
    ensures var x := Number(s.pad[6] + s.pad[7]) + Number(s.pad[2]);
      Rearranged(s.pad[7 := s.pad[6] + s.pad[7]], Next(m, s).pad, (x * x + 2) % 59, t)
    ensures Next(m, s) == s.(pos := 8, pad := Next(m, s).pad)
  {
    hide Flag, Merged, Rekeyed, ModifyThirds, SortWindow, Rearranged, Mangled, Plus, Number;
    Commutes(s.pad[6], s.pad[7]);
    var x := Number(s.pad[6] + s.pad[7]) + Number(s.pad[2]);
    t := RearrangedIs(s.pad[7 := s.pad[6] + s.pad[7]], SortPosition(x));
    MangledAt7(s.pad);
  }

  lemma MangledAt7(pad: seq<bv8>)
    requires |pad| == 63 && Plus(pad[7], pad[6]) & 0x70 == 0
    ensures var q := pad[7 := Plus(pad[7], pad[6])]; var x := Number(Plus(pad[7], pad[6])) + Number(pad[2]);
      Mangled(7, pad) == ModifyThirds(SortWindow(q, SortPosition(x)))
  {
    hide ModifyThirds, SortWindow, SortPosition, Plus;
  }

  /** A byte of the pad after six bytes of the second pad went in at o. */
  ghost function MixedByte(q: seq<bv8>, pad16: seq<word>, o: nat, shift: nat, i: nat): bv8
    requires i < |q| && |pad16| == 20
  {
    if o <= i < o + 6 then Xor(q[i], (pad16[i - o] / Two(shift) % 0x100) as bv8) else q[i]
  }

  lemma {:induction false} MixedAt(q: seq<bv8>, pad16: seq<word>, o: nat, shift: nat, n: nat, i: nat)
    requires n <= 6 && o + 6 <= |q| && |pad16| == 20 && i < |q|
    ensures Mixed(q, pad16, o, shift, n)[i]
         == if o <= i < o + n then Xor(q[i], ShiftedByte(pad16[i - o], shift)) else q[i]
    decreases n
  {
    hide Xor, ShiftedByte;
    if n > 0 {
      MixedAt(q, pad16, o, shift, n - 1, i);
      MixedAt(q, pad16, o, shift, n - 1, o + n - 1);
    }
  }

  lemma ShiftedIs(x: word, shift: nat)
    ensures ShiftedByte(x, shift) == (x / Two(shift) % 0x100) as bv8
  {
    hide Two;
    var q: int := x / Two(shift);
    LowByte(q);
  }

  lemma LowByte(q: int)
    ensures q % 0x1_0000_0000 % 0x100 == q % 0x100
  {
  }

  /** The clock that wraps, with bit 4: six bytes of the second pad, shifted down by
      the low four bits of byte 0x18, go in at the place the low five bits of byte
      0x19 give, and one of them gets the bit that byte 0x0A numbers. */
  lemma Merges(m: Mixers, s: State, i: nat)
    requires Shaped(s) && s.pos == 62 && s.encType / 0x10 % 2 == 1 && i < 63
    ensures var q := s.pad[62 := s.pad[61] + s.pad[62]];
      var o, shift := Number(q[0x19]) % 32, Number(q[0x18]) % 16;
      Next(m, s).pad[i]
        == if i == o + 4
           then MixedByte(q, s.pad16, o, shift, i) | (1 << (MixedByte(q, s.pad16, o, shift, 0x0A) & 7))
           else MixedByte(q, s.pad16, o, shift, i)
  {
    hide Flag, Rekeyed, MixedByte, Xor;
    KindBits(s.encType);
    var q := s.pad[62 := s.pad[61] + s.pad[62]];
    Commutes(s.pad[61], s.pad[62]);
    assert Mangled(62, s.pad) == q;
    var o, shift := Number(q[0x19]) % 32, Number(q[0x18]) % 16;
    MergedAt(q, s.pad16, o, shift, i);
    NextMerged(m, s);
  }

  lemma NextMerged(m: Mixers, s: State)
    requires Shaped(s) && s.pos == 62 && Flag(s.encType, 4)
    ensures Next(m, s).pad == Merged(Mangled(62, s.pad), s.pad16)
  {
    hide Flag, Rekeyed, Merged, Mangled;
  }

  lemma MergedAt(q: seq<bv8>, pad16: seq<word>, o: nat, shift: nat, i: nat)
    requires |q| == 63 && |pad16| == 20 && o == Number(q[0x19]) % 32 && shift == Number(q[0x18]) % 16 && i < 63
    ensures Merged(q, pad16)[i]
         == if i == o + 4 then MixedByte(q, pad16, o, shift, i) | (1 << (MixedByte(q, pad16, o, shift, 0x0A) & 7))
            else MixedByte(q, pad16, o, shift, i)
  {
    hide Mixed, MixedByte, Xor, ShiftedByte, Two;
    MixedIs(q, pad16, o, shift, i);
    MixedIs(q, pad16, o, shift, 0x0A);
  }

  lemma MixedIs(q: seq<bv8>, pad16: seq<word>, o: nat, shift: nat, i: nat)
    requires o + 6 <= |q| && |pad16| == 20 && i < |q|
    ensures Mixed(q, pad16, o, shift, 6)[i] == MixedByte(q, pad16, o, shift, i)
  {
    hide Mixed, Xor, ShiftedByte, Two;
    MixedAt(q, pad16, o, shift, 6, i);
    if o <= i < o + 6 { ShiftedIs(pad16[i - o], shift); }
  }

  /** w continues seed by the generator's recurrence. */
  ghost predicate Draws(w: seq<word>, seed: word) {
    |w| >= 1 && w[0] == seed
    && forall j :: 0 <= j < |w| - 1 ==> w[j + 1] == (0x10dcd * (w[j] as int) + 0x4271) % 0x1_0000_0000
  }

  lemma {:induction false} DrawnAfter(w: seq<word>, seed: word, j: nat)
    requires Draws(w, seed) && j < |w|
    ensures w[j] == SeedAfter(seed, j)
    decreases j
  {
    if j > 0 { DrawnAfter(w, seed, j - 1); }
  }

  lemma DrawnSeeds(w: seq<word>, seed: word, n: nat)
    requires Draws(w, seed) && n < |w|
    ensures w[1..n + 1] == Seeds(seed, n)
  {
    hide SeedAfter, Draws;
    forall i | 0 <= i < n
      ensures w[1..n + 1][i] == Seeds(seed, n)[i]
    {
      DrawnAfter(w, seed, i + 1);
    }
  }

  lemma DrawnKey(m: Mixers, w: seq<word>, count: word)
    requires Draws(w, count) && |w| >= 22
    ensures Rekeyed(m, count) == m.encType2(w[1..21], w[21])
  {
    hide SeedAfter, Seeds, Draws;
    DrawnSeeds(w, count, 20);
    DrawnAfter(w, count, 21);
  }

  /** The clock that wraps: the counts, the pad without bit 4, and the second pad,
      which every sixteenth wrap draws anew. */
  lemma Wraps(m: Mixers, s: State, w: seq<word>)
    requires Shaped(s) && s.pos == 62
    requires |w| == 22 && Draws(w, (s.wrapcount + 1) % 0x1_0000_0000)
    ensures var next := Next(m, s);
      && next.pos == 0 && next.wrapcount == w[0]
      && next.encType == s.encType && next.lookup == s.lookup
      && next.addToLookup
         == (if s.encType / 0x08 % 2 == 1 then (s.addToLookup + 1) % 0x1_0000_0000 else s.addToLookup)
      && (s.encType / 0x10 % 2 == 0 ==> next.pad == s.pad[62 := s.pad[61] + s.pad[62]])
      && next.pad16
         == if s.encType / 0x10 % 2 == 1 && w[0] % 16 == 0 then m.encType2(w[1..21], w[21]) else s.pad16
  {
    hide Flag, Merged, Rekeyed;
    KindBits(s.encType);
    Commutes(s.pad[61], s.pad[62]);
    DrawnKey(m, w, w[0]);
  }
}
