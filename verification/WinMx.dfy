/** The scrambling of WinMX messages: five rounds of prefix xor with feedback. */
module WinMx {
  import opened Bytes

  /** Each byte xor-ed with the new value of the one before. */
  function Sweep(s: seq<bv8>): (r: seq<bv8>)
    ensures |r| == |s|
  {
    if |s| <= 1 then s else
      var r := Sweep(s[..|s| - 1]);
      r + [Xor(s[|s| - 1], r[|r| - 1])]
  }

  /** Each byte xor-ed with the old value of the one before. */
  function Unsweep(s: seq<bv8>): (r: seq<bv8>)
    ensures |r| == |s|
  {
    seq(|s|, i requires 0 <= i < |s| => if i == 0 then s[0] else Xor(s[i], s[i - 1]))
  }

  function LengthByte(n: nat): bv8 {
    (n % 0x100) as bv8
  }

  /** The first byte takes up the last one, or in round 4 the length. */
  function Feed(s: seq<bv8>, round: nat): (r: seq<bv8>)
    requires |s| >= 1
    ensures |r| == |s|
  {
    s[0 := Xor(s[0], if round == 4 then LengthByte(|s|) else s[|s| - 1])]
  }

  /** Rounds 4 down to the given one. */
  function Encoded(s: seq<bv8>, round: nat): (r: seq<bv8>)
    requires |s| >= 1 && round <= 5
    ensures |r| == |s|
    decreases 5 - round
  {
    if round == 5 then s else Sweep(Feed(Encoded(s, round + 1), round))
  }

  /** Rounds 0 up to before the given one. */
  function Decoded(s: seq<bv8>, round: nat): (r: seq<bv8>)
    requires |s| >= 1 && round <= 5
    ensures |r| == |s|
  {
    if round == 0 then s else Feed(Unsweep(Decoded(s, round - 1)), round - 1)
  }

  lemma {:induction false} SweepAt(s: seq<bv8>, i: nat)
    requires i < |s|
    ensures Sweep(s)[i] == if i == 0 then s[0] else Xor(s[i], Sweep(s)[i - 1])
  {
    hide Xor;
    if i < |s| - 1 { SweepAt(s[..|s| - 1], i); }
  }

  lemma UnsweepSweep(s: seq<bv8>)
    ensures Unsweep(Sweep(s)) == s
  {
    hide Xor, Sweep;
    forall i | 0 <= i < |s|
      ensures Unsweep(Sweep(s))[i] == s[i]
    {
      SweepAt(s, i);
      if i > 0 { XorLaws(s[i], Sweep(s)[i - 1]); }
    }
  }

  lemma {:induction false} SweepUnsweep(s: seq<bv8>)
    ensures Sweep(Unsweep(s)) == s
  {
    hide Xor, Sweep;
    if |s| > 1 {
      var n := |s| - 1;
      var front, u := s[..n], Unsweep(s);
      SweepUnsweep(front);
      assert u[..n] == Unsweep(front) && u[..n + 1] == u;
      SweepNext(u, n);
      XorLaws(s[n], s[n - 1]);
      assert s == front + [s[n]];
    } else {
      assert Unsweep(s) == s;
      if |s| == 1 { SweepFirst(s); assert s[..1] == s; } else { SweepNone(s); }
    }
  }

  lemma FeedTwice(s: seq<bv8>, round: nat)
    requires |s| >= 2
    ensures Feed(Feed(s, round), round) == s
  {
    hide Xor;
    XorLaws(s[0], if round == 4 then LengthByte(|s|) else s[|s| - 1]);
  }

  lemma {:induction false} DecodeEncode(s: seq<bv8>, round: nat)
    requires |s| >= 2 && round <= 5
    ensures Decoded(Encoded(s, 0), round) == Encoded(s, round)
  {
    hide Sweep, Unsweep, Feed;
    if round > 0 {
      DecodeEncode(s, round - 1);
      var u := Encoded(s, round);
      UnsweepSweep(Feed(u, round - 1));
      FeedTwice(u, round - 1);
    }
  }

  lemma {:induction false} EncodeDecode(s: seq<bv8>, round: nat)
    requires |s| >= 2 && round <= 5
    ensures Encoded(Decoded(s, 5), round) == Decoded(s, round)
    decreases 5 - round
  {
    hide Sweep, Unsweep, Feed;
    if round < 5 {
      EncodeDecode(s, round + 1);
      var u := Decoded(s, round);
      FeedTwice(Unsweep(u), round);
      SweepUnsweep(u);
    }
  }

  /** Encoding and decoding undo each other, for two bytes or more. */
  lemma RoundTrip(s: seq<bv8>)
    requires |s| >= 2
    ensures Decoded(Encoded(s, 0), 5) == s && Encoded(Decoded(s, 5), 0) == s
  {
    DecodeEncode(s, 5);
    EncodeDecode(s, 0);
  }

  /** A single byte feeds back into itself and is lost. */
  lemma OneByte(s: seq<bv8>)
    requires |s| == 1
    ensures Encoded(s, 0) == [0] && Decoded(s, 5) == [1]
  {
    hide *;
    EncodedZero(s, 3);
    EncodedZero(s, 2);
    EncodedZero(s, 1);
    EncodedZero(s, 0);
    DecodedZero(s, 1);
    DecodedZero(s, 2);
    DecodedZero(s, 3);
    DecodedZero(s, 4);
    LengthOne(s);
  }

  lemma LengthByteOne()
    ensures LengthByte(1) == 1
  {
  }

  lemma LastRound(s: seq<bv8>)
    requires |s| >= 1
    ensures Decoded(s, 5) == Feed(Unsweep(Decoded(s, 4)), 4)
  {
    hide Feed, Unsweep;
  }

  lemma LengthOne(s: seq<bv8>)
    requires |s| == 1 && Decoded(s, 4) == [0]
    ensures Decoded(s, 5) == [1]
  {
    hide Xor, LengthByte, Decoded;
    LengthByteOne();
    LastRound(s);
    XorLaws(LengthByte(1), 0);
    XorLaws(0, LengthByte(1));
    assert Unsweep(Decoded(s, 4)) == [0];
  }

  lemma EncodedZero(s: seq<bv8>, round: nat)
    requires |s| == 1 && round < 4
    ensures Encoded(s, round) == [0]
  {
    hide Xor;
    var u := Encoded(s, round + 1);
    XorLaws(u[0], 0);
  }

  lemma DecodedZero(s: seq<bv8>, round: nat)
    requires |s| == 1 && 1 <= round <= 4
    ensures Decoded(s, round) == [0]
  {
    hide Xor;
    var u := Unsweep(Decoded(s, round - 1));
    XorLaws(u[0], 0);
  }

  /** Exactly the messages that survive: two bytes or more, or the single byte
      that one-byte messages always decode to. */
  lemma Survives(s: seq<bv8>)
    requires |s| >= 1
    ensures Decoded(Encoded(s, 0), 5) == s <==> |s| >= 2 || s == [1]
  {
    if |s| >= 2 {
      RoundTrip(s);
    } else {
      OneByte(s);
      OneByte(Encoded(s, 0));
    }
  }

  /** All bytes xor-ed together. */
  ghost function XorAll(s: seq<bv8>): bv8 {
    if s == [] then 0 else Xor(XorAll(s[..|s| - 1]), s[|s| - 1])
  }

  lemma XorOfNone()
    ensures XorAll([]) == 0
  {
  }

  lemma XorNext(s: seq<bv8>, i: nat)
    requires i < |s|
    ensures XorAll(s[..i + 1]) == Xor(XorAll(s[..i]), s[i])
  {
    hide Xor;
    assert s[..i + 1][..i] == s[..i];
  }

  lemma XorMoves(a: bv8, b: bv8, c: bv8)
    ensures Xor(Xor(a, b), c) == Xor(Xor(a, c), b)
  {
  }

  /** A sweep leaves in each place the xor of everything up to it. */
  lemma {:induction false} SweepIsXor(s: seq<bv8>, i: nat)
    requires i < |s|
    ensures Sweep(s)[i] == XorAll(s[..i + 1])
  {
    hide Sweep, Xor, XorAll;
    SweepAt(s, i);
    XorNext(s, i);
    if i == 0 {
      assert s[..0] == [];
      XorOfNone();
      XorLaws(0, s[0]);
      XorLaws(s[0], 0);
    } else {
      SweepIsXor(s, i - 1);
      XorLaws(s[i], XorAll(s[..i]));
    }
  }

  /** What the first place takes up in a round: the length in round 4, otherwise
      the last byte. */
  ghost function Taken(s: seq<bv8>, round: nat): bv8
    requires |s| >= 1
  {
    if round == 4 then (|s| % 256) as bv8 else s[|s| - 1]
  }

  /** One round of the encoding: place i gets the xor of everything up to it and of
      what the first place takes up. */
  ghost predicate RoundOf(s: seq<bv8>, r: seq<bv8>, round: nat) {
    |r| == |s| >= 1 && forall i :: 0 <= i < |s| ==> r[i] == Xor(XorAll(s[..i + 1]), Taken(s, round))
  }

  lemma {:induction false} FirstTakes(s: seq<bv8>, b: bv8, n: nat)
    requires 1 <= n <= |s|
    ensures XorAll(s[0 := Xor(s[0], b)][..n]) == Xor(XorAll(s[..n]), b)
  {
    hide Xor, XorAll;
    var u := s[0 := Xor(s[0], b)];
    XorNext(u, n - 1);
    XorNext(s, n - 1);
    if n == 1 {
      assert u[..0] == [] && s[..0] == [];
      XorOfNone();
      XorMoves(0, s[0], b);
      XorLaws(0, Xor(s[0], b));
      XorLaws(0, s[0]);
      XorLaws(Xor(s[0], b), 0);
      XorLaws(s[0], 0);
    } else {
      FirstTakes(s, b, n - 1);
      XorMoves(XorAll(s[..n - 1]), b, s[n - 1]);
    }
  }

  lemma FeedTakes(s: seq<bv8>, round: nat)
    requires |s| >= 1
    ensures Feed(s, round) == s[0 := Xor(s[0], Taken(s, round))]
  {
  }

  lemma RoundIs(s: seq<bv8>, round: nat)
    requires |s| >= 1
    ensures RoundOf(s, Sweep(Feed(s, round)), round)
  {
    hide Sweep, XorAll, Xor, Feed, Taken;
    var b := Taken(s, round);
    FeedTakes(s, round);
    forall i | 0 <= i < |s|
      ensures Sweep(Feed(s, round))[i] == Xor(XorAll(s[..i + 1]), b)
    {
      SweepIsXor(Feed(s, round), i);
      FirstTakes(s, b, i + 1);
    }
  }

  lemma RoundUnique(s: seq<bv8>, r: seq<bv8>, r': seq<bv8>, round: nat)
    requires RoundOf(s, r, round) && RoundOf(s, r', round)
    ensures r == r'
  {
    hide XorAll, Xor, Taken;
  }

  /** The five rounds, counted down from 4. */
  lemma EncodedByRounds(u: seq<seq<bv8>>)
    requires |u| == 6 && |u[0]| >= 1
    requires forall j :: 0 <= j < 5 ==> RoundOf(u[j], u[j + 1], 4 - j)
    ensures Encoded(u[0], 0) == u[5]
  {
    EncodedRounds(u, 5);
  }

  lemma {:induction false} EncodedRounds(u: seq<seq<bv8>>, j: nat)
    requires |u| == 6 && |u[0]| >= 1 && j <= 5
    requires forall k :: 0 <= k < 5 ==> RoundOf(u[k], u[k + 1], 4 - k)
    ensures Encoded(u[0], 5 - j) == u[j]
  {
    hide Sweep, Feed, RoundOf;
    if j > 0 {
      EncodedRounds(u, j - 1);
      RoundIs(u[j - 1], 5 - j);
      RoundUnique(u[j - 1], u[j], Sweep(Feed(u[j - 1], 5 - j)), 5 - j);
    }
  }

  /** Round 4 of encoding n zero bytes gives n copies of n modulo 256. */
  lemma ZerosRound(n: nat)
    requires n >= 1
    ensures Encoded(seq(n, _ => 0), 4) == seq(n, _ => (n % 256) as bv8)
  {
    hide Sweep, Feed, XorAll, Xor;
    var s: seq<bv8> := seq(n, _ => 0);
    var r := Encoded(s, 4);
    assert Encoded(s, 5) == s;
    RoundIs(s, 4);
    forall i | 0 <= i < |r|
      ensures r[i] == (n % 256) as bv8
    {
      XorOfZeros(s[..i + 1]);
      XorLaws(0, Taken(s, 4));
      XorLaws(Taken(s, 4), 0);
    }
  }

  lemma {:induction false} XorOfZeros(s: seq<bv8>)
    requires forall i :: 0 <= i < |s| ==> s[i] == 0
    ensures XorAll(s) == 0
  {
    hide Xor;
    if s != [] {
      XorOfZeros(s[..|s| - 1]);
      XorLaws(0, 0);
    }
  }

  /** One round of the decoding: each byte xor-ed with the one before, and then the
      first with the length in round 4, otherwise with the last. */
  ghost predicate RoundBack(s: seq<bv8>, r: seq<bv8>, round: nat) {
    |r| == |s| >= 1
    && (forall i :: 1 <= i < |s| ==> r[i] == Xor(s[i], s[i - 1]))
    && r[0] == Xor(s[0], if round == 4 then (|s| % 256) as bv8 else if |s| == 1 then s[0] else r[|s| - 1])
  }

  /** The five rounds, counted up from 0. */
  lemma DecodedByRounds(u: seq<seq<bv8>>)
    requires |u| == 6 && |u[0]| >= 1
    requires forall j :: 0 <= j < 5 ==> RoundBack(u[j], u[j + 1], j)
    ensures Decoded(u[0], 5) == u[5]
  {
    DecodedRounds(u, 5);
  }

  lemma {:induction false} DecodedRounds(u: seq<seq<bv8>>, j: nat)
    requires |u| == 6 && |u[0]| >= 1 && j <= 5
    requires forall k :: 0 <= k < 5 ==> RoundBack(u[k], u[k + 1], k)
    ensures Decoded(u[0], j) == u[j]
  {
    hide Unsweep, Feed, RoundBack;
    if j > 0 {
      DecodedRounds(u, j - 1);
      BackIs(u[j - 1], u[j], j - 1);
    }
  }

  lemma BackIs(s: seq<bv8>, r: seq<bv8>, round: nat)
    requires RoundBack(s, r, round)
    ensures r == Feed(Unsweep(s), round)
  {
    hide Xor;
    var u := Feed(Unsweep(s), round);
    forall i | 0 <= i < |r|
      ensures r[i] == u[i]
    {
    }
  }

  /** winmx_encode_ml, in place. */
  method Encode(what: array<bv8>, length: nat)
    requires 1 <= length <= what.Length
    modifies what
    ensures what[..length] == Encoded(old(what[..length]), 0) && what[length..] == old(what[length..])
  {
    hide Xor, Sweep, LengthByte;
    ghost var s, rest := what[..length], what[length..];
    var counter := 4;
    while counter >= 0
      invariant -1 <= counter <= 4
      invariant what[..length] == Encoded(s, counter + 1) && what[length..] == rest
    {
      ghost var u := what[..length];
      if counter != 4 {
        what[0] := Xor(what[0], what[length - 1]);
      } else {
        what[0] := Xor(what[0], LengthByte(length));
      }
      assert what[..length] == Feed(u, counter) && what[length..] == rest;
      SweepForward(what, length);
      counter := counter - 1;
    }
  }

  lemma SweepNone(s: seq<bv8>)
    requires s == []
    ensures Sweep(s) == s
  {
  }

  lemma SweepFirst(s: seq<bv8>)
    requires |s| >= 1
    ensures Sweep(s[..1]) == s[..1]
  {
  }

  lemma SweepNext(s: seq<bv8>, x: nat)
    requires 1 <= x < |s|
    ensures Sweep(s[..x + 1]) == Sweep(s[..x]) + [Xor(s[x], Sweep(s[..x])[x - 1])]
  {
    hide Xor;
    assert s[..x + 1][..x] == s[..x];
  }

  method SweepForward(what: array<bv8>, length: nat)
    requires 1 <= length <= what.Length
    modifies what
    ensures what[..length] == Sweep(old(what[..length])) && what[length..] == old(what[length..])
  {
    hide Xor, Sweep;
    ghost var s, rest := what[..length], what[length..];
    SweepFirst(s);
    for x := 1 to length
      invariant what[..x] == Sweep(s[..x]) && what[x..length] == s[x..] && what[length..] == rest
    {
      assert s[..x + 1][..x] == s[..x] && what[x..length][0] == s[x];
      assert what[..x][x - 1] == what[x - 1];
      ghost var before := what[..x];
      what[x] := Xor(what[x], what[x - 1]);
      assert what[..x] == before && what[..x + 1] == before + [what[x]];
      assert what[x + 1..length] == s[x..][1..];
      SweepNext(s, x);
    }
    assert s[..length] == s;
  }

  /** winmx_decode_ml, in place. */
  method Decode(what: array<bv8>, length: nat)
    requires 1 <= length <= what.Length
    modifies what
    ensures what[..length] == Decoded(old(what[..length]), 5) && what[length..] == old(what[length..])
  {
    hide Xor, Unsweep, LengthByte;
    ghost var s, rest := what[..length], what[length..];
    for counter := 0 to 5
      invariant what[..length] == Decoded(s, counter) && what[length..] == rest
    {
      SweepBack(what, length);
      ghost var u := what[..length];
      if counter != 4 {
        what[0] := Xor(what[0], what[length - 1]);
      } else {
        what[0] := Xor(what[0], LengthByte(length));
      }
      assert what[..length] == Feed(u, counter) && what[length..] == rest;
    }
  }

  method SweepBack(what: array<bv8>, length: nat)
    requires 1 <= length <= what.Length
    modifies what
    ensures what[..length] == Unsweep(old(what[..length])) && what[length..] == old(what[length..])
  {
    hide Xor;
    ghost var s, rest := what[..], what[length..];
    var x := length - 1;
    while x > 0
      invariant 0 <= x < length
      invariant forall i :: 0 <= i <= x || length <= i < what.Length ==> what[i] == s[i]
      invariant forall i :: x < i < length ==> what[i] == Xor(s[i], s[i - 1])
    {
      what[x] := Xor(what[x], what[x - 1]);
      x := x - 1;
    }
  }
}
