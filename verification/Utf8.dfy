/** Checking that a string is UTF-8. */
module Utf8 {
  import opened Bytes
  import opened Wrappers

  const BAD: int := 0xFFFF_FFFF

  /** Neither a surrogate nor a non-character, and within the code space. */
  predicate UnicodeValid(c: int) {
    c < 0x11_0000 && !(0xD800 <= c < 0xE000) && (c < 0xFDD0 || c > 0xFDEF) && c % 0x1_0000 < 0xFFFE
  }

  /** The i-th non-character of the block of 32, and the last two code points of
      plane p. */
  function BlockCode(i: int): int {
    0xFDD0 + i
  }

  function PlaneEnd(p: int, e: int): int {
    0x1_0000 * p + 0xFFFE + e
  }

  /** The first n of a block of non-characters. */
  function Block(n: nat): set<int> {
    set i: int | 0 <= i < n :: BlockCode(i)
  }

  /** The first n of the non-characters that end the planes. */
  function PlaneEnds(n: nat): set<int> {
    set k: int | 0 <= k < n :: PlaneEnd(k / 2, k % 2)
  }

  /** The non-characters of Unicode: a block of 32, and two in each of the 17
      planes. */
  function NonCharacters(): set<int> {
    Block(32) + PlaneEnds(34)
  }

  /** A code point that may stand in an accepted string: not NUL, no surrogate
      and no non-character. */
  ghost predicate Good(c: int) {
    1 <= c <= 0x10_FFFF && !(0xD800 <= c <= 0xDFFF) && c !in NonCharacters()
  }

  lemma {:induction false} BlockSize(n: nat)
    ensures |Block(n)| == n
  {
    if n > 0 {
      BlockSize(n - 1);
      assert Block(n) == Block(n - 1) + {BlockCode(n - 1)};
    }
  }

  lemma {:induction false} PlaneEndsSize(n: nat)
    ensures |PlaneEnds(n)| == n
  {
    if n > 0 {
      PlaneEndsSize(n - 1);
      var last, before := PlaneEnd((n - 1) / 2, (n - 1) % 2), PlaneEnds(n - 1);
      forall c | c in before
        ensures c < last
      {
        var k :| 0 <= k < n - 1 && c == PlaneEnd(k / 2, k % 2);
      }
      assert PlaneEnds(n) == PlaneEnds(n - 1) + {last};
    }
  }

  /** There are 66 of them. */
  lemma SixtySix()
    ensures |NonCharacters()| == 66
  {
    BlockSize(32);
    PlaneEndsSize(34);
    assert Block(32) !! PlaneEnds(34) by {
      forall c | c in PlaneEnds(34)
        ensures c !in Block(32)
      {
        var k :| 0 <= k < 34 && c == PlaneEnd(k / 2, k % 2);
      }
    }
  }

  lemma InNonCharacters(c: int)
    requires 0 <= c <= 0x10_FFFF
    ensures c in NonCharacters() <==> 0xFDD0 <= c <= 0xFDEF || c % 0x1_0000 >= 0xFFFE
  {
    hide Block, PlaneEnds;
    InBlock(c);
    InPlaneEnds(c);
  }

  lemma InBlock(c: int)
    ensures c in Block(32) <==> 0xFDD0 <= c <= 0xFDEF
  {
    if 0xFDD0 <= c <= 0xFDEF { assert c == BlockCode(c - 0xFDD0); }
  }

  lemma InPlaneEnds(c: int)
    requires 0 <= c <= 0x10_FFFF
    ensures c in PlaneEnds(34) <==> c % 0x1_0000 >= 0xFFFE
  {
    if c % 0x1_0000 >= 0xFFFE {
      var k := 2 * (c / 0x1_0000) + (c % 0x1_0000 - 0xFFFE);
      assert c == PlaneEnd(k / 2, k % 2);
    }
  }

  /** What the test lets pass: the code points that are neither surrogates nor
      non-characters. */
  lemma ValidExactly(c: int)
    requires 0 <= c
    ensures UnicodeValid(c) <==> c <= 0x10_FFFF && !(0xD800 <= c <= 0xDFFF) && c !in NonCharacters()
  {
    hide NonCharacters;
    if c <= 0x10_FFFF { InNonCharacters(c); }
  }

  lemma GoodIs(c: int)
    ensures Good(c) <==> 1 <= c && UnicodeValid(c)
    ensures Good(c) ==> c < 0x11_0000
  {
    hide NonCharacters, UnicodeValid;
    if 0 <= c { ValidExactly(c); }
  }

  /** The shortest form of a code point (section 3 of RFC 3629). */
  function Encode(c: int): (r: seq<byte>)
    requires 0 <= c < 0x11_0000
    ensures 1 <= |r| <= 4
  {
    var c1 := c / 0x40;
    var c2 := c1 / 0x40;
    var c3 := c2 / 0x40;
    if c < 0x80 then [c]
    else if c < 0x800 then [0xC0 + c1, 0x80 + c % 0x40]
    else if c < 0x1_0000 then [0xE0 + c2, 0x80 + c1 % 0x40, 0x80 + c % 0x40]
    else [0xF0 + c3, 0x80 + c2 % 0x40, 0x80 + c1 % 0x40, 0x80 + c % 0x40]
  }

  ghost predicate AllGood(cs: seq<int>) {
    forall i :: 0 <= i < |cs| ==> Good(cs[i])
  }

  /** The shortest forms one after the other. */
  ghost function EncodeAll(cs: seq<int>): seq<byte>
    requires AllGood(cs)
  {
    if cs == [] then [] else
      assert Good(cs[0]);
      Encode(cs[0]) + EncodeAll(cs[1..])
  }

  /** A concatenation of shortest forms of good code points. */
  ghost predicate WellFormed(s: seq<byte>) {
    exists cs :: AllGood(cs) && s == EncodeAll(cs)
  }

  /** The number of bytes a leading byte announces; -1 if it cannot lead. */
  function Announced(c: byte): (len: int)
    ensures len == -1 || 1 <= len <= 6
  {
    if c < 0x80 then 1
    else if 0xC0 <= c < 0xE0 then 2
    else if 0xE0 <= c < 0xF0 then 3
    else if 0xF0 <= c < 0xF8 then 4
    else if 0xF8 <= c < 0xFC then 5
    else if 0xFC <= c < 0xFE then 6
    else -1
  }

  /** One more than the mask for the bits of the leading byte. */
  function MaskRange(len: int): int
    requires 1 <= len <= 6
  {
    match len
    case 1 => 0x80
    case 2 => 0x20
    case 3 => 0x10
    case 4 => 0x08
    case 5 => 0x04
    case _ => 0x02
  }

  function Utf8Length(c: int): int {
    if c < 0x80 then 1
    else if c < 0x800 then 2
    else if c < 0x1_0000 then 3
    else if c < 0x20_0000 then 4
    else if c < 0x400_0000 then 5
    else 6
  }

  predicate Continues(b: byte) {
    0x80 <= b < 0xC0
  }

  /** The bits gathered from the first n bytes; BAD once one does not continue. */
  function Gathered(t: seq<byte>, range: int, n: nat): (r: int)
    requires 0 < range && 1 <= n <= |t|
  {
    if n == 1 then t[0] % range
    else
      var r := Gathered(t, range, n - 1);
      if r == BAD || !Continues(t[n - 1]) then BAD else r * 0x40 + t[n - 1] % 0x40
  }

  /** The code point t begins with, if there is a good one in shortest form. */
  function Next(t: seq<byte>): Option<int> {
    if t == [] || t[0] == 0 then None
    else
      var len := Announced(t[0]);
      if len == -1 || |t| < len then None
      else
        var r := Gathered(t, MaskRange(len), len);
        if Utf8Length(r) != len || r == BAD || !UnicodeValid(r) then None else Some(r)
  }

  /** The bytes were taken from the front of t. */
  ghost predicate Leads(c: int, t: seq<byte>) {
    Good(c) && |Encode(c)| <= |t| && t[..|Encode(c)|] == Encode(c)
  }

  /** What Next says, by the number of bytes announced. */
  lemma NextIs(t: seq<byte>)
    ensures t == [] || t[0] == 0 ==> Next(t).None?
    ensures t != [] && t[0] != 0 ==>
      var len := Announced(t[0]);
      (len == -1 || |t| < len ==> Next(t).None?)
      && (len != -1 && len <= |t| ==>
          var r := Gathered(t, MaskRange(len), len);
          Next(t) == if Utf8Length(r) != len || r == BAD || !UnicodeValid(r) then None else Some(r))
  {
    hide Gathered, MaskRange, Announced, Utf8Length, UnicodeValid, NonCharacters;
  }

  lemma GatheredOne(t: seq<byte>, range: int)
    requires 0 < range && 1 <= |t|
    ensures Gathered(t, range, 1) == t[0] % range
  {
  }

  lemma GatheredStep(t: seq<byte>, range: int, n: nat)
    requires 0 < range && 2 <= n <= |t|
    ensures var r := Gathered(t, range, n - 1);
      Gathered(t, range, n) == if r == BAD || !Continues(t[n - 1]) then BAD else r * 0x40 + t[n - 1] % 0x40
  {
  }

  /** Two bytes or more that lead, from the leading bits and what follows. */
  lemma NextLeads(t: seq<byte>)
    requires Next(t).Some?
    ensures Leads(Next(t).value, t) && |Encode(Next(t).value)| == Announced(t[0])
  {
    hide Gathered, Next, Leads, Encode, UnicodeValid, NonCharacters;
    NextIs(t);
    var len := Announced(t[0]);
    GatheredOne(t, MaskRange(len));
    if len >= 2 { GatheredStep(t, MaskRange(len), 2); }
    if len >= 3 { GatheredStep(t, MaskRange(len), 3); }
    if len >= 4 { GatheredStep(t, MaskRange(len), 4); }
    ValidSmall(Next(t).value);
    assert len <= 4;
    ShortestForm(t, len, Next(t).value);
  }

  lemma ValidSmall(c: int)
    requires UnicodeValid(c)
    ensures c < 0x11_0000
  {
  }

  /** c put together from the bits of len bytes, with the right length. */
  lemma ShortestForm(t: seq<byte>, len: int, c: int)
    requires 1 <= len <= 4 && len <= |t| && Announced(t[0]) == len == Utf8Length(c) && t[0] != 0 && UnicodeValid(c)
    requires forall i :: 1 <= i < len ==> Continues(t[i])
    requires var x: int := t[0] % MaskRange(len);
      c == (if len == 1 then x else if len == 2 then x * 0x40 + t[1] % 0x40
            else if len == 3 then (x * 0x40 + t[1] % 0x40) * 0x40 + t[2] % 0x40
            else ((x * 0x40 + t[1] % 0x40) * 0x40 + t[2] % 0x40) * 0x40 + t[3] % 0x40)
    ensures Leads(c, t) && |Encode(c)| == len
  {
    hide UnicodeValid, NonCharacters, Encode;
    ValidSmall(c);
    GoodIs(c);
    var x: int := t[0] % MaskRange(len);
    LeadingBits(t[0], len);
    EncodeIs(c);
    assert t[..1] == [t[0]];
    if len >= 2 {
      var x1 := x * 0x40 + t[1] % 0x40;
      SixBits(x, t[1]);
      assert len == 2 ==> t[..2] == [t[0], t[1]];
      if len >= 3 {
        var x2 := x1 * 0x40 + t[2] % 0x40;
        SixBits(x1, t[2]);
        assert len == 3 ==> t[..3] == [t[0], t[1], t[2]];
        if len == 4 {
          SixBits(x2, t[3]);
          assert t[..4] == [t[0], t[1], t[2], t[3]];
        }
      }
    }
  }

  lemma LeadingBits(b: byte, len: int)
    requires 1 <= len <= 4 && Announced(b) == len
    ensures b % MaskRange(len)
        == b - (if len == 1 then 0 else if len == 2 then 0xC0 else if len == 3 then 0xE0 else 0xF0)
  {
  }

  lemma SixBits(x: int, b: byte)
    requires Continues(b)
    ensures (x * 0x40 + b % 0x40) / 0x40 == x && (x * 0x40 + b % 0x40) % 0x40 == b % 0x40 == b - 0x80
  {
  }

  /** The shortest form, by the number of bytes. */
  lemma EncodeIs(c: int)
    requires 0 <= c < 0x11_0000
    ensures |Encode(c)| == Utf8Length(c)
    ensures var c1 := c / 0x40; var c2 := c1 / 0x40; var c3 := c2 / 0x40;
      Encode(c) == (if Utf8Length(c) == 1 then [c] else if Utf8Length(c) == 2 then [0xC0 + c1, 0x80 + c % 0x40]
                    else if Utf8Length(c) == 3 then [0xE0 + c2, 0x80 + c1 % 0x40, 0x80 + c % 0x40]
                    else [0xF0 + c3, 0x80 + c2 % 0x40, 0x80 + c1 % 0x40, 0x80 + c % 0x40])
  {
  }

  lemma FirstBytes(e: seq<byte>, t: seq<byte>, i: nat)
    requires i < |e| <= |t| && t[..|e|] == e
    ensures t[i] == e[i]
  {
  }

  lemma NextOf(t: seq<byte>, c: int)
    requires t != [] && t[0] != 0 && UnicodeValid(c) && Utf8Length(c) == Announced(t[0]) && c >= 0
    requires Announced(t[0]) <= |t| && Gathered(t, MaskRange(Announced(t[0])), Announced(t[0])) == c
    ensures Next(t) == Some(c)
  {
    hide Gathered, MaskRange, Announced;
    NextIs(t);
    ValidSmall(c);
  }

  lemma LeadsNext(c: int, t: seq<byte>)
    requires Leads(c, t)
    ensures Next(t) == Some(c)
  {
    hide Next, Encode, Gathered, UnicodeValid, Good;
    GoodIs(c);
    EncodeIs(c);
    var e := Encode(c);
    var n := |e|;
    FirstBytes(e, t, 0);
    if n >= 2 { FirstBytes(e, t, 1); }
    if n >= 3 { FirstBytes(e, t, 2); }
    if n >= 4 { FirstBytes(e, t, 3); }
    FormAnnounced(c);
    var range := MaskRange(n);
    GatheredOne(t, range);
    if n >= 2 { GatheredStep(t, range, 2); }
    if n >= 3 { GatheredStep(t, range, 3); }
    if n >= 4 { GatheredStep(t, range, 4); }
    PutTogether(c);
    NextOf(t, c);
  }

  lemma PutTogether(c: int)
    requires 0 <= c
    ensures c == c / 0x40 * 0x40 + c % 0x40
    ensures forall b: byte :: Continues(b) ==> b % 0x40 == b - 0x80
  {
  }

  lemma FormAnnounced(c: int)
    requires 0 <= c < 0x11_0000
    ensures Announced(Encode(c)[0]) == |Encode(c)|
    ensures 1 <= c ==> Encode(c)[0] != 0
    ensures forall i :: 1 <= i < |Encode(c)| ==> Continues(Encode(c)[i])
    ensures var c1 := c / 0x40; var c2 := c1 / 0x40; var c3 := c2 / 0x40; var n := |Encode(c)|;
      Encode(c)[0] % MaskRange(n) == if n == 1 then c else if n == 2 then c1 else if n == 3 then c2 else c3
  {
    hide Encode, UnicodeValid, NonCharacters;
    EncodeIs(c);
    Digits(c);
  }

  lemma Digits(c: int)
    requires 0 <= c < 0x11_0000
    ensures var c1 := c / 0x40; var c2 := c1 / 0x40; var c3 := c2 / 0x40;
      && (c < 0x800 ==> 0 <= c1 < 0x20) && (c < 0x1_0000 ==> 0 <= c2 < 0x10) && 0 <= c3 < 0x08
      && (c >= 0x80 ==> c1 >= 2) && (c >= 0x800 ==> c2 >= 0)
  {
  }

  lemma {:induction false} EncodeAllAppend(cs: seq<int>, c: int)
    requires AllGood(cs) && Good(c)
    ensures AllGood(cs + [c]) && EncodeAll(cs + [c]) == EncodeAll(cs) + Encode(c)
    decreases |cs|
  {
    hide Encode, UnicodeValid, NonCharacters;
    assert forall i :: 0 <= i < |cs| + 1 ==> Good((cs + [c])[i]);
    if cs == [] {
      assert cs + [c] == [c] && [c][1..] == [];
      assert EncodeAll([c]) == Encode(c) + EncodeAll([]);
    } else {
      assert Good(cs[0]);
      EncodeAllAppend(cs[1..], c);
      assert (cs + [c])[1..] == cs[1..] + [c];
      assert Encode(cs[0]) + (EncodeAll(cs[1..]) + Encode(c)) == (Encode(cs[0]) + EncodeAll(cs[1..])) + Encode(c);
    }
  }

  /** Where nothing good follows, no well-formed prefix goes further. */
  lemma {:induction false} NothingFurther(s: seq<byte>, cs: seq<int>, ds: seq<int>)
    requires AllGood(cs) && AllGood(ds) && EncodeAll(cs) <= s && EncodeAll(ds) <= s
    requires Next(s[|EncodeAll(cs)|..]) == None
    ensures |EncodeAll(ds)| <= |EncodeAll(cs)|
    decreases |ds|
  {
    hide Encode, UnicodeValid, Next, Leads, NonCharacters;
    if ds != [] {
      assert s[0..] == s;
      LeadsBy(s, ds);
      LeadsNext(ds[0], s);
      if cs != [] {
        assert Good(cs[0]);
        LeadsBy(s, cs);
        LeadsNext(cs[0], s);
        var n := |Encode(cs[0])|;
        var t := s[n..];
        Shorter(s, cs);
        Shorter(s, ds);
        assert s[|EncodeAll(cs)|..] == t[|EncodeAll(cs[1..])|..];
        NothingFurther(t, cs[1..], ds[1..]);
      }
    }
  }

  lemma LeadsBy(s: seq<byte>, ds: seq<int>)
    requires ds != [] && AllGood(ds) && EncodeAll(ds) <= s
    ensures Leads(ds[0], s)
  {
    hide Encode, UnicodeValid, NonCharacters;
    assert Good(ds[0]);
    var e := Encode(ds[0]);
    assert EncodeAll(ds)[..|e|] == e;
  }

  lemma Shorter(s: seq<byte>, cs: seq<int>)
    requires cs != [] && AllGood(cs) && EncodeAll(cs) <= s
    ensures AllGood(cs[1..]) && Good(cs[0]) && |Encode(cs[0])| <= |s|
    ensures |EncodeAll(cs)| == |Encode(cs[0])| + |EncodeAll(cs[1..])|
    ensures EncodeAll(cs[1..]) <= s[|Encode(cs[0])|..]
  {
    hide Encode, UnicodeValid, NonCharacters;
    assert Good(cs[0]);
    var e := Encode(cs[0]);
    assert EncodeAll(cs)[|e|..] == EncodeAll(cs[1..]);
  }

  /** end is the longest well-formed prefix; accepted is the whole. */
  ghost predicate Judged(s: seq<byte>, end: nat, ok: bool) {
    && end <= |s| && WellFormed(s[..end])
    && (forall q :: end < q <= |s| ==> !WellFormed(s[..q]))
    && (ok <==> end == |s|) && (ok <==> WellFormed(s))
  }

  lemma Judge(s: seq<byte>, cs: seq<int>)
    requires AllGood(cs) && EncodeAll(cs) <= s && Next(s[|EncodeAll(cs)|..]) == None
    ensures Judged(s, |EncodeAll(cs)|, |EncodeAll(cs)| == |s|)
  {
    hide Next, EncodeAll, Good, AllGood;
    var end := |EncodeAll(cs)|;
    assert s[..end] == EncodeAll(cs);
    forall q | end < q <= |s|
      ensures !WellFormed(s[..q])
    {
      if WellFormed(s[..q]) {
        var ds :| AllGood(ds) && s[..q] == EncodeAll(ds);
        NothingFurther(s, cs, ds);
      }
    }
    assert s[..|s|] == s;
  }

  lemma {:induction false} BadStays(t: seq<byte>, range: int, n: nat, m: nat)
    requires 0 < range && 1 <= n <= m <= |t| && Gathered(t, range, n) == BAD
    ensures Gathered(t, range, m) == BAD
    decreases m
  {
    hide Gathered;
    if n < m {
      BadStays(t, range, n, m - 1);
      GatheredStep(t, range, m);
    }
  }

  function SixBitsTimes(n: nat): int {
    if n == 0 then 1 else SixBitsTimes(n - 1) * 0x40
  }

  /** The gathered bits of a sequence stay below BAD. */
  lemma RoomForBits(len: nat, i: nat)
    requires 1 <= i <= len <= 6
    ensures MaskRange(len) * SixBitsTimes(i - 1) <= 0x8000_0000
  {
    assert SixBitsTimes(1) == 0x40 && SixBitsTimes(2) == 0x1000;
    assert SixBitsTimes(3) == 0x4_0000 && SixBitsTimes(4) == 0x100_0000 && SixBitsTimes(5) == 0x4000_0000;
  }

  lemma NextRoom(r: int, range: int, i: nat, b: byte)
    requires 1 <= i && 0 <= r < range * SixBitsTimes(i - 1)
    ensures 0 <= r * 0x40 + b % 0x40 < range * SixBitsTimes(i)
  {
    assert range * (SixBitsTimes(i - 1) * 0x40) == (range * SixBitsTimes(i - 1)) * 0x40;
  }

  /** The bits of len bytes at p, stopping at the first that does not continue
      the sequence. They fit a 32-bit word. */
  method Gather(str: array<byte>, p: nat, len: nat) returns (result: int)
    requires 1 <= len <= 6 && p + len <= str.Length
    ensures result == Gathered(str[p..], MaskRange(len), len)
    ensures 0 <= result <= BAD
  {
    hide MaskRange, Gathered, SixBitsTimes;
    var range := MaskRange(len);
    RangePositive(len);
    GatheredOne(str[p..], range);
    result := str[p] % range;
    var i := 1;
    RoomForBits(len, 1);
    while i < len
      invariant 1 <= i <= len && result == Gathered(str[p..], range, i)
      invariant 0 <= result < range * SixBitsTimes(i - 1) <= 0x8000_0000
    {
      GatheredStep(str[p..], range, i + 1);
      if !Continues(str[p + i]) {
        BadStays(str[p..], range, i + 1, len);
        return BAD;
      }
      NextRoom(result, range, i, str[p + i]);
      result := result * 0x40 + str[p + i] % 0x40;
      i := i + 1;
      RoomForBits(len, i);
    }
  }

  lemma RangePositive(len: nat)
    requires 1 <= len <= 6
    ensures 0 < MaskRange(len) && MaskRange(len) * SixBitsTimes(0) == MaskRange(len)
    ensures forall b: byte :: 0 <= b % MaskRange(len) < MaskRange(len)
  {
  }

  /** utf8_validate on the first maxLen bytes: accepted are exactly the
      well-formed strings; end is where the longest well-formed prefix stops. */
  method Utf8Validate(str: array?<byte>, maxLen: nat) returns (ok: bool, end: nat)
    requires str != null ==> maxLen <= str.Length
    ensures str == null ==> !ok
    ensures str != null ==> Judged(str[..maxLen], end, ok)
  {
    hide Gathered, UnicodeValid, Judged, Encode, MaskRange, Announced, Utf8Length, NonCharacters;
    if str == null {
      return false, 0;
    }
    var p: nat := 0;
    ghost var s, cs := str[..maxLen], [];
    while p < maxLen && str[p] != 0
      invariant p <= maxLen && AllGood(cs) && EncodeAll(cs) <= s && |EncodeAll(cs)| == p
    {
      NextIs(s[p..]);
      var len := Announced(str[p]);
      if len == -1 {
        break;
      }
      if maxLen - p < len {
        break;
      }
      var result := Gather(str, p, len);
      RangePositive(len);
      assert s[p..] <= str[p..];
      SamePrefix(s[p..], str[p..], MaskRange(len), len);
      if Utf8Length(result) != len {
        break;
      }
      if result == BAD {
        break;
      }
      if !UnicodeValid(result) {
        break;
      }
      NextLeads(s[p..]);
      EncodeAllAppend(cs, result);
      assert s[..p] == EncodeAll(cs) && s[..p + len] == s[..p] + s[p..][..len];
      cs := cs + [result];
      p := p + len;
    }
    NextIs(s[p..]);
    assert Next(s[p..]) == None;
    Judge(s, cs);
    return p == maxLen, p;
  }

  lemma {:induction false} SamePrefix(t: seq<byte>, u: seq<byte>, range: int, n: nat)
    requires 0 < range && 1 <= n <= |t| <= |u| && t <= u
    ensures Gathered(t, range, n) == Gathered(u, range, n)
    decreases n
  {
    if n > 1 { SamePrefix(t, u, range, n - 1); }
  }
}
