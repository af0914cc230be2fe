/** Decoding characters of 1 to 7 bits, and the round trip. */
module BaseNDecoder {
  import opened Arithmetic
  import opened Shifts
  import opened Bits
  import opened Bytes
  import opened BaseNEncoder

  /** The values of a text's characters; the others are passed over. */
  ghost function Values(text: seq<byte>, lookup: seq<int>): (values: seq<int>)
    requires |lookup| == 0x100
  {
    if text == [] then [] else
      var v := lookup[text[|text| - 1]];
      Values(text[..|text| - 1], lookup) + if 0 <= v < 0x100 then [v] else []
  }

  lemma ValuesAppend(text: seq<byte>, c: byte, lookup: seq<int>)
    requires |lookup| == 0x100
    ensures Values(text + [c], lookup) == Values(text, lookup) + if 0 <= lookup[c] < 0x100 then [lookup[c]] else []
  {
    assert (text + [c])[..|text|] == text;
  }

  /** These are the whole bytes in the values' bits. */
  ghost predicate Decodes(bytes: seq<byte>, values: seq<int>, k: nat) {
    |Stream(bytes, 8)| <= |Stream(values, k)| < |Stream(bytes, 8)| + 8
    && Stream(bytes, 8) == Stream(values, k)[..|Stream(bytes, 8)|]
  }

  /** Every entry is a value of k bits or marks a character to pass over. */
  ghost predicate LookupFor(lookup: seq<int>, k: nat) {
    |lookup| == 0x100 && forall c :: 0 <= c < 0x100 ==> 0 <= lookup[c] < Two(k) || lookup[c] < 0 || lookup[c] >= 0x100
  }

  /** The value cut at the end of a byte. */
  lemma CutValue(v: int, k: nat, low: nat) returns (hi: int, lo: int)
    requires low <= k <= 8 && 0 <= v < Two(k)
    ensures hi == v / Two(low) && 0 <= hi < Two(k - low) && 0 <= lo < Two(low)
    ensures v * Two(8 - low) % 0x100 == lo * Two(8 - low)
    ensures BitsOf(v, k) == BitsOf(hi, k - low) + BitsOf(lo, low)
  {
    hide Two, BitsOf;
    hi, lo := CutTop(v, k, k - low);
    var p, q := Two(low), Two(8 - low);
    DivUnique(v, p, hi, lo);
    TwoAdd(low, 8 - low);
    TwoEight();
    JoinBelow(lo, 0, p, q);
    ShiftOut(hi, p, lo, q);
  }

  class Decoder {
    const bitsPerChar: nat
    const outputBlockSize: nat
    const lookup: seq<int>
    const outBuf: array<byte>
    var bytePos: nat
    var bitPos: nat
    /** What went out for the current message. */
    var output: seq<byte>

    /** The message's text so far, the values whose bytes went out, the values
        of the block in work, and its unfinished byte. */
    ghost var text: seq<byte>
    ghost var sent: seq<int>
    ghost var block: seq<int>
    ghost var partial: int
    ghost const blockChars: nat

    ghost predicate Shape() {
      && 1 <= bitsPerChar <= 7 && 1 <= outputBlockSize == outBuf.Length
      && outputBlockSize * 8 == bitsPerChar * blockChars && LookupFor(lookup, bitsPerChar)
    }

    ghost predicate InBlock()
      reads this, outBuf
    {
      if block == [] then bytePos == 0 && bitPos == 0 && partial == 0
      else Filled(8, outBuf[..], bytePos, bitPos, partial, Stream(block, bitsPerChar))
    }

    ghost predicate Valid()
      reads this, outBuf
    {
      && Shape() && InBlock() && |block| < blockChars
      && Stream(output, 8) == Stream(sent, bitsPerChar)
      && Values(text, lookup) == sent + block
    }

    constructor (lookup: seq<int>, log2base: nat)
      requires 1 <= log2base <= 7 && LookupFor(lookup, log2base)
      ensures Valid() && text == [] && fresh(outBuf)
      ensures bitsPerChar == log2base && this.lookup == lookup
      ensures WholeBits(outputBlockSize * 8, bitsPerChar)
      ensures forall x: nat :: 1 <= x < outputBlockSize * 8 ==> !WholeBits(x, bitsPerChar)
    {
      var size := DecodedBlockSize(log2base);
      bitsPerChar, this.lookup := log2base, lookup;
      outputBlockSize, outBuf := size, new byte[size](i => 0);
      blockChars := size * 8 / log2base;
      bytePos, bitPos, output := 0, 0, [];
      text, sent, block, partial := [], [], [], 0;
    }

    /** k bits into the current byte, and what does not fit into the next. */
    method PutValue(value: int)
      requires Shape() && |block| < blockChars && 0 <= value < Two(bitsPerChar)
      requires Filled(8, outBuf[..], bytePos, bitPos, partial, Stream(block, bitsPerChar))
      modifies this`bytePos, this`bitPos, this`partial, outBuf
      ensures Filled(8, outBuf[..], bytePos, bitPos, partial, Stream(block + [value], bitsPerChar))
    {
      hide Stream, BitsOf, Two, Filled;
      RoomForValue();
      StreamAppend(block, value, bitsPerChar);
      var newBitPos := bitPos + bitsPerChar;
      if newBitPos <= 8 {
        Fits(value, newBitPos, Stream(block, bitsPerChar));
      } else {
        Spills(value, newBitPos, Stream(block, bitsPerChar));
      }
    }

    lemma RoomForValue()
      requires Shape() && |block| < blockChars
      requires Filled(8, outBuf[..], bytePos, bitPos, partial, Stream(block, bitsPerChar))
      ensures bitPos < 8 && bytePos * 8 + bitPos + bitsPerChar <= outBuf.Length * 8
    {
      hide BitsOf, Two, Below, LookupFor;
      assert |Stream(block, bitsPerChar)| == bytePos * 8 + bitPos;
      MulMonotone(bitsPerChar, |block| + 1, blockChars);
      Distribute(|block|, 1, bitsPerChar);
    }

    method Fits(value: int, newBitPos: nat, ghost acc: seq<bool>)
      requires bitPos < newBitPos == bitPos + bitsPerChar <= 8 && bytePos < outBuf.Length
          && 0 <= value < Two(bitsPerChar)
      requires Filled(8, outBuf[..], bytePos, bitPos, partial, acc)
      modifies this`bytePos, this`bitPos, this`partial, outBuf
      ensures Filled(8, outBuf[..], bytePos, bitPos, partial, acc + BitsOf(value, bitsPerChar))
    {
      hide Stream, BitsOf, Two;
      ghost var buf, k := outBuf[..], bitsPerChar;
      ShiftedUp(value, k, 8 - bitPos);
      RoomFor(8, partial, bitPos, value * Two(8 - newBitPos));
      outBuf[bytePos] := Or(outBuf[bytePos], value * Two(8 - newBitPos), partial, 8 - bitPos);
      if newBitPos < 8 {
        ExtendValue(8, buf, outBuf[..], bytePos, bitPos, partial, acc, value, k);
        partial := partial * Two(k) + value;
        bitPos := newBitPos;
      } else {
        MulOne(value);
        CompleteValue(8, buf, outBuf[..], bytePos, bitPos, partial, acc, value);
        partial := 0;
        bitPos := 0;
        bytePos := bytePos + 1;
      }
    }

    method Spills(value: int, newBitPos: nat, ghost acc: seq<bool>)
      requires 8 < newBitPos == bitPos + bitsPerChar && bitsPerChar <= 7 && bitPos < 8 && bytePos + 1 < outBuf.Length
          && 0 <= value < Two(bitsPerChar)
      requires Filled(8, outBuf[..], bytePos, bitPos, partial, acc)
      modifies this`bytePos, this`bitPos, this`partial, outBuf
      ensures Filled(8, outBuf[..], bytePos, bitPos, partial, acc + BitsOf(value, bitsPerChar))
    {
      hide Stream, BitsOf, Two;
      ghost var buf, k := outBuf[..], bitsPerChar;
      ghost var hi, lo := CutValue(value, k, newBitPos - 8);
      RoomFor(8, partial, bitPos, hi);
      outBuf[bytePos] := Or(outBuf[bytePos], value / Two(newBitPos - 8), partial, 8 - bitPos);
      ghost var buf1 := outBuf[..];
      CompleteValue(8, buf, buf1, bytePos, bitPos, partial, acc, hi);
      SecondHalf(value, newBitPos, acc + BitsOf(hi, 8 - bitPos), lo);
      assert acc + BitsOf(value, k) == (acc + BitsOf(hi, 8 - bitPos)) + BitsOf(lo, newBitPos - 8);
      partial := 0 * Two(newBitPos - 8) + lo;
      bytePos := bytePos + 1;
      bitPos := newBitPos - 8;
    }

    method SecondHalf(value: int, newBitPos: nat, ghost acc: seq<bool>, ghost lo: int)
      requires 8 < newBitPos < 16 && bytePos + 1 < outBuf.Length && 0 <= value && 0 <= lo < Two(newBitPos - 8)
      requires value * Two(16 - newBitPos) % 0x100 == lo * Two(16 - newBitPos)
      requires Filled(8, outBuf[..], bytePos + 1, 0, 0, acc)
      modifies outBuf
      ensures Filled(8, outBuf[..], bytePos + 1, newBitPos - 8, 0 * Two(newBitPos - 8) + lo,
        acc + BitsOf(lo, newBitPos - 8))
    {
      hide Stream, BitsOf, Two;
      ghost var buf, s := outBuf[..], newBitPos - 8;
      ShiftedUp(lo, s, 8);
      TwoEight();
      outBuf[bytePos + 1] := Or(outBuf[bytePos + 1], value * Two(16 - newBitPos) % 0x100, 0, 8);
      ExtendValue(8, buf, outBuf[..], bytePos + 1, 0, 0, acc, lo, s);
    }

    /** Part of a message's text. */
    method Put(begin: seq<byte>)
      requires Valid()
      modifies this`bytePos, this`bitPos, this`output, this`text, this`sent, this`block, this`partial, outBuf
      ensures Valid() && text == old(text) + begin
    {
      hide *;
      for inputPosition := 0 to |begin|
        invariant Valid() && text == old(text) + begin[..inputPosition]
      {
        assert begin[..inputPosition + 1] == begin[..inputPosition] + [begin[inputPosition]];
        PutOne(begin[inputPosition]);
      }
      assert begin[..|begin|] == begin;
    }

    method PutOne(c: byte)
      requires Valid()
      modifies this`bytePos, this`bitPos, this`output, this`text, this`sent, this`block, this`partial, outBuf
      ensures Valid() && text == old(text) + [c]
    {
      hide Stream, BitsOf, Two, Filled, Values;
      var value := lookup[c];
      ValuesAppend(text, c, lookup);
      text := text + [c];
      if value < 0 || value >= 0x100 {
        return;
      }
      StartBlock();
      PutValue(value);
      assert Values(text, lookup) == sent + (block + [value]);
      block := block + [value];
      TextBlockEnd(bitsPerChar, outBuf[..], bytePos, bitPos, partial, block, blockChars);
      if bytePos == outputBlockSize {
        WholeBytes(bitsPerChar, outBuf[..], partial, block, sent, output);
        output := output + outBuf[..outputBlockSize];
        sent, block := sent + block, [];
        bytePos, bitPos, partial := 0, 0, 0;
      }
    }

    /** Clears the buffer before the first character of a block. */
    method StartBlock()
      requires Shape() && InBlock()
      modifies outBuf
      ensures Filled(8, outBuf[..], bytePos, bitPos, partial, Stream(block, bitsPerChar))
    {
      hide Stream, BitsOf, Two, Filled;
      if bytePos == 0 && bitPos == 0 {
        if block != [] {
          CharStays(bitsPerChar, outBuf[..], partial, block);
        }
        forall i | 0 <= i < outBuf.Length {
          outBuf[i] := 0;
        }
        NoBlock(bitsPerChar, outBuf[..]);
      }
    }

    /** The end of the text: the whole bytes of an unfinished block. */
    method MessageEnd() returns (bytes: seq<byte>)
      requires Valid()
      modifies this`bytePos, this`bitPos, this`output, this`text, this`sent, this`block, this`partial
      ensures Valid() && text == []
      ensures Decodes(bytes, Values(old(text), lookup), bitsPerChar)
    {
      hide Stream, BitsOf, Two, Filled, Decodes;
      if block == [] {
        assert sent + block == sent;
        assert outBuf[..bytePos] == [];
        AllDecoded(bitsPerChar, output, sent);
      } else {
        PartDecoded(bitsPerChar, outBuf[..], bytePos, bitPos, partial, block, sent, output);
      }
      bytes := output + outBuf[..bytePos];
      output, text, sent, block := [], [], [], [];
      bytePos, bitPos, partial := 0, 0, 0;
      NoStream(bitsPerChar);
    }
  }

  lemma NoStream(k: nat)
    ensures Stream([], 8) == Stream([], k)
  {
  }

  lemma NoBlock(k: nat, buf: seq<byte>)
    requires forall i :: 0 <= i < |buf| ==> buf[i] == 0
    ensures Filled(8, buf, 0, 0, 0, Stream([], k))
  {
    assert 0 * Two(8) == 0;
  }

  /** Every character leaves bits behind. */
  lemma CharStays(k: nat, buf: seq<byte>, partial: int, block: seq<int>)
    requires 1 <= k && Filled(8, buf, 0, 0, partial, Stream(block, k))
    ensures block == []
  {
    hide BitsOf, Two;
    assert |Stream(block, k)| == 0;
    if |block| >= 1 { MulMonotone(k, 1, |block|); }
  }

  lemma TextBlockEnd(k: nat, buf: seq<byte>, bytePos: nat, bitPos: nat, partial: int, block: seq<int>, chars: nat)
    requires Filled(8, buf, bytePos, bitPos, partial, Stream(block, k)) && |buf| * 8 == k * chars && |block| <= chars
        && 1 <= k
    ensures bytePos <= |buf| && (bytePos == |buf| <==> |block| == chars)
    ensures bytePos == |buf| ==> bitPos == 0
  {
    hide Stream, BitsOf, Two, Below;
    assert |Stream(block, k)| == bytePos * 8 + bitPos;
    if |block| < chars {
      MulMonotone(k, |block| + 1, chars);
      Distribute(|block|, 1, k);
    }
  }

  lemma WholeBytes(k: nat, buf: seq<byte>, partial: int, block: seq<int>, sent: seq<int>, output: seq<byte>)
    requires Filled(8, buf, |buf|, 0, partial, Stream(block, k)) && Stream(output, 8) == Stream(sent, k)
    ensures Stream(output + buf[..|buf|], 8) == Stream(sent + block, k)
  {
    hide Stream, Two;
    StreamJoin(output, buf[..|buf|], 8);
    StreamJoin(sent, block, k);
    assert Stream(buf[..|buf|], 8) + BitsOf(partial, 0) == Stream(buf[..|buf|], 8);
  }

  lemma AllDecoded(k: nat, output: seq<byte>, sent: seq<int>)
    requires Stream(output, 8) == Stream(sent, k)
    ensures Decodes(output + [], sent, k)
  {
    hide Stream;
    assert output + [] == output;
    assert Stream(sent, k)[..|Stream(output, 8)|] == Stream(sent, k);
  }

  lemma PartDecoded(k: nat, buf: seq<byte>, bytePos: nat, bitPos: nat, partial: int, block: seq<int>, sent: seq<int>,
      output: seq<byte>)
    requires Filled(8, buf, bytePos, bitPos, partial, Stream(block, k)) && Stream(output, 8) == Stream(sent, k)
    ensures bytePos <= |buf| && Decodes(output + buf[..bytePos], sent + block, k)
  {
    hide Stream, BitsOf, Two;
    var a, b := Stream(output, 8), Stream(buf[..bytePos], 8);
    StreamJoin(output, buf[..bytePos], 8);
    StreamJoin(sent, block, k);
    assert Stream(sent + block, k) == (a + b) + BitsOf(partial, bitPos);
    assert Stream(sent + block, k)[..|a + b|] == a + b;
  }

  lemma ShiftedUp(v: int, s: nat, t: nat)
    requires s <= t && 0 <= v < Two(s)
    ensures 0 <= v * Two(t - s) < Two(t)
  {
    hide Two;
    JoinBelow(v, 0, Two(s), Two(t - s));
    TwoAdd(s, t - s);
  }

  method DecodedBlockSize(bits: nat) returns (size: nat)
    requires 1 <= bits <= 7
    ensures 1 <= size && WholeBits(size * 8, bits)
    ensures forall x: nat :: 1 <= x < size * 8 ==> !WholeBits(x, bits)
  {
    hide WholeBits;
    var i: nat := bits;
    ghost var n := 1;
    NoneYet(bits);
    while i % 8 != 0
      invariant 1 <= n <= 8 && i == n * bits
      invariant forall x: nat :: 1 <= x < i ==> !WholeBits(x, bits)
      decreases 8 - n
    {
      assert n != 8;
      Between(i, n, bits);
      Distribute(n, 1, bits);
      i := i + bits;
      n := n + 1;
    }
    MulMonotone(bits, 1, n);
    DivUnique(i, bits, n, 0);
    Whole(i, bits);
    size := i / 8;
  }

  lemma NoneYet(bits: nat)
    requires 1 <= bits
    ensures forall x: nat :: 1 <= x < bits ==> !WholeBits(x, bits)
  {
    forall x: nat | 1 <= x < bits
      ensures !WholeBits(x, bits)
    {
      DivUnique(x, bits, 0, x);
    }
  }

  lemma Between(i: nat, n: nat, bits: nat)
    requires 1 <= bits && i == n * bits && i % 8 != 0
    ensures forall x: nat :: i <= x < i + bits ==> !WholeBits(x, bits)
  {
    forall x: nat | i <= x < i + bits
      ensures !WholeBits(x, bits)
    {
      DivUnique(x, bits, n, x - i);
    }
  }

  /** Lookup tables for the alphabet: each value's character leads back to it. */
  ghost predicate Inverts(lookup: seq<int>, alphabet: seq<byte>, k: nat) {
    LookupFor(lookup, k) && Two(k) <= |alphabet| && forall v :: 0 <= v < Two(k) ==> lookup[alphabet[v]] == v
  }

  /** Decoding what was encoded gives the message back, whatever else that has
      no value stands in the text. */
  lemma RoundTrip(message: seq<byte>, values: seq<int>, text: seq<byte>, bytes: seq<byte>, lookup: seq<int>, k: nat)
    requires 1 <= k <= 7 && |lookup| == 0x100
    requires Encodes(values, message, k)
    requires Values(text, lookup) == values
    requires Decodes(bytes, Values(text, lookup), k)
    ensures bytes == message
  {
    hide Stream;
    assert |Stream(message, 8)| == 8 * |message| && |Stream(bytes, 8)| == 8 * |bytes|;
    assert |message| == |bytes|;
    assert Stream(bytes, 8) == Stream(values, k)[..8 * |bytes|] == Stream(message, 8);
    BytesFit(bytes);
    BytesFit(message);
    SameStream(bytes, message, 8);
  }

  lemma BytesFit(s: seq<byte>)
    ensures Below(s, 8)
  {
    TwoEight();
  }

  predicate IsUpper(c: byte) { 65 <= c <= 90 }

  predicate IsLower(c: byte) { 97 <= c <= 122 }

  function ToUpper(c: byte): byte { if IsLower(c) then c - 32 else c }

  function ToLower(c: byte): byte { if IsUpper(c) then c + 32 else c }

  /** Both characters are taken for the same: they are, or they are the two cases
      of one letter where case does not matter. */
  ghost predicate Same(c: byte, d: byte, caseInsensitive: bool) {
    c == d
    || (caseInsensitive && ((0x41 <= c <= 0x5A && d == c + 0x20) || (0x41 <= d <= 0x5A && c == d + 0x20)))
  }

  /** c is taken for character v of the alphabet, one of the first n. */
  ghost predicate IsPlace(c: byte, v: int, alphabet: seq<byte>, n: nat, caseInsensitive: bool)
    requires n <= |alphabet|
  {
    0 <= v < n && Same(alphabet[v], c, caseInsensitive)
  }

  /** The decoding table: a character has the place in the alphabet of the
      character it is taken for, and -1 when there is none. No two characters
      of the alphabet may be taken for the same. */
  method InitializeDecodingLookupArray(lookup: array<int>, alphabet: seq<byte>, base: nat, caseInsensitive: bool)
    requires lookup.Length == 0x100 && base <= |alphabet|
    requires forall i, j :: 0 <= i < j < base ==> !Same(alphabet[i], alphabet[j], caseInsensitive)
    modifies lookup
    ensures forall c: byte, i :: 0 <= i < base && Same(c, alphabet[i], caseInsensitive) ==> lookup[c] == i
    ensures forall c: byte :: lookup[c] == -1 || IsPlace(c, lookup[c], alphabet, base, caseInsensitive)
  {
    forall c | 0 <= c < 0x100 {
      lookup[c] := -1;
    }
    for i := 0 to base
      invariant forall c: byte, j :: 0 <= j < i && Same(c, alphabet[j], caseInsensitive) ==> lookup[c] == j
      invariant forall c: byte :: lookup[c] == -1 || IsPlace(c, lookup[c], alphabet, i, caseInsensitive)
    {
      var a := alphabet[i];
      if caseInsensitive && (IsUpper(a) || IsLower(a)) {
        assert lookup[ToUpper(a)] == -1 && lookup[ToLower(a)] == -1;
        lookup[ToUpper(a)] := i;
        lookup[ToLower(a)] := i;
      } else {
        assert lookup[a] == -1;
        lookup[a] := i;
      }
    }
  }

  /** The table of a full alphabet inverts it, in either case of letters. */
  lemma TableInverts(lookup: seq<int>, alphabet: seq<byte>, k: nat, caseInsensitive: bool)
    requires k <= 7 && |lookup| == 0x100 && Two(k) <= |alphabet|
    requires forall c: byte, i :: 0 <= i < Two(k) && Same(c, alphabet[i], caseInsensitive) ==> lookup[c] == i
    requires forall c: byte :: lookup[c] == -1 || 0 <= lookup[c] < Two(k)
    ensures Inverts(lookup, alphabet, k)
  {
    hide Two;
  }

  /** The characters of an encoded text have the encoded values; padding and
      any separator outside the alphabet have none. */
  lemma {:induction false} TextValues(values: seq<int>, alphabet: seq<byte>, lookup: seq<int>, k: nat, pads: seq<byte>)
    requires k <= 7 && Below(values, k) && Inverts(lookup, alphabet, k)
    requires forall i :: 0 <= i < |pads| ==> lookup[pads[i]] < 0 || lookup[pads[i]] >= 0x100
    ensures Values(Spell(values, alphabet) + pads, lookup) == values
    decreases |pads|
  {
    hide Values, Spell, Below, Two;
    Spellable(values, alphabet, lookup, k);
    if |pads| > 0 {
      var front := pads[..|pads| - 1];
      TextValues(values, alphabet, lookup, k, front);
      assert Spell(values, alphabet) + pads == (Spell(values, alphabet) + front) + [pads[|pads| - 1]];
      ValuesAppend(Spell(values, alphabet) + front, pads[|pads| - 1], lookup);
    } else {
      SpelledValues(values, alphabet, lookup, k);
      assert Spell(values, alphabet) + pads == Spell(values, alphabet);
    }
  }

  lemma Spellable(values: seq<int>, alphabet: seq<byte>, lookup: seq<int>, k: nat)
    requires Below(values, k) && Inverts(lookup, alphabet, k)
    ensures forall i :: 0 <= i < |values| ==> 0 <= values[i] < |alphabet|
  {
    hide Two;
  }

  lemma {:induction false} SpelledValues(values: seq<int>, alphabet: seq<byte>, lookup: seq<int>, k: nat)
    requires k <= 7 && Below(values, k) && Inverts(lookup, alphabet, k)
    requires forall i :: 0 <= i < |values| ==> 0 <= values[i] < |alphabet|
    ensures Values(Spell(values, alphabet), lookup) == values
    decreases |values|
  {
    hide Values, Spell, Two;
    if values == [] {
      NoValues(alphabet, lookup);
    } else {
      var front, v := values[..|values| - 1], values[|values| - 1];
      SpelledValues(front, alphabet, lookup, k);
      SpellLast(values, alphabet);
      SmallValue(v, k);
      ValuesAppend(Spell(front, alphabet), alphabet[v], lookup);
    }
  }

  lemma NoValues(alphabet: seq<byte>, lookup: seq<int>)
    requires |lookup| == 0x100
    ensures Values(Spell([], alphabet), lookup) == []
  {
  }

  lemma SpellLast(values: seq<int>, alphabet: seq<byte>)
    requires 0 < |values| && forall i :: 0 <= i < |values| ==> 0 <= values[i] < |alphabet|
    ensures Spell(values, alphabet)
         == Spell(values[..|values| - 1], alphabet) + [alphabet[values[|values| - 1]]]
  {
  }

  lemma SmallValue(v: int, k: nat)
    requires 0 <= v < Two(k) && k <= 7
    ensures v < 0x100
  {
    hide Two;
    TwoAdd(k, 8 - k);
    TwoEight();
    MulMonotone(Two(k), 1, Two(8 - k));
  }

  /** Characters without a value make no difference wherever they stand. */
  lemma {:induction false} Ignored(a: seq<byte>, c: byte, b: seq<byte>, lookup: seq<int>)
    requires |lookup| == 0x100 && (lookup[c] < 0 || lookup[c] >= 0x100)
    ensures Values(a + [c] + b, lookup) == Values(a + b, lookup)
    decreases |b|
  {
    if b == [] {
      assert a + [c] + b == a + [c] && a + b == a;
      ValuesAppend(a, c, lookup);
    } else {
      var front, d := b[..|b| - 1], b[|b| - 1];
      Ignored(a, c, front, lookup);
      assert a + [c] + b == (a + [c] + front) + [d] && a + b == (a + front) + [d];
      ValuesAppend(a + [c] + front, d, lookup);
      ValuesAppend(a + front, d, lookup);
    }
  }

  /** A text put piece by piece. */
  method PutInPieces(decoder: Decoder, text: seq<byte>, cuts: seq<nat>)
    requires decoder.Valid() && decoder.text == []
    modifies decoder, decoder.outBuf
    ensures decoder.Valid() && decoder.text == text
  {
    hide Decoder.Valid;
    var done: nat := 0;
    for i := 0 to |cuts|
      invariant done <= |text| && decoder.Valid() && decoder.text == text[..done]
    {
      var c := Min(done + cuts[i], |text|);
      decoder.Put(text[done..c]);
      assert text[..done] + text[done..c] == text[..c];
      done := c;
    }
    decoder.Put(text[done..]);
    assert text[..done] + text[done..] == text;
  }

  /** A message through both filters, each fed in any pieces: the decoder takes as
      many characters at a time as the cuts say, and then the rest. */
  method EncodeThenDecode(encoder: Encoder, decoder: Decoder, pieces: seq<seq<byte>>, cuts: seq<nat>)
    returns (bytes: seq<byte>)
    requires encoder.Valid() && decoder.Valid() && encoder.Message() == [] && decoder.text == []
    requires encoder.bitsPerChar == decoder.bitsPerChar && encoder.outBuf != decoder.outBuf
    requires Inverts(decoder.lookup, encoder.alphabet, encoder.bitsPerChar)
    requires 0 <= encoder.padding ==> decoder.lookup[encoder.padding] < 0
    modifies encoder, encoder.outBuf, decoder, decoder.outBuf
    ensures bytes == Concat(pieces)
  {
    hide Stream, Two, Filled, Values, Encodes, Decodes, Below, LookupFor, Encoder.Valid, Decoder.Valid;
    Parameters(encoder, decoder);
    for i := 0 to |pieces|
      invariant encoder.Valid() && encoder.Message() == Concat(pieces[..i]) && decoder.Valid() && decoder.text == []
    {
      assert pieces[..i + 1] == pieces[..i] + [pieces[i]];
      encoder.Put(pieces[i]);
    }
    assert pieces[..|pieces|] == pieces;
    ghost var values;
    var text;
    text, values := encoder.MessageEnd();
    PutInPieces(decoder, text, cuts);
    bytes := decoder.MessageEnd();
    EncodedValues(text, values, Concat(pieces), encoder.alphabet, encoder.padding, encoder.outputBlockSize,
      decoder.lookup, encoder.bitsPerChar);
    RoundTrip(Concat(pieces), values, text, bytes, decoder.lookup, encoder.bitsPerChar);
  }

  lemma Parameters(encoder: Encoder, decoder: Decoder)
    requires encoder.Valid() && decoder.Valid()
    ensures 1 <= encoder.bitsPerChar <= 7 && 1 <= encoder.outputBlockSize && |decoder.lookup| == 0x100
    ensures -1 <= encoder.padding < 0x100
  {
  }

  lemma EncodedValues(text: seq<byte>, values: seq<int>, message: seq<byte>, alphabet: seq<byte>, padding: int,
      size: nat, lookup: seq<int>, k: nat)
    requires 1 <= k <= 7 && 1 <= size && -1 <= padding < 0x100 && Encodes(values, message, k)
    requires IsText(text, values, alphabet, padding, size) && Inverts(lookup, alphabet, k)
    requires 0 <= padding ==> lookup[padding] < 0
    ensures Values(text, lookup) == values
  {
    hide Stream, Two, Values, Spell;
    var pads := text[|values|..];
    TextValues(values, alphabet, lookup, k, pads);
    assert text == Spell(values, alphabet) + pads;
  }

  /** Initialisation refuses every number of bits outside 1 to 7. */
  method NewDecoder(lookup: seq<int>, log2base: int) returns (decoder: Decoder?)
    requires 1 <= log2base <= 7 ==> LookupFor(lookup, log2base)
    ensures decoder == null <==> log2base <= 0 || log2base >= 8
    ensures decoder != null ==> fresh(decoder) && fresh(decoder.outBuf) && decoder.Valid() && decoder.text == []
    ensures decoder != null ==> decoder.bitsPerChar == log2base && decoder.lookup == lookup
  {
    if log2base <= 0 || log2base >= 8 {
      return null;  // InvalidArgument
    }
    decoder := new Decoder(lookup, log2base);
  }
}
