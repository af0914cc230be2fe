/** Encoding bytes with 1 to 7 bits per character. */
module BaseNEncoder {
  import opened Arithmetic
  import opened Shifts
  import opened Bits
  import opened Bytes

  /** The characters standing for some values. */
  ghost function Spell(values: seq<int>, alphabet: seq<byte>): (text: seq<byte>)
    requires forall i :: 0 <= i < |values| ==> 0 <= values[i] < |alphabet|
    ensures |text| == |values|
  {
    seq(|values|, i requires 0 <= i < |values| => alphabet[values[i]])
  }

  /** These values carry the bits of the message, filled with zeros to a whole
      number of them. */
  ghost predicate Encodes(values: seq<int>, message: seq<byte>, k: nat)
    requires 1 <= k
  {
    Below(values, k) && |Stream(message, 8)| <= |Stream(values, k)| < |Stream(message, 8)| + k
    && Stream(values, k) == Stream(message, 8) + Zeros(|Stream(values, k)| - |Stream(message, 8)|)
  }

  /** Three bytes in values of six bits (section 4 of RFC 4648). */
  lemma ThreeBytes(a: byte, b: byte, c: byte, values: seq<int>)
    requires Encodes(values, [a, b, c], 6)
    ensures values == [a / 4, a % 4 * 16 + b / 16, b % 16 * 4 + c / 64, c % 64]
  {
    hide Two, BitsOf, Stream;
    var four := [a / 4, a % 4 * 16 + b / 16, b % 16 * 4 + c / 64, c % 64];
    PowersHere();
    assert Below(four, 6);
    BitsJoin(a / 4, a % 4, 6, 2);
    BitsJoin(a % 4, b / 16, 2, 4);
    BitsJoin(b / 16, b % 16, 4, 4);
    BitsJoin(b % 16, c / 64, 4, 2);
    BitsJoin(c / 64, c % 64, 2, 6);
    StreamOfThree(a, b, c);
    StreamOfFour(four[0], four[1], four[2], four[3]);
    assert Stream(four, 6) == Stream([a, b, c], 8);
    assert |values| == 4;
    SameStream(values, four, 6);
  }

  lemma PowersHere()
    ensures Two(2) == 4 && Two(4) == 16 && Two(6) == 64
  {
    TwoNext(0);
    TwoNext(1);
    TwoNext(2);
    TwoNext(3);
    TwoNext(4);
    TwoNext(5);
  }

  lemma StreamOfThree(a: int, b: int, c: int)
    ensures Stream([a, b, c], 8) == BitsOf(a, 8) + BitsOf(b, 8) + BitsOf(c, 8)
  {
    hide BitsOf;
    assert [a, b, c] == ([] + [a]) + [b] + [c];
    StreamAppend([], a, 8);
    StreamAppend([a], b, 8);
    StreamAppend([a, b], c, 8);
    assert [] + [a] == [a] && [a] + [b] == [a, b] && [a, b] + [c] == [a, b, c];
  }

  lemma StreamOfFour(a: int, b: int, c: int, d: int)
    ensures Stream([a, b, c, d], 6) == BitsOf(a, 6) + BitsOf(b, 6) + BitsOf(c, 6) + BitsOf(d, 6)
  {
    hide BitsOf;
    StreamAppend([], a, 6);
    StreamAppend([a], b, 6);
    StreamAppend([a, b], c, 6);
    StreamAppend([a, b, c], d, 6);
    assert [] + [a] == [a] && [a] + [b] == [a, b] && [a, b] + [c] == [a, b, c] && [a, b, c] + [d] == [a, b, c, d];
  }

  /** The text of a message: its values spelled out, then padding to whole blocks
      if there is a padding character. */
  ghost predicate IsText(text: seq<byte>, values: seq<int>, alphabet: seq<byte>, padding: int, blockSize: nat)
    requires 1 <= blockSize
  {
    && (forall i :: 0 <= i < |values| ==> 0 <= values[i] < |alphabet|)
    && |values| <= |text| && text[..|values|] == Spell(values, alphabet)
    && (forall i :: |values| <= i < |text| ==> text[i] as int == padding)
    && if padding == -1 then |text| == |values| else |text| < |values| + blockSize && Multiple(|text|, blockSize)
  }

  /** The first bytePos places hold whole values, the next one the bitPos bits
      of partial at its top, the others nothing: together the bits acc. */
  ghost predicate Filled(k: nat, buf: seq<byte>, bytePos: nat, bitPos: nat, partial: int, acc: seq<bool>) {
    && bytePos <= |buf| && bitPos < k && 0 <= partial < Two(bitPos)
    && Below(buf[..bytePos], k)
    && acc == Stream(buf[..bytePos], k) + BitsOf(partial, bitPos)
    && (bytePos < |buf| ==> buf[bytePos] == partial * Two(k - bitPos))
    && (bytePos == |buf| ==> bitPos == 0)
    && forall j :: bytePos < j < |buf| ==> buf[j] == 0
  }

  /** x | y for a multiple x of a power of two above y. */
  function Or(x: int, y: int, ghost high: int, ghost t: nat): int
    requires x == high * Two(t) && 0 <= y < Two(t)
  {
    x + y
  }

  lemma CompleteValue(k: nat, buf: seq<byte>, buf': seq<byte>, bytePos: nat, bitPos: nat, partial: int,
      acc: seq<bool>, hi: int)
    requires Filled(k, buf, bytePos, bitPos, partial, acc) && bytePos < |buf| == |buf'|
    requires 0 <= hi < Two(k - bitPos) && buf'[bytePos] == buf[bytePos] + hi
    requires forall j :: 0 <= j < |buf| && j != bytePos ==> buf'[j] == buf[j]
    ensures Filled(k, buf', bytePos + 1, 0, 0, acc + BitsOf(hi, k - bitPos))
  {
    hide Stream, BitsOf, Two;
    var t := k - bitPos;
    var v := buf'[bytePos];
    assert buf'[..bytePos + 1] == buf[..bytePos] + [v];
    StreamAppend(buf[..bytePos], v, k);
    BitsJoin(partial, hi, bitPos, t);
    TwoAdd(bitPos, t);
    JoinBelow(partial, hi, Two(bitPos), Two(t));
    NoBits();
    assert acc + BitsOf(hi, t) == Stream(buf[..bytePos], k) + (BitsOf(partial, bitPos) + BitsOf(hi, t));
  }

  lemma NoBits()
    ensures Two(0) == 1 && BitsOf(0, 0) == [] && forall t: nat :: 0 * Two(t) == 0
  {
  }

  lemma JoinBelow(x: int, y: int, p: int, q: int)
    requires 0 <= x < p && 0 <= y < q
    ensures 0 <= x * q + y < p * q
  {
    MulMonotone(q, x, p - 1);
    MulMonotone(q, 0, x);
    Distribute(p, 1, q);
  }

  lemma ExtendValue(k: nat, buf: seq<byte>, buf': seq<byte>, bytePos: nat, bitPos: nat, partial: int, acc: seq<bool>,
      low: int, s: nat)
    requires Filled(k, buf, bytePos, bitPos, partial, acc) && bytePos < |buf| == |buf'| && s < k - bitPos
    requires 0 <= low < Two(s) && buf'[bytePos] == buf[bytePos] + low * Two(k - bitPos - s)
    requires forall j :: 0 <= j < |buf| && j != bytePos ==> buf'[j] == buf[j]
    ensures Filled(k, buf', bytePos, bitPos + s, partial * Two(s) + low, acc + BitsOf(low, s))
  {
    hide Stream, BitsOf, Two;
    var t := k - bitPos;
    assert buf'[..bytePos] == buf[..bytePos];
    BitsJoin(partial, low, bitPos, s);
    TwoAdd(bitPos, s);
    JoinBelow(partial, low, Two(bitPos), Two(s));
    TwoAdd(s, t - s);
    Distribute(partial * Two(s), low, Two(t - s));
    assert (partial * Two(s)) * Two(t - s) == partial * (Two(s) * Two(t - s));
    assert acc + BitsOf(low, s) == Stream(buf[..bytePos], k) + (BitsOf(partial, bitPos) + BitsOf(low, s));
  }

  /** A left-aligned run of s bits, cut after its top t. */
  lemma CutTop(R: int, s: nat, t: nat) returns (hi: int, lo: int)
    requires t <= s <= 8 && 0 <= R < Two(s)
    ensures R == hi * Two(s - t) + lo && 0 <= hi < Two(t) && 0 <= lo < Two(s - t)
    ensures R * Two(8 - s) / Two(8 - t) == hi
    ensures R * Two(8 - s) * Two(t) % 0x100 == lo * Two(8 - (s - t))
    ensures BitsOf(R, s) == BitsOf(hi, t) + BitsOf(lo, s - t)
  {
    hide Two, BitsOf;
    var p, q, u := Two(s - t), Two(t), Two(8 - s);
    hi, lo := R / p, R % p;
    DivParts(R, p);
    TwoAdd(t, s - t);
    if hi >= q { MulMonotone(p, q, hi); }
    if hi < 0 { MulMonotone(p, hi, -1); }
    BitsJoin(hi, lo, t, s - t);
    TwoAdd(s - t, 8 - s);
    TwoAdd(t, 8 - t);
    TwoAdd(8 - s, t);
    TwoEight();
    CutProducts(R, hi, lo, p, q, u);
  }

  lemma TwoEight()
    ensures Two(8) == 0x100
  {
  }

  lemma CutProducts(R: int, hi: int, lo: int, p: int, q: int, u: int)
    requires R == hi * p + lo && 0 <= lo < p && 0 < u && 0 < q && q * (p * u) == 0x100
    ensures R * u / (p * u) == hi
    ensures R * u * q % 0x100 == lo * (u * q)
  {
    var w, z := p * u, lo * u;
    JoinBelow(lo, 0, p, u);
    Distribute(hi * p, lo, u);
    Regroup(hi, p, u);
    DivUnique(R * u, w, hi, z);
    JoinBelow(z, 0, w, q);
    Regroup(lo, u, q);
    ShiftOut(hi, w, z, q);
  }

  lemma ShiftOut(hi: int, w: int, z: int, q: int)
    requires q * w == 0x100 && 0 <= z * q < 0x100
    ensures (hi * w + z) * q % 0x100 == z * q
  {
    Distribute(hi * w, z, q);
    Regroup(hi, w, q);
    assert w * q == q * w;
    DivUnique((hi * w + z) * q, 0x100, hi, z * q);
  }

  /** A run shorter than the space: shifted down to the top of it. */
  lemma CutShort(R: int, s: nat, t: nat)
    requires s < t <= 8 && 0 <= R < Two(s)
    ensures R * Two(8 - s) / Two(8 - t) == R * Two(t - s) && 0 <= R * Two(t - s) < Two(t)
  {
    hide Two;
    TwoAdd(t - s, 8 - t);
    TwoAdd(s, t - s);
    DivExact(R, Two(t - s), Two(8 - t));
    JoinBelow(R, 0, Two(s), Two(t - s));
  }

  lemma DivExact(x: int, p: int, q: int)
    requires 0 < q
    ensures x * (p * q) / q == x * p
  {
    Regroup(x, p, q);
    DivUnique(x * (p * q), q, x * p, 0);
  }

  class Encoder {
    const bitsPerChar: nat
    const outputBlockSize: nat
    const alphabet: seq<byte>
    const padding: int
    const outBuf: array<byte>
    var bytePos: nat
    var bitPos: nat
    /** What went out for the current message. */
    var output: seq<byte>

    /** Bytes of the message whose characters went out, those characters'
        values, the bytes of the block in work, and its unfinished value. */
    ghost var sent: seq<byte>
    ghost var values: seq<int>
    ghost var block: seq<byte>
    ghost var partial: int
    ghost const blockBytes: nat

    ghost predicate Shape() {
      && 1 <= bitsPerChar <= 7 && 1 <= outputBlockSize == outBuf.Length
      && outputBlockSize * bitsPerChar == 8 * blockBytes
      && Two(bitsPerChar) <= |alphabet| && -1 <= padding < 0x100
    }

    ghost predicate Flushed()
      reads this
    {
      && Below(values, bitsPerChar) && Stream(sent, 8) == Stream(values, bitsPerChar)
      && (1 <= outputBlockSize ==> Multiple(|values|, outputBlockSize))
      && (forall i :: 0 <= i < |values| ==> 0 <= values[i] < |alphabet|)
      && output == Spell(values, alphabet)
    }

    ghost predicate InBlock()
      reads this, outBuf
    {
      if block == [] then bytePos == 0 && bitPos == 0 && partial == 0
      else Filled(bitsPerChar, outBuf[..], bytePos, bitPos, partial, Stream(block, 8))
    }

    ghost predicate Valid()
      reads this, outBuf
    {
      Shape() && Flushed() && InBlock() && |block| < blockBytes
    }

    ghost function Message(): seq<byte>
      reads this
    {
      sent + block
    }

    /** The smallest block of whole bytes and whole characters. */
    constructor (alphabet: seq<byte>, log2base: nat, padding: int)
      requires 1 <= log2base <= 7 && Two(log2base) <= |alphabet| && -1 <= padding < 0x100
      ensures Valid() && Message() == [] && fresh(outBuf)
      ensures bitsPerChar == log2base && this.alphabet == alphabet && this.padding == padding
      ensures WholeBits(outputBlockSize * bitsPerChar, bitsPerChar)
      ensures forall x: nat :: 1 <= x < outputBlockSize * bitsPerChar ==> !WholeBits(x, bitsPerChar)
    {
      var size := OutputBlockSize(log2base);
      bitsPerChar, this.alphabet, this.padding := log2base, alphabet, padding;
      outputBlockSize, outBuf := size, new byte[size](i => 0);
      blockBytes := size * log2base / 8;
      bytePos, bitPos, output := 0, 0, [];
      sent, values, block, partial := [], [], [], 0;
      new;
      MultipleBasics(size);
    }

    /** The bits missing from the current value, which is then complete. */
    method FillValue(bits: int, bitsLeftInTarget: nat, ghost acc: seq<bool>)
      requires Shape() && bitPos < bitsPerChar && bytePos < outBuf.Length && bitsLeftInTarget == bitsPerChar - bitPos
      requires Filled(bitsPerChar, outBuf[..], bytePos, bitPos, partial, acc) && 0 <= bits < Two(bitsLeftInTarget)
      modifies this`bytePos, this`bitPos, this`partial, outBuf
      ensures Filled(bitsPerChar, outBuf[..], bytePos, bitPos, partial, acc + BitsOf(bits, bitsLeftInTarget))
      ensures bitPos == 0
    {
      hide Stream, BitsOf, Two;
      ghost var buf := outBuf[..];
      RoomFor(bitsPerChar, partial, bitPos, bits);
      outBuf[bytePos] := Or(outBuf[bytePos], bits, partial, bitsLeftInTarget);
      CompleteValue(bitsPerChar, buf, outBuf[..], bytePos, bitPos, partial, acc, bits);
      bitPos := 0;
      partial := 0;
      bytePos := bytePos + 1;
    }

    /** The top of what is left of a byte completes a value; the rest moves up. */
    method TakeBits(b: byte, ghost R: int, s: nat, t: nat, ghost acc: seq<bool>)
      returns (b': byte, ghost R': int, ghost acc': seq<bool>)
      requires Shape() && bitPos < bitsPerChar && bytePos < outBuf.Length && t == bitsPerChar - bitPos <= s <= 8
      requires 0 <= R < Two(s) && b == R * Two(8 - s)
      requires Filled(bitsPerChar, outBuf[..], bytePos, bitPos, partial, acc)
      modifies this`bytePos, this`bitPos, this`partial, outBuf
      ensures Filled(bitsPerChar, outBuf[..], bytePos, bitPos, partial, acc') && bitPos == 0
      ensures 0 <= R' < Two(s - t) && b' == R' * Two(8 - (s - t))
      ensures acc' + BitsOf(R', s - t) == acc + BitsOf(R, s) && |acc'| == |acc| + t
    {
      hide Stream, BitsOf, Two, Filled;
      ghost var hi, lo := CutTop(R, s, t);
      FillValue(b / Two(8 - t), t, acc);
      acc' := acc + BitsOf(hi, t);
      assert acc' + BitsOf(lo, s - t) == acc + (BitsOf(hi, t) + BitsOf(lo, s - t));
      b' := b * Two(t) % 0x100;
      R' := lo;
    }

    /** s bits that do not complete the current value. */
    method StartValue(bits: int, bitsLeftInTarget: nat, ghost low: int, s: nat, ghost acc: seq<bool>)
      requires Shape() && bitPos < bitsPerChar && bytePos < outBuf.Length
          && s < bitsLeftInTarget == bitsPerChar - bitPos
      requires Filled(bitsPerChar, outBuf[..], bytePos, bitPos, partial, acc)
      requires 0 <= low < Two(s) && bits == low * Two(bitsLeftInTarget - s) && 0 <= bits < Two(bitsLeftInTarget)
      modifies this`bitPos, this`partial, outBuf
      ensures Filled(bitsPerChar, outBuf[..], bytePos, bitPos, partial, acc + BitsOf(low, s))
      ensures bitPos == old(bitPos) + s
    {
      hide Stream, BitsOf, Two;
      ghost var buf := outBuf[..];
      RoomFor(bitsPerChar, partial, bitPos, bits);
      outBuf[bytePos] := Or(outBuf[bytePos], bits, partial, bitsLeftInTarget);
      ExtendValue(bitsPerChar, buf, outBuf[..], bytePos, bitPos, partial, acc, low, s);
      partial := partial * Two(s) + low;
      bitPos := bitPos + s;
    }

    /** Clears the buffer before the first byte of a block. */
    method StartByte()
      requires Valid()
      modifies this`bitPos, this`partial, outBuf
      ensures bitPos < bitsPerChar && Filled(bitsPerChar, outBuf[..], bytePos, bitPos, partial, Stream(block, 8))
    {
      hide Stream, BitsOf, Two, Filled;
      if block != [] {
        BitsBelow(bitsPerChar, outBuf[..], bytePos, bitPos, partial, Stream(block, 8));
      }
      if bytePos == 0 {
        if block != [] {
          ByteCompletes(bitsPerChar, outBuf[..], bitPos, partial, block);
        }
        forall i | 0 <= i < outBuf.Length {
          outBuf[i] := 0;
        }
        EmptyBlock(bitsPerChar, outBuf[..]);
      }
    }

    /** There is room as long as a byte of the block is unfinished. */
    lemma RoomLeft(acc: seq<bool>, n: nat, s: nat)
      requires Shape() && Filled(bitsPerChar, outBuf[..], bytePos, bitPos, partial, acc)
      requires |acc| == 8 * n + 8 - s && 1 <= s && n < blockBytes
      ensures bytePos < outBuf.Length && bitsPerChar <= 7
    {
      hide Stream, BitsOf, Two;
    }

    /** The eight bits of one byte into the current block. */
    method PutByte(x: byte)
      requires Shape() && |block| < blockBytes
      requires bitPos < bitsPerChar && Filled(bitsPerChar, outBuf[..], bytePos, bitPos, partial, Stream(block, 8))
      modifies this`bytePos, this`bitPos, this`partial, outBuf
      ensures bitPos < bitsPerChar
      ensures Filled(bitsPerChar, outBuf[..], bytePos, bitPos, partial, Stream(block + [x], 8))
    {
      hide Stream, BitsOf, Two, Filled;
      ghost var k := bitsPerChar;
      var b: byte, bitsLeftInSource: nat := x, 8;
      ghost var R: int, acc, n := x, Stream(block, 8), |block|;
      ghost var whole := acc + BitsOf(x, 8);
      WholeByte(x);
      while true
        invariant 1 <= bitsLeftInSource <= 8 && 0 <= R < Two(bitsLeftInSource) && b == R * Two(8 - bitsLeftInSource)
        invariant bitPos < bitsPerChar && Filled(bitsPerChar, outBuf[..], bytePos, bitPos, partial, acc)
        invariant acc + BitsOf(R, bitsLeftInSource) == whole && |acc| == 8 * n + 8 - bitsLeftInSource
        decreases bitsLeftInSource
      {
        RoomLeft(acc, n, bitsLeftInSource);
        var bitsLeftInTarget := bitsPerChar - bitPos;
        if bitsLeftInSource >= bitsLeftInTarget {
          b, R, acc := TakeBits(b, R, bitsLeftInSource, bitsLeftInTarget, acc);
          bitsLeftInSource := bitsLeftInSource - bitsLeftInTarget;
          if bitsLeftInSource == 0 {
            AllTaken(acc, R, whole);
            break;
          }
        } else {
          CutShort(R, bitsLeftInSource, bitsLeftInTarget);
          StartValue(b / Two(8 - bitsLeftInTarget), bitsLeftInTarget, R, bitsLeftInSource, acc);
          break;
        }
      }
      assert Filled(bitsPerChar, outBuf[..], bytePos, bitPos, partial, whole);
      StreamAppend(block, x, 8);
    }

    /** Part of a message. */
    method Put(begin: seq<byte>)
      requires Valid()
      modifies this`bytePos, this`bitPos, this`output, this`sent, this`values, this`block, this`partial, outBuf
      ensures Valid() && Message() == old(Message()) + begin
    {
      hide *;
      for inputPosition := 0 to |begin|
        invariant Valid() && Message() == old(Message()) + begin[..inputPosition]
      {
        assert begin[..inputPosition + 1] == begin[..inputPosition] + [begin[inputPosition]];
        PutOne(begin[inputPosition]);
      }
      assert begin[..|begin|] == begin;
    }

    method PutOne(x: byte)
      requires Valid()
      modifies this`bytePos, this`bitPos, this`output, this`sent, this`values, this`block, this`partial, outBuf
      ensures Valid() && Message() == old(Message()) + [x]
    {
      hide Stream, BitsOf, Two, Filled, Below, Multiple, Spell;
      StartByte();
      PutByte(x);
      block := block + [x];
      BlockEnd(bitsPerChar, outBuf[..], bytePos, bitPos, partial, block, blockBytes);
      if bytePos == outputBlockSize {
        WholeBlock(bitsPerChar, outBuf[..], partial, block, blockBytes, sent, values);
        MultipleBasics(outputBlockSize);
        MultipleSum(|values|, |outBuf[..]|, outputBlockSize);
        SendBlock(outputBlockSize);
        sent, block := sent + block, [];
        bytePos, bitPos, partial := 0, 0, 0;
      }
    }

    /** The first n values of the buffer become characters. */
    method SendBlock(n: nat)
      requires n <= outBuf.Length && Below(outBuf[..n], bitsPerChar) && Two(bitsPerChar) <= |alphabet|
      requires forall i :: 0 <= i < |values| ==> 0 <= values[i] < |alphabet|
      requires output == Spell(values, alphabet)
      modifies this`output, this`values, outBuf
      ensures values == old(values) + old(outBuf[..n])
      ensures forall i :: 0 <= i < |values| ==> 0 <= values[i] < |alphabet|
      ensures output == Spell(values, alphabet)
    {
      hide Two, Stream;
      ghost var v, values0, output0 := outBuf[..n], values, output;
      for i := 0 to n
        invariant values == values0 && output == output0
        invariant forall j :: 0 <= j < i ==> outBuf[j] == alphabet[v[j]]
        invariant forall j :: i <= j < n ==> outBuf[j] == v[j]
      {
        assert v[i] == outBuf[i];
        outBuf[i] := alphabet[outBuf[i]];
      }
      output := output + outBuf[..n];
      values := values + v;
    }

    /** The end of the message: the unfinished value, and padding. */
    method MessageEnd() returns (text: seq<byte>, ghost spelled: seq<int>)
      requires Valid()
      modifies this`bytePos, this`bitPos, this`output, this`sent, this`values, this`block, this`partial, outBuf
      ensures Valid() && Message() == []
      ensures Encodes(spelled, old(Message()), bitsPerChar)
      ensures IsText(text, spelled, alphabet, padding, outputBlockSize)
    {
      hide Stream, BitsOf, Two, Filled, Below, Multiple, Spell, Encodes, IsText;
      if block == [] {
        NothingLeft(values, sent, bitsPerChar);
        assert sent + block == sent;
        assert outBuf[..bytePos] == [];
      } else {
        Unfinished(bitsPerChar, outBuf[..], bytePos, bitPos, partial, block, sent, values);
      }
      if bitPos > 0 {
        bytePos := bytePos + 1;
      }
      ghost var blocks := values;
      SendBlock(bytePos);
      text, spelled := output, values;
      if padding != -1 && bytePos > 0 {
        text := text + seq(outputBlockSize - bytePos, i => padding);
      }
      Padded(text, spelled, alphabet, padding, outputBlockSize, |blocks|, bytePos);
      output, sent, values, block := [], [], [], [];
      bytePos, bitPos, partial := 0, 0, 0;
      Fresh(bitsPerChar, outputBlockSize);
    }
  }

  /** After a byte the block is either complete or has room for another one. */
  lemma BlockEnd(k: nat, buf: seq<byte>, bytePos: nat, bitPos: nat, partial: int, block: seq<byte>, bytes: nat)
    requires Filled(k, buf, bytePos, bitPos, partial, Stream(block, 8)) && |buf| * k == 8 * bytes && |block| <= bytes
    ensures bytePos <= |buf| && (bytePos == |buf| <==> |block| == bytes)
    ensures bytePos == |buf| ==> bitPos == 0
  {
    hide Stream, BitsOf, Two, Below;
    assert |Stream(block, 8)| == bytePos * k + bitPos;
    EndTogether(bytePos, k, bitPos, |buf|, |block|, bytes);
  }

  lemma EndTogether(bytePos: nat, k: nat, bitPos: nat, size: nat, n: nat, bytes: nat)
    requires bytePos * k + bitPos == 8 * n && size * k == 8 * bytes && bitPos < k && bytePos <= size
    requires bytePos == size ==> bitPos == 0
    ensures bytePos == size <==> n == bytes
  {
    if bytePos < size {
      MulMonotone(k, bytePos + 1, size);
      Distribute(bytePos, 1, k);
    }
  }

  lemma WholeBlock(k: nat, buf: seq<byte>, partial: int, block: seq<byte>, bytes: nat, sent: seq<byte>,
      values: seq<int>)
    requires Filled(k, buf, |buf|, 0, partial, Stream(block, 8))
    requires Below(values, k) && Stream(sent, 8) == Stream(values, k)
    ensures Below(buf[..|buf|], k) && Below(values + buf[..|buf|], k)
    ensures Stream(sent + block, 8) == Stream(values + buf[..|buf|], k)
  {
    hide Stream, Two;
    StreamJoin(sent, block, 8);
    StreamJoin(values, buf[..|buf|], k);
    assert Stream(buf[..|buf|], k) + BitsOf(partial, 0) == Stream(buf[..|buf|], k);
  }

  lemma NothingLeft(values: seq<int>, sent: seq<byte>, k: nat)
    requires 1 <= k && Below(values, k) && Stream(sent, 8) == Stream(values, k)
    ensures Encodes(values + [], sent, k) && Below([], k)
  {
    hide Stream;
    assert values + [] == values;
    assert Stream(sent, 8) + Zeros(0) == Stream(sent, 8);
  }

  lemma Unfinished(k: nat, buf: seq<byte>, bytePos: nat, bitPos: nat, partial: int, block: seq<byte>, sent: seq<byte>,
      values: seq<int>)
    requires Filled(k, buf, bytePos, bitPos, partial, Stream(block, 8))
    requires Below(values, k) && Stream(sent, 8) == Stream(values, k)
    ensures var n := if bitPos > 0 then bytePos + 1 else bytePos;
      n <= |buf| && Below(buf[..n], k) && Encodes(values + buf[..n], sent + block, k)
  {
    hide Stream, BitsOf, Two;
    var n := if bitPos > 0 then bytePos + 1 else bytePos;
    var t := if bitPos > 0 then k - bitPos else 0;
    if bitPos > 0 {
      LastValue(k, buf, bytePos, bitPos, partial, Stream(block, 8));
    } else {
      NoneLeft(partial);
      assert Stream(buf[..n], k) == Stream(block, 8) + Zeros(0);
    }
    JoinEncoded(values, buf[..n], sent, block, k, t);
  }

  lemma LastValue(k: nat, buf: seq<byte>, bytePos: nat, bitPos: nat, partial: int, acc: seq<bool>)
    requires Filled(k, buf, bytePos, bitPos, partial, acc) && bitPos > 0
    ensures bytePos < |buf| && Below(buf[..bytePos + 1], k)
    ensures Stream(buf[..bytePos + 1], k) == acc + Zeros(k - bitPos)
  {
    hide Stream, BitsOf, Two;
    var t := k - bitPos;
    var v := buf[bytePos];
    assert buf[..bytePos + 1] == buf[..bytePos] + [v];
    StreamAppend(buf[..bytePos], v, k);
    BitsJoin(partial, 0, bitPos, t);
    ZeroBits(t);
    RoomFor0(k, partial, bitPos);
    assert acc + Zeros(t) == Stream(buf[..bytePos], k) + (BitsOf(partial, bitPos) + Zeros(t));
  }

  lemma JoinEncoded(values: seq<int>, more: seq<byte>, sent: seq<byte>, block: seq<byte>, k: nat, t: nat)
    requires t < k && Below(values, k) && Below(more, k) && Stream(sent, 8) == Stream(values, k)
    requires Stream(more, k) == Stream(block, 8) + Zeros(t)
    ensures Encodes(values + more, sent + block, k)
  {
    hide Stream, Two;
    StreamJoin(sent, block, 8);
    StreamJoin(values, more, k);
    assert Stream(values + more, k) == Stream(sent + block, 8) + Zeros(t);
  }

  lemma NoneLeft(partial: int)
    ensures BitsOf(partial, 0) == []
  {
  }

  lemma RoomFor0(k: nat, partial: int, bitPos: nat)
    requires bitPos < k && 0 <= partial < Two(bitPos)
    ensures 0 <= partial * Two(k - bitPos) < Two(k) && 0 < Two(k - bitPos)
  {
    hide Two;
    JoinBelow(partial, 0, Two(bitPos), Two(k - bitPos));
    TwoAdd(bitPos, k - bitPos);
  }

  lemma Padded(text: seq<byte>, values: seq<int>, alphabet: seq<byte>, padding: int, size: nat, sent: nat, last: nat)
    requires 1 <= size && last <= size && Multiple(sent, size) && |values| == sent + last
    requires forall i :: 0 <= i < |values| ==> 0 <= values[i] < |alphabet|
    requires |text| == if padding != -1 && last > 0 then sent + size else sent + last
    requires text[..|values|] == Spell(values, alphabet)
    requires forall i :: |values| <= i < |text| ==> text[i] == padding
    ensures IsText(text, values, alphabet, padding, size)
  {
    hide Spell, Multiple;
    MultipleBasics(size);
    MultipleSum(sent, size, size);
  }

  lemma Fresh(k: nat, size: nat)
    requires 1 <= size
    ensures Below([], k) && Stream([], 8) == Stream([], k) && Multiple(0, size)
    ensures forall alphabet: seq<byte> :: Spell([], alphabet) == []
  {
  }

  /** Every byte completes a value. */
  lemma ByteCompletes(k: nat, buf: seq<byte>, bitPos: nat, partial: int, block: seq<byte>)
    requires k <= 7 && Filled(k, buf, 0, bitPos, partial, Stream(block, 8))
    ensures block == []
  {
    hide BitsOf, Two;
    assert |Stream(block, 8)| == bitPos;
  }

  lemma BitsBelow(k: nat, buf: seq<byte>, bytePos: nat, bitPos: nat, partial: int, acc: seq<bool>)
    requires Filled(k, buf, bytePos, bitPos, partial, acc)
    ensures bitPos < k
  {
  }

  lemma EmptyBlock(k: nat, buf: seq<byte>)
    requires 1 <= k && forall i :: 0 <= i < |buf| ==> buf[i] == 0
    ensures Filled(k, buf, 0, 0, 0, Stream([], 8))
  {
    assert 0 * Two(k) == 0;
  }

  lemma WholeByte(x: byte)
    ensures x < Two(8) && x == x * Two(0)
  {
    TwoEight();
  }

  lemma RoomFor(k: nat, partial: int, bitPos: nat, y: int)
    requires bitPos < k <= 8 && 0 <= partial < Two(bitPos) && 0 <= y < Two(k - bitPos)
    ensures 0 <= partial * Two(k - bitPos) + y < 0x100
  {
    hide Two;
    JoinBelow(partial, y, Two(bitPos), Two(k - bitPos));
    TwoAdd(bitPos, k - bitPos);
    TwoAdd(k, 8 - k);
    TwoEight();
    MulMonotone(Two(k), 1, Two(8 - k));
  }

  lemma AllTaken(acc: seq<bool>, lo: int, whole: seq<bool>)
    requires acc + BitsOf(lo, 0) == whole
    ensures acc == whole
  {
  }

  /** A number of bits that is whole bytes and whole characters. */
  ghost predicate WholeBits(x: nat, bits: nat)
    requires 1 <= bits
  {
    x % 8 == 0 && x % bits == 0
  }

  lemma EightTimes(bits: nat, i: nat)
    requires 1 <= bits && i % 8 == 0 && i <= 8 * bits
    ensures i % bits != 0 ==> i + 8 <= 8 * bits
  {
    DivUnique(8 * bits, bits, 8, 0);
  }

  method OutputBlockSize(bits: nat) returns (size: nat)
    requires 1 <= bits <= 7
    ensures 1 <= size && WholeBits(size * bits, bits)
    ensures forall x: nat :: 1 <= x < size * bits ==> !WholeBits(x, bits)
  {
    NoneBelowEight(bits);
    hide WholeBits;
    var i: nat := 8;
    while i % bits != 0
      invariant 8 <= i <= 8 * bits && i % 8 == 0
      invariant forall x: nat :: 1 <= x < i ==> !WholeBits(x, bits)
      decreases 8 * bits - i
    {
      EightTimes(bits, i);
      NotBefore(i, bits);
      i := i + 8;
    }
    size := i / bits;
    DivParts(i, bits);
    assert size * bits == i;
    Whole(i, bits);
    if size < 1 { MulMonotone(bits, size, 0); }
  }

  lemma Whole(i: nat, bits: nat)
    requires 1 <= bits && i % 8 == 0 && i % bits == 0
    ensures WholeBits(i, bits)
  {
  }

  lemma NoneBelowEight(bits: nat)
    requires 1 <= bits
    ensures forall x: nat :: 1 <= x < 8 ==> !WholeBits(x, bits)
  {
  }

  lemma NotBefore(i: nat, bits: nat)
    requires 1 <= bits && i % 8 == 0 && i % bits != 0
    ensures forall x: nat :: i <= x < i + 8 ==> !WholeBits(x, bits)
  {
  }

  /** Initialisation refuses every number of bits outside 1 to 7. */
  method NewEncoder(alphabet: seq<byte>, log2base: int, padding: int) returns (encoder: Encoder?)
    requires 1 <= log2base <= 7 ==> Two(log2base) <= |alphabet|
    requires -1 <= padding < 0x100
    ensures encoder == null <==> log2base <= 0 || log2base >= 8
    ensures encoder != null ==> fresh(encoder) && fresh(encoder.outBuf) && encoder.Valid() && encoder.Message() == []
    ensures encoder != null ==> encoder.bitsPerChar == log2base && encoder.alphabet == alphabet
    ensures encoder != null ==> encoder.padding == padding
  {
    if log2base <= 0 || log2base >= 8 {
      return null;  // InvalidArgument
    }
    encoder := new Encoder(alphabet, log2base, padding);
  }
}
