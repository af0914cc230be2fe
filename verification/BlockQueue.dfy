/** The ring buffer behind buffered filters. */
module BlockQueues {
  import opened Arithmetic
  import opened Bytes

  /** The k-th place from begin on, in a ring of n places. */
  function Place(begin: nat, k: nat, n: nat): nat
    requires begin + k < 2 * n
  {
    if begin + k < n then begin + k else begin + k - n
  }

  /** size places of the ring buf, from begin on. */
  ghost function Ring(buf: seq<byte>, begin: nat, size: nat): (s: seq<byte>)
    requires begin <= |buf| && size <= |buf|
    ensures |s| == size
    ensures forall k :: 0 <= k < size ==> s[k] == buf[Place(begin, k, |buf|)]
  {
    seq(size, k requires 0 <= k < size => buf[Place(begin, k, |buf|)])
  }

  lemma RingFlat(buf: seq<byte>, begin: nat, size: nat)
    requires begin + size <= |buf|
    ensures Ring(buf, begin, size) == buf[begin..begin + size]
  {
    hide Ring;
  }

  lemma RingTake(buf: seq<byte>, begin: nat, size: nat, n: nat, begin': nat)
    requires begin + n <= |buf| && n <= size <= |buf| && begin' <= |buf|
    requires size == n || (n < |buf| && begin' == Place(begin, n, |buf|))
    ensures Ring(buf, begin, size) == buf[begin..begin + n] + Ring(buf, begin', size - n)
  {
    hide Ring;
    var l, r := Ring(buf, begin, size), Ring(buf, begin', size - n);
    forall k | 0 <= k < size
      ensures l[k] == (buf[begin..begin + n] + r)[k]
    {
      if k >= n {
        assert r[k - n] == buf[Place(begin', k - n, |buf|)];
      }
    }
  }

  lemma RingPut(buf: seq<byte>, buf': seq<byte>, begin: nat, size: nat, s: seq<byte>)
    requires begin <= |buf| == |buf'| && size + |s| <= |buf|
    requires forall k :: 0 <= k < size ==> buf'[Place(begin, k, |buf|)] == buf[Place(begin, k, |buf|)]
    requires forall k :: size <= k < size + |s| ==> buf'[Place(begin, k, |buf|)] == s[k - size]
    ensures Ring(buf', begin, size + |s|) == Ring(buf, begin, size) + s
  {
    hide Ring;
  }

  class BlockQueue {
    var buffer: array<byte>
    var blockSize: nat
    var maxBlocks: nat
    var size: nat
    var begin: nat

    ghost predicate Valid()
      reads this
    {
      && 1 <= blockSize && size <= buffer.Length
      && (begin < buffer.Length || begin == buffer.Length == 0)
      && Multiple(begin, blockSize) && Multiple(buffer.Length, blockSize)
      && buffer.Length == maxBlocks * blockSize
    }

    /** The queued bytes, oldest first. */
    ghost function Contents(): (s: seq<byte>)
      requires Valid()
      reads this, buffer
      ensures |s| == size
    {
      Ring(buffer[..], begin, size)
    }

    constructor (blocks: nat)
      ensures Valid() && fresh(buffer) && Contents() == [] && begin == 0
      ensures blockSize == 1 && maxBlocks == buffer.Length == blocks
    {
      buffer := new byte[blocks](i => 0);
      blockSize, maxBlocks, size, begin := 1, blocks, 0, 0;
    }

    method ResetQueue(newBlockSize: nat, newMaxBlocks: nat)
      requires 1 <= newBlockSize
      modifies this
      ensures Valid() && fresh(buffer) && Contents() == [] && begin == 0
      ensures blockSize == newBlockSize && maxBlocks == newMaxBlocks && buffer.Length == newMaxBlocks * newBlockSize
    {
      hide Multiple;
      MultipleProduct(newMaxBlocks, newBlockSize);
      MultipleBasics(newBlockSize);
      buffer := new byte[newMaxBlocks * newBlockSize](i => 0);
      blockSize, maxBlocks, size, begin := newBlockSize, newMaxBlocks, 0, 0;
    }

    /** The oldest block, at an offset where it lies in one piece; None when
        less than a block is queued. */
    method GetBlock() returns (found: bool, ptr: nat)
      requires Valid()
      modifies this`begin, this`size
      ensures Valid() && buffer == old(buffer)
      ensures found <==> old(size) >= blockSize
      ensures found ==> ptr + blockSize <= buffer.Length && old(Contents()) == buffer[ptr..ptr + blockSize] + Contents()
      ensures !found ==> Contents() == old(Contents())
    {
      hide Multiple, Ring;
      found, ptr := size >= blockSize, 0;
      if found {
        MultipleSum(buffer.Length, begin, blockSize);
        MultipleAtLeast(buffer.Length - begin, blockSize);
        MultipleBasics(blockSize);
        MultipleSum(begin, blockSize, blockSize);
        ptr := begin;
        begin := begin + blockSize;
        if begin == buffer.Length {
          begin := 0;
        }
        size := size - blockSize;
        RingTake(buffer[..], ptr, size + blockSize, blockSize, begin);
      }
    }

    /** At most wanted bytes from the front, as many as lie in one piece. */
    method GetContigousBlocks(wanted: nat) returns (ptr: nat, numberOfBytes: nat)
      requires Valid() && Multiple(wanted, blockSize)
      modifies this`begin, this`size
      ensures Valid() && buffer == old(buffer)
      ensures numberOfBytes == Min(wanted, Min(buffer.Length - old(begin), old(size)))
      ensures ptr + numberOfBytes <= buffer.Length && old(Contents()) == buffer[ptr..ptr + numberOfBytes] + Contents()
      ensures numberOfBytes == Min(buffer.Length - old(begin), old(size)) ==> size == 0 || begin == 0
    {
      hide Multiple, Ring;
      numberOfBytes := Min(wanted, Min(buffer.Length - begin, size));
      ptr := begin;
      MultipleBasics(blockSize);
      MultipleSum(begin, wanted, blockSize);
      begin := begin + numberOfBytes;
      size := size - numberOfBytes;
      if size == 0 || begin == buffer.Length {
        begin := 0;
      }
      RingTake(buffer[..], ptr, size + numberOfBytes, numberOfBytes, begin);
    }

    /** Empties the queue into outString: the unwrapped part, then the rest. */
    method GetAll() returns (outString: seq<byte>)
      requires Valid()
      modifies this`begin, this`size
      ensures Valid() && buffer == old(buffer) && Contents() == [] && outString == old(Contents())
    {
      hide Multiple, Ring;
      MultipleProduct(maxBlocks, blockSize);
      var ptr, n := GetContigousBlocks(maxBlocks * blockSize);
      RingFlat(buffer[..], begin, size);
      assert buffer[..][begin..begin + size] == buffer[begin..begin + size];
      outString := buffer[ptr..ptr + n] + buffer[begin..begin + size];
      size := 0;
    }

    /** Appends inString, around the end of the buffer if need be. */
    method Put(inString: seq<byte>)
      requires Valid() && size + |inString| <= buffer.Length
      modifies this`size, buffer
      ensures Valid() && Contents() == old(Contents()) + inString
    {
      hide Multiple, Ring;
      ghost var buf := buffer[..];
      var end := if size < buffer.Length - begin then begin + size else begin + size - buffer.Length;
      var len := Min(|inString|, buffer.Length - end);
      forall k | 0 <= k < len {
        buffer[end + k] := inString[k];
      }
      if len < |inString| {
        forall k | 0 <= k < |inString| - len {
          buffer[k] := inString[len + k];
        }
      }
      RingPut(buf, buffer[..], begin, size, inString);
      size := size + |inString|;
    }
  }
}
