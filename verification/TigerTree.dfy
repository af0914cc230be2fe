/** Tree hashes: from the leaves up, and from the root down. */
module TigerTree {
  import opened Bytes
  import opened Shifts

  const BLOCK_SIZE: nat := 1024
  const DIGEST_LEN: nat := 24

  /** The hash of a prefix byte and some data. */
  type Hash = (byte, seq<byte>) -> seq<byte>

  ghost predicate Sized(H: Hash) {
    forall p, s :: |H(p, s)| == DIGEST_LEN
  }

  type digest = seq<byte>

  /** The digests of the blocks; no data is one empty block. */
  function Leaves(H: Hash, data: seq<byte>): (r: seq<digest>)
    ensures |r| >= 1
  {
    if |data| <= BLOCK_SIZE then [H(0, data)] else [H(0, data[..BLOCK_SIZE])] + Leaves(H, data[BLOCK_SIZE..])
  }

  function Node(H: Hash, a: digest, b: digest): digest {
    H(1, a + b)
  }

  /** Adjacent digests paired, an odd last one promoted as it is. */
  function Level(H: Hash, ds: seq<digest>): (r: seq<digest>)
    ensures |r| == (|ds| + 1) / 2
  {
    if |ds| < 2 then ds else [Node(H, ds[0], ds[1])] + Level(H, ds[2..])
  }

  /** Level by level up to a single digest. */
  function Root(H: Hash, ds: seq<digest>): digest
    requires |ds| >= 1
    decreases |ds|
  {
    if |ds| == 1 then ds[0] else Root(H, Level(H, ds))
  }

  /** Down from a tree with room for 2^k leaves. */
  function Down(H: Hash, ds: seq<digest>, k: nat): digest
    requires 1 <= |ds| <= Two(k)
  {
    if k == 0 then ds[0]
    else if |ds| <= Two(k - 1) then Down(H, ds, k - 1)
    else Node(H, Down(H, ds[..Two(k - 1)], k - 1), Down(H, ds[Two(k - 1)..], k - 1))
  }

  /** Down from a block of BLOCK_SIZE * 2^k bytes, as the files are hashed. */
  function Tree(H: Hash, data: seq<byte>, k: nat): digest
    requires |data| <= BLOCK_SIZE * Two(k)
  {
    if k == 0 then H(0, data)
    else
      var half := BLOCK_SIZE * Two(k - 1);
      if |data| <= half then Tree(H, data, k - 1)
      else Node(H, Tree(H, data[..half], k - 1), Tree(H, data[half..], k - 1))
  }

  lemma {:induction false} LevelJoin(H: Hash, a: seq<digest>, b: seq<digest>)
    requires |a| % 2 == 0
    ensures Level(H, a + b) == Level(H, a) + Level(H, b)
    decreases |a|
  {
    if a == [] {
      assert a + b == b;
    } else {
      assert (a + b)[2..] == a[2..] + b;
      LevelJoin(H, a[2..], b);
    }
  }

  lemma DownStep(H: Hash, ds: seq<digest>, k: nat)
    requires 1 <= |ds| <= Two(k + 1)
    ensures |ds| <= Two(k) ==> Down(H, ds, k + 1) == Down(H, ds, k)
    ensures |ds| > Two(k) ==> |ds| - Two(k) <= Two(k)
    ensures |ds| > Two(k) ==> Down(H, ds, k + 1) == Node(H, Down(H, ds[..Two(k)], k), Down(H, ds[Two(k)..], k))
  {
  }

  lemma TwoLeaves(H: Hash, ds: seq<digest>)
    requires 1 <= |ds| <= Two(1)
    ensures Two(0) == 1 && |Level(H, ds)| == 1 && Down(H, ds, 1) == Down(H, Level(H, ds), 0)
  {
    assert Two(1) == 2 * Two(0) == 2;
    if |ds| == 2 {
      assert ds[..1] == [ds[0]] && ds[1..] == [ds[1]];
    }
  }

  lemma {:induction false} DownOneLevel(H: Hash, ds: seq<digest>, k: nat)
    requires 1 <= |ds| <= Two(k + 1)
    ensures |Level(H, ds)| <= Two(k) && Down(H, ds, k + 1) == Down(H, Level(H, ds), k)
    decreases k
  {
    hide Two, Down, Level, Node;
    TwoNext(k);
    if k == 0 {
      TwoLeaves(H, ds);
    } else {
      var h: nat, q: nat := Two(k), Two(k - 1);
      TwoNext(k - 1);
      DownStep(H, ds, k);
      DownStep(H, Level(H, ds), k - 1);
      if |ds| <= h {
        DownOneLevel(H, ds, k - 1);
      } else {
        var a, b := ds[..h], ds[h..];
        assert ds == a + b;
        LevelJoin(H, a, b);
        DownOneLevel(H, a, k - 1);
        DownOneLevel(H, b, k - 1);
        var up := Level(H, ds);
        assert up[..q] == Level(H, a) && up[q..] == Level(H, b);
      }
    }
  }

  /** Top-down and bottom-up meet. */
  lemma {:induction false} DownIsRoot(H: Hash, ds: seq<digest>, k: nat)
    requires 1 <= |ds| <= Two(k)
    ensures Down(H, ds, k) == Root(H, ds)
    decreases k
  {
    if |ds| == 1 {
      if k > 0 { DownIsRoot(H, ds, k - 1); }
    } else {
      assert Two(0) == 1;
      DownOneLevel(H, ds, k - 1);
      DownIsRoot(H, Level(H, ds), k - 1);
    }
  }

  lemma LeavesStep(H: Hash, data: seq<byte>)
    ensures |data| <= BLOCK_SIZE ==> Leaves(H, data) == [H(0, data)]
    ensures |data| > BLOCK_SIZE ==> Leaves(H, data) == [H(0, data[..BLOCK_SIZE])] + Leaves(H, data[BLOCK_SIZE..])
  {
  }

  lemma {:induction false} LeavesJoin(H: Hash, a: seq<byte>, b: seq<byte>, n: nat)
    requires 1 <= n && |a| == BLOCK_SIZE * n && |b| > 0
    ensures Leaves(H, a + b) == Leaves(H, a) + Leaves(H, b) && |Leaves(H, a)| == n
    decreases n
  {
    hide Leaves;
    LeavesStep(H, a + b);
    LeavesStep(H, a);
    assert (a + b)[..BLOCK_SIZE] == a[..BLOCK_SIZE];
    if n == 1 {
      assert (a + b)[BLOCK_SIZE..] == b && a[..BLOCK_SIZE] == a;
    } else {
      var c := a[BLOCK_SIZE..];
      assert (a + b)[BLOCK_SIZE..] == c + b;
      LeavesJoin(H, c, b, n - 1);
      assert [H(0, a[..BLOCK_SIZE])] + (Leaves(H, c) + Leaves(H, b))
          == ([H(0, a[..BLOCK_SIZE])] + Leaves(H, c)) + Leaves(H, b);
    }
  }

  lemma {:induction false} LeavesCount(H: Hash, data: seq<byte>, n: nat)
    requires 1 <= n && |data| <= BLOCK_SIZE * n
    ensures |Leaves(H, data)| <= n
    decreases n
  {
    if |data| > BLOCK_SIZE { LeavesCount(H, data[BLOCK_SIZE..], n - 1); }
  }

  lemma {:induction false} TreeIsDown(H: Hash, data: seq<byte>, k: nat)
    requires |data| <= BLOCK_SIZE * Two(k)
    ensures |Leaves(H, data)| <= Two(k) && Tree(H, data, k) == Down(H, Leaves(H, data), k)
    decreases k
  {
    LeavesCount(H, data, Two(k));
    if k == 0 {
      assert Two(0) == 1;
    } else {
      var t: nat := Two(k - 1);
      var half := BLOCK_SIZE * t;
      if |data| <= half {
        TreeIsDown(H, data, k - 1);
      } else {
        var a, b := data[..half], data[half..];
        assert data == a + b;
        TreeIsDown(H, a, k - 1);
        TreeIsDown(H, b, k - 1);
        LeavesJoin(H, a, b, t);
        var ds := Leaves(H, data);
        assert ds[..t] == Leaves(H, a) && ds[t..] == Leaves(H, b);
      }
    }
  }

  /** The recursive hash of any data in any block large enough is the root of
      the levels built from its leaves. */
  lemma TreeIsRoot(H: Hash, data: seq<byte>, k: nat)
    requires |data| <= BLOCK_SIZE * Two(k)
    ensures Tree(H, data, k) == Root(H, Leaves(H, data))
  {
    TreeIsDown(H, data, k);
    DownIsRoot(H, Leaves(H, data), k);
  }

  /** Where the blocks begin and end: leaf i is the hash of the bytes from 1024 * i
      up to the next block or the end, and there is one leaf in any case. */
  lemma {:induction false} LeavesAt(H: Hash, data: seq<byte>, i: nat)
    ensures |Leaves(H, data)| == if |data| == 0 then 1 else (|data| + 1023) / 1024
    ensures i < |Leaves(H, data)| ==>
      1024 * i <= |data|
      && Leaves(H, data)[i] == H(0, data[1024 * i..if 1024 * i + 1024 < |data| then 1024 * i + 1024 else |data|])
    decreases |data|
  {
    hide Leaves;
    LeavesStep(H, data);
    if |data| <= 1024 {
      assert data[0..|data|] == data;
    } else {
      var rest := data[1024..];
      LeavesAt(H, rest, if i == 0 then 0 else i - 1);
      if 0 < i < |Leaves(H, data)| {
        assert Leaves(H, data)[i] == Leaves(H, rest)[i - 1];
        var from, to := 1024 * (i - 1), if 1024 * i < |rest| then 1024 * i else |rest|;
        assert rest[from..to] == data[from + 1024..to + 1024];
      }
    }
  }

  /** The pairs of a level, the left digest first; an odd last one goes up as it
      is. */
  lemma {:induction false} LevelAt(H: Hash, ds: seq<digest>, i: nat)
    requires i < (|ds| + 1) / 2
    ensures Level(H, ds)[i] == if 2 * i + 1 < |ds| then H(1, ds[2 * i] + ds[2 * i + 1]) else ds[2 * i]
  {
    if i > 0 {
      var rest := ds[2..];
      LevelAt(H, rest, i - 1);
      assert Level(H, ds)[i] == Level(H, rest)[i - 1];
    }
  }

  /** rows are the leaves over blocks of 1024 bytes and, row by row, the hashes of
      what is paired in the row before, up to a single digest. */
  ghost predicate Rows(H: Hash, data: seq<byte>, rows: seq<seq<digest>>) {
    && 1 <= |rows| && |rows[|rows| - 1]| == 1
    && |rows[0]| == (if |data| == 0 then 1 else (|data| + 1023) / 1024)
    && (forall i :: 0 <= i < |rows[0]| ==>
          rows[0][i] == H(0, data[1024 * i..if 1024 * i + 1024 < |data| then 1024 * i + 1024 else |data|]))
    && (forall j :: 0 <= j < |rows| - 1 ==> Above(H, rows[j], rows[j + 1]))
  }

  ghost predicate Above(H: Hash, low: seq<digest>, high: seq<digest>) {
    && |high| == (|low| + 1) / 2
    && forall i :: 0 <= i < |high| ==>
         high[i] == if 2 * i + 1 < |low| then H(1, low[2 * i] + low[2 * i + 1]) else low[2 * i]
  }

  lemma AboveIsLevel(H: Hash, low: seq<digest>, high: seq<digest>)
    requires Above(H, low, high)
    ensures high == Level(H, low)
  {
    hide Level;
    forall i | 0 <= i < |high|
      ensures high[i] == Level(H, low)[i]
    {
      LevelAt(H, low, i);
    }
  }

  lemma {:induction false} TopOfRows(H: Hash, rows: seq<seq<digest>>, j: nat)
    requires 1 <= |rows| && |rows[|rows| - 1]| == 1 && j < |rows| && 1 <= |rows[j]|
    requires forall k :: 0 <= k < |rows| - 1 ==> Above(H, rows[k], rows[k + 1])
    ensures Root(H, rows[j]) == rows[|rows| - 1][0]
    decreases |rows| - j
  {
    hide Above, Level;
    if j < |rows| - 1 {
      AboveIsLevel(H, rows[j], rows[j + 1]);
      TopOfRows(H, rows, j + 1);
      OneStaysOne(H, rows[j]);
    }
  }

  lemma OneStaysOne(H: Hash, ds: seq<digest>)
    ensures |ds| == 1 ==> Level(H, ds) == ds
  {
  }

  /** However the rows were come by, the root is what stands on top of them. */
  lemma RootOfRows(H: Hash, data: seq<byte>, rows: seq<seq<digest>>)
    requires Rows(H, data, rows)
    ensures Root(H, Leaves(H, data)) == rows[|rows| - 1][0]
  {
    hide Leaves, Root, Above;
    LeavesAt(H, data, 0);
    assert rows[0] == Leaves(H, data) by {
      forall i | 0 <= i < |rows[0]|
        ensures rows[0][i] == Leaves(H, data)[i]
      {
        LeavesAt(H, data, i);
      }
    }
    TopOfRows(H, rows, 0);
  }

  /** Up to 1024 bytes are hashed as one block, up to 2048 as two under a node. */
  lemma FewBlocks(H: Hash, data: seq<byte>)
    ensures |data| <= 1024 ==> Root(H, Leaves(H, data)) == H(0, data)
    ensures 1024 < |data| <= 2048 ==> Root(H, Leaves(H, data)) == H(1, H(0, data[..1024]) + H(0, data[1024..]))
  {
    hide Leaves, Root;
    if |data| <= 1024 {
      OneRow(H, data);
      RootOfRows(H, data, [[H(0, data)]]);
    } else if |data| <= 2048 {
      TwoRows(H, data);
      var a, b := H(0, data[..1024]), H(0, data[1024..]);
      RootOfRows(H, data, [[a, b], [H(1, a + b)]]);
    }
  }

  lemma OneRow(H: Hash, data: seq<byte>)
    requires |data| <= 1024
    ensures Rows(H, data, [[H(0, data)]])
  {
    assert data[0..|data|] == data;
  }

  lemma TwoRows(H: Hash, data: seq<byte>)
    requires 1024 < |data| <= 2048
    ensures var a, b := H(0, data[..1024]), H(0, data[1024..]); Rows(H, data, [[a, b], [H(1, a + b)]])
  {
    var a, b := H(0, data[..1024]), H(0, data[1024..]);
    var low, high := [a, b], [H(1, a + b)];
    assert data[0..1024] == data[..1024] && data[1024..|data|] == data[1024..];
    assert Above(H, low, high);
    var rows := [low, high];
    assert rows[0] == low && rows[1] == high;
  }

  /** An open file: bytes come in pieces of any size until the end. */
  class File {
    const contents: seq<byte>
    var position: nat

    constructor (contents: seq<byte>)
      ensures this.contents == contents && position == 0
    {
      this.contents := contents;
      position := 0;
    }

    /** Between one and max of the next bytes; none at the end of the file. */
    method Read(buffer: array<byte>, at: nat, max: nat) returns (nread: nat)
      requires 1 <= max && at + max <= buffer.Length
      modifies this, buffer
      ensures nread <= max && position == old(position) + nread
      ensures nread == 0 <==> |contents| <= old(position)
      ensures nread > 0 ==> position <= |contents| && buffer[at..at + nread] == contents[old(position)..position]
      ensures buffer[..at] == old(buffer[..at])
    {
      if |contents| <= position {
        return 0;
      }
      var left := |contents| - position;
      var n :| 1 <= n <= max && n <= left;
      nread := n;
      forall k | 0 <= k < nread {
        buffer[at + k] := contents[position + k];
      }
      position := position + nread;
    }
  }

  /** The bytes a call at pos is responsible for. */
  function BlockEnd(len: nat, pos: nat, blockSize: nat): nat {
    if pos + blockSize < len then pos + blockSize else len
  }

  /** Fills the block buffer from the file; false if the file ends before. */
  method ReadBlock(file: File, buffer: array<byte>, length: nat) returns (ok: bool)
    requires length <= BLOCK_SIZE < buffer.Length
    modifies file, buffer
    ensures ok <==> length == 0 || old(file.position) + length <= |file.contents|
    ensures ok ==> file.position == old(file.position) + length
    ensures ok ==> length == 0 || buffer[1..1 + length] == file.contents[old(file.position)..file.position]
  {
    ghost var start := file.position;
    var toread, curs := length, 1;
    while toread > 0
      invariant curs + toread == 1 + length && 1 <= curs && file.position == start + (curs - 1)
      invariant curs > 1 ==> file.position <= |file.contents| && buffer[1..curs] == file.contents[start..file.position]
    {
      ghost var done, front := buffer[1..curs], buffer[..curs];
      var nread := file.Read(buffer, curs, toread);
      if nread == 0 {
        return false;
      }
      assert buffer[..curs] == front && front[1..] == done;
      assert buffer[1..curs + nread] == done + buffer[curs..curs + nread];
      assert file.contents[start..file.position]
          == file.contents[start..start + (curs - 1)] + file.contents[start + (curs - 1)..file.position];
      curs := curs + nread;
      toread := toread - nread;
    }
    return true;
  }

  /** Hashes the bytes from pos on, at most a block of them, out of a file read
      in sequence, into digest[at..]. False if the file is too short. */
  method TigerTreeFd(H: Hash, file: File, len: nat, pos: nat, blockSize: nat, digests: array<byte>, at: nat,
                     buffer: array<byte>, ghost base: nat, ghost k: nat)
    returns (ok: bool)
    requires Sized(H) && blockSize == BLOCK_SIZE * Two(k) && (pos < len || pos == len == 0)
    requires at + DIGEST_LEN <= digests.Length && BLOCK_SIZE < buffer.Length && digests != buffer
    requires file.position == base + pos
    modifies file, buffer, digests
    ensures ok <==> BlockEnd(len, pos, blockSize) == pos || base + BlockEnd(len, pos, blockSize) <= |file.contents|
    ensures ok ==> file.position == base + BlockEnd(len, pos, blockSize)
    ensures ok ==> Hashed(H, file.contents, base + pos, BlockEnd(len, pos, blockSize) - pos, k,
      digests[at..at + DIGEST_LEN])
    ensures forall i :: 0 <= i < digests.Length && !(at <= i < at + DIGEST_LEN) ==> digests[i] == old(digests[i])
    decreases k, 1
  {
    hide Two, Sized, Hashed, Tree;
    BlockSizes(k);
    if blockSize == BLOCK_SIZE {
      var length := if len - pos > BLOCK_SIZE then BLOCK_SIZE else len - pos;
      ok := ReadBlock(file, buffer, length);
      if ok {
        HashLeaf(H, file.contents, base + pos, length, buffer[1..1 + length], k);
        WriteDigest(H(0, buffer[1..1 + length]), digests, at);
      }
    } else {
      var half := blockSize / 2;
      if pos + half >= len {
        ok := TigerTreeFd(H, file, len, pos, half, digests, at, buffer, base, k - 1);
        if ok {
          HashLow(H, file.contents, base + pos, len - pos, k, digests[at..at + DIGEST_LEN]);
        }
      } else {
        var both := new byte[2 * DIGEST_LEN](i => 0);
        ok := TwoHalves(H, file, len, pos, blockSize, both, buffer, base, k);
        if ok {
          WriteDigest(H(1, both[..]), digests, at);
        }
      }
    }
  }

  /** The digests of both halves of a block, next to each other. */
  method TwoHalves(H: Hash, file: File, len: nat, pos: nat, blockSize: nat, both: array<byte>,
                   buffer: array<byte>, ghost base: nat, ghost k: nat)
    returns (ok: bool)
    requires Sized(H) && blockSize == BLOCK_SIZE * Two(k) && k > 0 && pos + blockSize / 2 < len
    requires both.Length == 2 * DIGEST_LEN && BLOCK_SIZE < buffer.Length && both != buffer
    requires file.position == base + pos
    modifies file, buffer, both
    ensures ok <==> base + BlockEnd(len, pos, blockSize) <= |file.contents|
    ensures ok ==> file.position == base + BlockEnd(len, pos, blockSize) && |H(1, both[..])| == DIGEST_LEN
    ensures ok ==> Hashed(H, file.contents, base + pos, BlockEnd(len, pos, blockSize) - pos, k, H(1, both[..]))
    decreases k, 0
  {
    hide Two, Sized, Hashed, Tree;
    BlockSizes(k);
    var half := blockSize / 2;
    ok := TigerTreeFd(H, file, len, pos, half, both, 0, buffer, base, k - 1);
    if ok {
      ghost var left := both[0..DIGEST_LEN];
      ok := TigerTreeFd(H, file, len, pos + half, half, both, DIGEST_LEN, buffer, base, k - 1);
      if ok {
        assert both[0..DIGEST_LEN] == left;
        assert both[..] == left + both[DIGEST_LEN..2 * DIGEST_LEN];
        HashBoth(H, file.contents, base + pos, BlockEnd(len, pos, blockSize) - pos, k, left,
          both[DIGEST_LEN..2 * DIGEST_LEN]);
      }
    }
  }

  /** The tree hash of n bytes of a file. */
  ghost predicate Hashed(H: Hash, contents: seq<byte>, start: nat, n: nat, k: nat, d: digest) {
    n <= BLOCK_SIZE * Two(k)
    && if n == 0 then d == Tree(H, [], k)
       else start + n <= |contents| && d == Tree(H, contents[start..start + n], k)
  }

  method WriteDigest(d: digest, digests: array<byte>, at: nat)
    requires |d| == DIGEST_LEN && at + DIGEST_LEN <= digests.Length
    modifies digests
    ensures digests[at..at + DIGEST_LEN] == d
    ensures forall i :: 0 <= i < digests.Length && !(at <= i < at + DIGEST_LEN) ==> digests[i] == old(digests[i])
  {
    forall i | 0 <= i < DIGEST_LEN {
      digests[at + i] := d[i];
    }
  }

  lemma BlockSizes(k: nat)
    ensures BLOCK_SIZE * Two(k) == BLOCK_SIZE <==> k == 0
    ensures BLOCK_SIZE * Two(k) >= BLOCK_SIZE
    ensures k > 0 ==> BLOCK_SIZE * Two(k) / 2 == BLOCK_SIZE * Two(k - 1)
  {
    if k > 0 { assert Two(k) == 2 * Two(k - 1); }
  }

  lemma HashLeaf(H: Hash, contents: seq<byte>, start: nat, n: nat, data: seq<byte>, k: nat)
    requires k == 0 && n <= BLOCK_SIZE && |data| == n
    requires n == 0 || (start + n <= |contents| && data == contents[start..start + n])
    ensures Sized(H) ==> |H(0, data)| == DIGEST_LEN
    ensures Hashed(H, contents, start, n, k, H(0, data))
  {
    assert Two(0) == 1;
    if n == 0 { assert data == []; }
  }

  lemma HashLow(H: Hash, contents: seq<byte>, start: nat, n: nat, k: nat, d: digest)
    requires k > 0 && Hashed(H, contents, start, n, k - 1, d)
    ensures Hashed(H, contents, start, n, k, d)
  {
    BlockSizes(k);
    assert Two(k) == 2 * Two(k - 1);
  }

  lemma HashBoth(H: Hash, contents: seq<byte>, start: nat, n: nat, k: nat, a: digest, b: digest)
    requires k > 0 && BLOCK_SIZE * Two(k - 1) < n
    requires Hashed(H, contents, start, BLOCK_SIZE * Two(k - 1), k - 1, a)
    requires Hashed(H, contents, start + BLOCK_SIZE * Two(k - 1), n - BLOCK_SIZE * Two(k - 1), k - 1, b)
    ensures Hashed(H, contents, start, n, k, H(1, a + b))
    ensures Sized(H) ==> |H(1, a + b)| == DIGEST_LEN
  {
    var half: nat := BLOCK_SIZE * Two(k - 1);
    assert Two(k) == 2 * Two(k - 1);
    var data := contents[start..start + n];
    assert data[..half] == contents[start..start + half] && data[half..] == contents[start + half..start + n];
  }

  /** The smallest doubling of a block that holds len bytes. */
  method TigerBlockSize(len: nat) returns (blockSize: nat, ghost k: nat)
    ensures blockSize == 1024 * Two(k) && len <= blockSize
    ensures k > 0 ==> 1024 * Two(k - 1) < len
  {
    blockSize, k := BLOCK_SIZE, 0;
    BlockSizes(0);
    while blockSize < len
      invariant blockSize == BLOCK_SIZE * Two(k) && blockSize >= BLOCK_SIZE
      invariant k > 0 ==> BLOCK_SIZE * Two(k - 1) < len
      decreases len - blockSize
    {
      BlockSizes(k + 1);
      blockSize := blockSize * 2;
      k := k + 1;
    }
  }

  /** A part of a file, from its current position: the digest is the root of the
      levels over the part's blocks, and exactly the part was read. */
  method HashPart(H: Hash, file: File, len: nat, digest: array<byte>) returns (ok: bool)
    requires Sized(H) && digest.Length == 24
    modifies file, digest
    ensures ok <==> len == 0 || old(file.position) + len <= |file.contents|
    ensures ok ==> file.position == old(file.position) + len
    ensures ok && len > 0 ==> digest[..] == Root(H, Leaves(H, file.contents[old(file.position)..file.position]))
    ensures ok && len == 0 ==> digest[..] == Root(H, Leaves(H, [])) == H(0, [])
    ensures ok && 0 < len <= 1024 ==> digest[..] == H(0, file.contents[old(file.position)..file.position])
    ensures ok && 1024 < len <= 2048 ==>
      old(file.position) + 1024 <= |file.contents|
      && digest[..] == H(1, H(0, file.contents[old(file.position)..old(file.position) + 1024])
                            + H(0, file.contents[old(file.position) + 1024..file.position]))
  {
    hide Two, Sized, Tree, Root, Leaves;
    var buffer := new byte[BLOCK_SIZE + 1](i => 0);
    ghost var start := file.position;
    var blockSize;
    ghost var k;
    blockSize, k := TigerBlockSize(len);
    ok := TigerTreeFd(H, file, len, 0, blockSize, digest, 0, buffer, start, k);
    if ok {
      assert digest[0..DIGEST_LEN] == digest[..];
      ghost var data := if len == 0 then [] else file.contents[start..start + len];
      TreeIsRoot(H, data, k);
      FewBlocks(H, data);
      if len > 1024 {
        assert data[..1024] == file.contents[start..start + 1024];
        assert data[1024..] == file.contents[start + 1024..start + len];
      }
    }
  }
}
