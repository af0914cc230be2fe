/** Splitting a message into a first piece, middle blocks and a last piece,
    however the message arrives. */
module BufferedFilter {
  import opened Arithmetic
  import opened Bytes
  import opened BlockQueues

  /** A call of one of the three virtual functions of a derived filter. */
  datatype Call = FirstPut(bytes: seq<byte>) | NextPut(bytes: seq<byte>) | LastPut(bytes: seq<byte>)

  /** Everything handed over by some calls, in order. */
  ghost function Text(calls: seq<Call>): seq<byte> {
    if calls == [] then [] else Text(calls[..|calls| - 1]) + calls[|calls| - 1].bytes
  }

  lemma TextAppend(calls: seq<Call>, c: Call)
    ensures Text(calls + [c]) == Text(calls) + c.bytes
  {
    assert (calls + [c])[..|calls|] == calls;
  }

  /** The non-empty runs of whole blocks between the first and the last piece. */
  ghost predicate Middle(calls: seq<Call>, block: nat)
    requires 1 <= block
  {
    forall k :: 0 <= k < |calls| ==> calls[k].NextPut? && |calls[k].bytes| > 0 && Multiple(|calls[k].bytes|, block)
  }

  lemma {:induction false} MiddleLength(calls: seq<Call>, block: nat)
    requires 1 <= block && Middle(calls, block)
    ensures Multiple(|Text(calls)|, block) && |Text(calls)| >= |calls|
  {
    hide Multiple;
    MultipleBasics(block);
    if calls != [] {
      var front := calls[..|calls| - 1];
      MiddleLength(front, block);
      MultipleSum(|Text(front)|, |calls[|calls| - 1].bytes|, block);
    }
  }

  /** How many of n bytes after the first piece are sent on as whole blocks,
      when at least last bytes must stay behind. */
  function Dispatched(n: nat, block: nat, last: nat): (d: nat)
    requires 1 <= block
    ensures d <= n
  {
    if n < last then 0 else
      DispatchedFits(n - last, block);
      (n - last) / block * block
  }

  lemma DispatchedFits(x: nat, block: nat)
    requires 1 <= block
    ensures 0 <= x / block * block <= x < x / block * block + block
  {
    DivParts(x, block);
    if x / block < 0 { MulMonotone(block, x / block, -1); }
    MulMonotone(block, 0, x / block);
  }

  /** The number dispatched is the only multiple of the block that leaves
      between last and last + block - 1, unless nothing can be sent. */
  lemma DispatchedUnique(n: nat, block: nat, last: nat, sent: nat)
    requires 1 <= block && Multiple(sent, block) && sent <= n
    requires n - sent < last + block && (sent == 0 || n - sent >= last)
    ensures sent == Dispatched(n, block, last)
  {
    if n >= last {
      DivParts(sent, block);
      if sent == 0 && n < last + block {
        DivUnique(n - last, block, 0, n - last);
      }
      DivUnique(n - last, block, sent / block, n - last - sent);
    }
  }

  /** What the last piece must be after a message of n bytes: its length obeys
      the documented bounds. */
  lemma LastBounds(n: nat, first: nat, block: nat, last: nat)
    requires 1 <= block && first <= n
    ensures var rest := n - first - Dispatched(n - first, block, last);
      if n <= first + last then rest == n - first else last <= rest < last + block
  {
    if n >= first + last {
      DispatchedFits(n - first - last, block);
      if n == first + last { DivUnique(0, block, 0, 0); }
    }
  }

  /** The calls made so far for the message, and what is still queued: both
      depend on how the message was cut only in how the middle is grouped. */
  ghost predicate Progress(first: nat, block: nat, last: nat, done: bool, calls: seq<Call>, queued: seq<byte>,
      message: seq<byte>)
    requires 1 <= block
  {
    if !done then
      calls == [] && queued == message && (|message| < first || message == [])
    else
      && first <= |message| && |calls| >= 1 && calls[0] == FirstPut(message[..first]) && Middle(calls[1..], block)
      && var n := Dispatched(|message| - first, block, last);
         Text(calls[1..]) == message[first..first + n] && queued == message[first + n..]
  }

  /** In the middle of a Put: what remains of the input is not queued yet. */
  ghost predicate Underway(first: nat, block: nat, last: nat, calls: seq<Call>, rest: seq<byte>, message: seq<byte>)
    requires 1 <= block
  {
    && first <= |message| && |calls| >= 1 && calls[0] == FirstPut(message[..first]) && Middle(calls[1..], block)
    && message[first..] == Text(calls[1..]) + rest
    && (|calls| == 1 || |rest| >= last)
  }

  lemma Emit(first: nat, block: nat, last: nat, calls: seq<Call>, piece: seq<byte>, rest: seq<byte>, rest': seq<byte>,
      message: seq<byte>)
    requires 1 <= block && Underway(first, block, last, calls, rest, message)
    requires rest == piece + rest' && |piece| > 0 && Multiple(|piece|, block) && |rest'| >= last
    ensures Underway(first, block, last, calls + [NextPut(piece)], rest', message)
  {
    hide Multiple, Text;
    var next := calls + [NextPut(piece)];
    assert next[1..] == calls[1..] + [NextPut(piece)];
    TextAppend(calls[1..], NextPut(piece));
    assert Text(calls[1..]) + (piece + rest') == (Text(calls[1..]) + piece) + rest';
  }

  lemma Settle(first: nat, block: nat, last: nat, calls: seq<Call>, rest: seq<byte>, message: seq<byte>)
    requires 1 <= block && Underway(first, block, last, calls, rest, message) && |rest| < last + block
    ensures Progress(first, block, last, true, calls, rest, message)
  {
    hide Multiple, Text, Dispatched;
    var sent := Text(calls[1..]);
    MiddleLength(calls[1..], block);
    if |calls| == 1 { NoText(calls[1..]); }
    DispatchedUnique(|message| - first, block, last, |sent|);
    assert message[first..][..|sent|] == sent && message[first..][|sent|..] == rest;
  }

  lemma NoText(calls: seq<Call>)
    requires calls == []
    ensures Text(calls) == []
  {
  }

  /** More input after the first piece. */
  lemma Resume(first: nat, block: nat, last: nat, calls: seq<Call>, queued: seq<byte>, message: seq<byte>,
      more: seq<byte>)
    requires 1 <= block && Progress(first, block, last, true, calls, queued, message)
    ensures Underway(first, block, last, calls, queued + more, message + more)
  {
    hide Text, Dispatched;
    var n := Dispatched(|message| - first, block, last);
    assert (message + more)[..first] == message[..first];
    assert (message + more)[first..] == message[first..first + n] + (message[first + n..] + more);
    MiddleLength(calls[1..], block);
    if |calls| > 1 { Enough(|message| - first, block, last); }
  }

  lemma Enough(n: nat, block: nat, last: nat)
    requires 1 <= block && Dispatched(n, block, last) > 0
    ensures n - Dispatched(n, block, last) >= last
  {
    DispatchedFits(n - last, block);
  }

  /** Room for everything that may be left between two calls. */
  lemma Capacity(block: nat, last: nat)
    requires 1 <= block
    ensures (2 * block + last - 2) / block * block >= last + block - 1
    ensures block > 1 ==> (2 * block + last - 2) / block * block >= block
  {
    DispatchedFits(2 * block + last - 2, block);
    var k := (2 * block + last - 2) / block;
    if block > 1 {
      if k < 1 { MulMonotone(block, k, 0); }
      MulMonotone(block, 1, k);
    }
  }

  class FilterWithBufferedInput {
    var firstSize: nat
    var blockSize: nat
    var lastSize: nat
    var firstInputDone: bool
    const queue: BlockQueue
    /** The calls made for the current message. */
    var log: seq<Call>
    /** The current message so far. */
    ghost var message: seq<byte>

    ghost predicate Ready()
      reads this, queue
    {
      && queue.Valid() && 1 <= blockSize
      && if firstInputDone then
           queue.blockSize == blockSize && queue.buffer.Length == (2 * blockSize + lastSize - 2) / blockSize * blockSize
         else
           queue.blockSize == 1 && queue.buffer.Length == firstSize && queue.begin == 0
    }

    ghost predicate Valid()
      reads this, queue, queue.buffer
    {
      Ready() && Progress(firstSize, blockSize, lastSize, firstInputDone, log, queue.Contents(), message)
    }

    constructor (first: nat, block: nat, last: nat)
      requires 1 <= block
      ensures Valid() && message == [] && fresh(queue) && fresh(queue.buffer)
      ensures firstSize == first && blockSize == block && lastSize == last
    {
      firstSize, blockSize, lastSize, firstInputDone := first, block, last, false;
      log, message := [], [];
      queue := new BlockQueue(first);
    }

    /** One call of Put, without a message end. */
    method PutBytes(inString: seq<byte>)
      requires Valid()
      modifies this`log, this`message, this`firstInputDone, queue, queue.buffer
      ensures Valid() && message == old(message) + inString
          && (queue.buffer == old(queue.buffer) || fresh(queue.buffer))
    {
      hide Progress, Underway, BlockQueue.Contents;
      ghost var before := message;
      message := message + inString;
      if |inString| != 0 {
        if firstInputDone {
          Resume(firstSize, blockSize, lastSize, log, queue.Contents(), before, inString);
          assert inString[0..] == inString;
          Continue(inString, 0);
        } else {
          NotStarted(firstSize, blockSize, lastSize, log, queue.Contents(), before);
          if queue.size + |inString| >= firstSize {
            var pos := SendFirst(inString);
            Continue(inString, pos);
          } else {
            Waiting(firstSize, blockSize, lastSize, log, queue.Contents(), before, inString);
            queue.Put(inString);
          }
        }
      } else {
        assert message == before;
      }
    }

    /** Middle blocks from what is queued and the input from pos on; the rest
        of the input is queued. */
    method Continue(inString: seq<byte>, start: nat)
      requires Ready() && firstInputDone && start <= |inString|
      requires Underway(firstSize, blockSize, lastSize, log, queue.Contents() + inString[start..], message)
      modifies this`log, queue, queue.buffer
      ensures Valid() && firstInputDone && queue.buffer == old(queue.buffer)
    {
      hide Progress, Underway, BlockQueue.Contents;
      var pos := start;
      if blockSize == 1 {
        pos := SendBytes(inString, pos);
      } else {
        pos := SendBlocks(inString, pos);
      }
      Settle(firstSize, blockSize, lastSize, log, queue.Contents() + inString[pos..], message);
      Capacity(blockSize, lastSize);
      queue.Put(inString[pos..]);
    }

    /** Completes the first piece, hands it over and resizes the queue. */
    method SendFirst(inString: seq<byte>) returns (pos: nat)
      requires Ready() && !firstInputDone && queue.size + |inString| >= firstSize && queue.size <= firstSize
      requires log == [] && queue.Contents() + inString == message
      modifies this`log, this`firstInputDone, queue, queue.buffer
      ensures Ready() && firstInputDone && fresh(queue.buffer) && pos <= |inString| && queue.size == 0
      ensures Underway(firstSize, blockSize, lastSize, log, queue.Contents() + inString[pos..], message)
    {
      hide BlockQueue.Contents;
      var len := firstSize - queue.size;
      queue.Put(inString[..len]);
      MultipleOfOne(firstSize);
      var ptr, n := queue.GetContigousBlocks(firstSize);
      var piece := queue.buffer[ptr..ptr + n];
      log := log + [FirstPut(piece)];
      assert piece == message[..firstSize] by {
        assert queue.Contents() == [];
        assert piece == old(queue.Contents()) + inString[..len];
      }
      queue.ResetQueue(blockSize, (2 * blockSize + lastSize - 2) / blockSize);
      firstInputDone := true;
      pos := len;
      assert message[firstSize..] == [] + ([] + inString[pos..]);
    }

    /** The middle as a stream of bytes: everything but the last lastSize. */
    method SendBytes(inString: seq<byte>, start: nat) returns (pos: nat)
      requires Ready() && firstInputDone && blockSize == 1 && start <= |inString|
      requires Underway(firstSize, blockSize, lastSize, log, queue.Contents() + inString[start..], message)
      modifies this`log, queue
      ensures Ready() && queue.buffer == old(queue.buffer) && start <= pos <= |inString|
      ensures queue.size + |inString| - pos < lastSize + blockSize
      ensures Underway(firstSize, blockSize, lastSize, log, queue.Contents() + inString[pos..], message)
    {
      hide Progress, Underway, BlockQueue.Contents, Multiple;
      pos := start;
      var newLength := queue.size + |inString| - pos;
      while newLength > lastSize && queue.size > 0
        invariant Ready() && queue.buffer == old(queue.buffer) && newLength == queue.size + |inString| - pos
        invariant Underway(firstSize, blockSize, lastSize, log, queue.Contents() + inString[pos..], message)
        decreases queue.size
      {
        ghost var rest := queue.Contents() + inString[pos..];
        MultipleOfOne(newLength - lastSize);
        var ptr, len := queue.GetContigousBlocks(newLength - lastSize);
        MultipleOfOne(len);
        var piece := queue.buffer[ptr..ptr + len];
        assert rest == piece + (queue.Contents() + inString[pos..]);
        Emit(firstSize, blockSize, lastSize, log, piece, rest, queue.Contents() + inString[pos..], message);
        log := log + [NextPut(piece)];
        newLength := newLength - len;
      }
      if newLength > lastSize {
        var len := newLength - lastSize;
        MultipleOfOne(len);
        SendFromInput(inString, pos, len);
        pos := pos + len;
      }
    }

    /** Whole blocks straight from the input, the queue being empty. */
    method SendFromInput(inString: seq<byte>, pos: nat, len: nat)
      requires Ready() && queue.size == 0 && 0 < len && pos + len + lastSize <= |inString| && Multiple(len, blockSize)
      requires Underway(firstSize, blockSize, lastSize, log, queue.Contents() + inString[pos..], message)
      modifies this`log
      ensures Underway(firstSize, blockSize, lastSize, log, queue.Contents() + inString[pos + len..], message)
    {
      hide Progress, Underway, BlockQueue.Contents, Multiple;
      var piece := inString[pos..pos + len];
      assert queue.Contents() + inString[pos..] == piece + (queue.Contents() + inString[pos + len..]);
      Emit(firstSize, blockSize, lastSize, log, piece, queue.Contents() + inString[pos..],
        queue.Contents() + inString[pos + len..], message);
      log := log + [NextPut(piece)];
    }

    /** The middle in blocks: from the queue, across its end, from the input. */
    method SendBlocks(inString: seq<byte>, start: nat) returns (pos: nat)
      requires Ready() && firstInputDone && blockSize > 1 && start <= |inString|
      requires Underway(firstSize, blockSize, lastSize, log, queue.Contents() + inString[start..], message)
      modifies this`log, queue, queue.buffer
      ensures Ready() && queue.buffer == old(queue.buffer) && start <= pos <= |inString|
      ensures queue.size + |inString| - pos < lastSize + blockSize
      ensures Underway(firstSize, blockSize, lastSize, log, queue.Contents() + inString[pos..], message)
    {
      hide Progress, Underway, BlockQueue.Contents, Multiple;
      pos := start;
      var newLength := queue.size + |inString| - pos;
      while newLength >= blockSize + lastSize && queue.size >= blockSize
        invariant Ready() && queue.buffer == old(queue.buffer) && newLength == queue.size + |inString| - pos
        invariant Underway(firstSize, blockSize, lastSize, log, queue.Contents() + inString[pos..], message)
        decreases queue.size
      {
        SendQueued(inString[pos..]);
        newLength := newLength - blockSize;
      }
      if newLength >= blockSize + lastSize && queue.size > 0 {
        var len := blockSize - queue.size;
        Capacity(blockSize, lastSize);
        ghost var rest := queue.Contents() + inString[pos..];
        queue.Put(inString[pos..pos + len]);
        assert rest == queue.Contents() + inString[pos + len..];
        pos := pos + len;
        SendQueued(inString[pos..]);
        newLength := newLength - blockSize;
      }
      if newLength >= blockSize + lastSize {
        var len := newLength - lastSize - (newLength - lastSize) % blockSize;
        RoundedDown(newLength - lastSize, blockSize);
        SendFromInput(inString, pos, len);
        pos := pos + len;
      }
    }

    /** One block from the queue. */
    method SendQueued(ghost rest: seq<byte>)
      requires Ready() && firstInputDone && blockSize <= queue.size && blockSize + lastSize <= queue.size + |rest|
      requires Underway(firstSize, blockSize, lastSize, log, queue.Contents() + rest, message)
      modifies this`log, queue
      ensures Ready() && queue.buffer == old(queue.buffer) && queue.size == old(queue.size) - blockSize
      ensures Underway(firstSize, blockSize, lastSize, log, queue.Contents() + rest, message)
    {
      hide Progress, Underway, BlockQueue.Contents, Multiple;
      ghost var before := queue.Contents() + rest;
      var _, ptr := queue.GetBlock();
      var piece := queue.buffer[ptr..ptr + blockSize];
      MultipleBasics(blockSize);
      assert before == piece + (queue.Contents() + rest);
      Emit(firstSize, blockSize, lastSize, log, piece, before, queue.Contents() + rest, message);
      log := log + [NextPut(piece)];
    }

    /** The end of a message: what is left goes out as the last piece. */
    method MessageEnd() returns (calls: seq<Call>)
      requires Valid()
      modifies this`log, this`message, this`firstInputDone, queue, queue.buffer
      ensures Valid() && message == [] && fresh(queue.buffer)
      ensures Delivered(firstSize, blockSize, lastSize, calls, old(message))
    {
      hide BlockQueue.Contents, Delivered, Progress;
      if !firstInputDone && firstSize == 0 {
        EmptyMessage(blockSize, lastSize, log, queue.Contents(), message);
        log := log + [FirstPut([])];
      }
      ghost var done := firstInputDone || firstSize == 0;
      Complete(firstSize, blockSize, lastSize, done, log, queue.Contents(), message);
      var temp := queue.GetAll();
      calls := log + [LastPut(temp)];
      firstInputDone, log, message := false, [], [];
      queue.ResetQueue(1, firstSize);
      Idle(firstSize, blockSize, lastSize, queue.Contents());
    }
  }

  lemma MultipleOfOne(x: int)
    ensures Multiple(x, 1)
  {
  }

  lemma RoundedDown(x: nat, block: nat)
    requires 1 <= block <= x
    ensures 0 < x - x % block <= x && Multiple(x - x % block, block) && x % block < block
  {
    DivParts(x, block);
    DivUnique(x - x % block, block, x / block, 0);
    if x == x % block { assert false; }
  }

  lemma Waiting(first: nat, block: nat, last: nat, calls: seq<Call>, queued: seq<byte>, message: seq<byte>,
      more: seq<byte>)
    requires 1 <= block && Progress(first, block, last, false, calls, queued, message)
    requires |queued| + |more| < first
    ensures Progress(first, block, last, false, calls, queued + more, message + more)
  {
  }

  lemma Idle(first: nat, block: nat, last: nat, queued: seq<byte>)
    requires 1 <= block && queued == []
    ensures Progress(first, block, last, false, [], queued, [])
  {
  }

  lemma NotStarted(first: nat, block: nat, last: nat, calls: seq<Call>, queued: seq<byte>, message: seq<byte>)
    requires 1 <= block && Progress(first, block, last, false, calls, queued, message)
    ensures calls == [] && queued == message && (|message| < first || message == [])
  {
  }

  lemma EmptyMessage(block: nat, last: nat, calls: seq<Call>, queued: seq<byte>, message: seq<byte>)
    requires 1 <= block && Progress(0, block, last, false, calls, queued, message)
    ensures Progress(0, block, last, true, calls + [FirstPut([])], queued, message)
  {
    hide Multiple;
    var now := calls + [FirstPut([])];
    assert message == [] && now[1..] == [];
    if last == 0 { DivUnique(0, block, 0, 0); }
    assert Dispatched(0, block, last) == 0;
  }

  /** What a message turns into: nothing is lost or reordered, the middle is
      whole blocks, and the last piece has the documented length. */
  ghost predicate Delivered(first: nat, block: nat, last: nat, calls: seq<Call>, message: seq<byte>)
    requires 1 <= block
  {
    && |calls| >= 1 && calls[|calls| - 1].LastPut?
    && Text(calls) == message
    && var rest := |calls[|calls| - 1].bytes|;
       if |message| < first then |calls| == 1
       else
         && |calls| >= 2 && calls[0].FirstPut? && |calls[0].bytes| == first && Middle(calls[1..|calls| - 1], block)
         && if |message| <= first + last then rest == |message| - first else last <= rest < last + block
  }

  lemma Complete(first: nat, block: nat, last: nat, done: bool, calls: seq<Call>, queued: seq<byte>, message: seq<byte>)
    requires 1 <= block && Progress(first, block, last, done, calls, queued, message)
    requires done || 0 < first
    ensures Delivered(first, block, last, calls + [LastPut(queued)], message)
  {
    hide Multiple, Text, Dispatched;
    var all := calls + [LastPut(queued)];
    TextAppend(calls, LastPut(queued));
    if done {
      LastBounds(|message|, first, block, last);
      TextPrepend(calls[0], calls[1..]);
      assert calls == [calls[0]] + calls[1..] && all[1..|all| - 1] == calls[1..];
      var n := Dispatched(|message| - first, block, last);
      assert message == (message[..first] + message[first..first + n]) + message[first + n..];
    } else {
      NoText(calls);
    }
  }

  lemma NoCalls()
    ensures Text([]) == []
  {
  }

  lemma {:induction false} TextPrepend(c: Call, calls: seq<Call>)
    ensures Text([c] + calls) == c.bytes + Text(calls)
  {
    hide Text;
    if calls == [] {
      assert [c] + calls == [] + [c];
      TextAppend([], c);
      NoCalls();
    } else {
      var front, l := calls[..|calls| - 1], calls[|calls| - 1];
      TextPrepend(c, front);
      assert [c] + calls == ([c] + front) + [l] && calls == front + [l];
      TextAppend([c] + front, l);
      TextAppend(front, l);
    }
  }

  /** A message in any number of pieces, the last of them with the end of the
      message, goes out the same way. */
  method PutMessage(filter: FilterWithBufferedInput, pieces: seq<seq<byte>>) returns (calls: seq<Call>)
    requires filter.Valid() && filter.message == []
    modifies filter`log, filter`message, filter`firstInputDone, filter.queue, filter.queue.buffer
    ensures filter.Valid() && filter.message == []
    ensures Delivered(filter.firstSize, filter.blockSize, filter.lastSize, calls, Concat(pieces))
  {
    hide Delivered, FilterWithBufferedInput.Valid;
    for i := 0 to |pieces|
      invariant filter.Valid() && filter.message == Concat(pieces[..i])
      invariant filter.queue.buffer == old(filter.queue.buffer) || fresh(filter.queue.buffer)
    {
      assert pieces[..i + 1] == pieces[..i] + [pieces[i]];
      filter.PutBytes(pieces[i]);
    }
    assert pieces[..|pieces|] == pieces;
    calls := filter.MessageEnd();
  }

  /** For fixed sizes, the first piece, the bytes of the middle and the last
      piece depend on the message alone, not on how it was cut. */
  lemma OneDelivery(first: nat, block: nat, last: nat, calls: seq<Call>, calls': seq<Call>, message: seq<byte>)
    requires 1 <= block && Delivered(first, block, last, calls, message)
        && Delivered(first, block, last, calls', message)
    ensures calls[|calls| - 1] == calls'[|calls'| - 1]
    ensures |message| >= first ==> calls[0] == calls'[0] && Text(calls[1..|calls| - 1]) == Text(calls'[1..|calls'| - 1])
  {
    hide Multiple, Text;
    if |message| < first {
      OnlyLast(calls, message);
      OnlyLast(calls', message);
    } else {
      ThreeParts(first, block, last, calls, message);
      ThreeParts(first, block, last, calls', message);
    }
  }

  lemma OnlyLast(calls: seq<Call>, message: seq<byte>)
    requires |calls| == 1 && calls[0].LastPut? && Text(calls) == message
    ensures calls[0].bytes == message
  {
    assert calls == [] + [calls[0]];
    TextAppend([], calls[0]);
  }

  lemma ThreeParts(first: nat, block: nat, last: nat, calls: seq<Call>, message: seq<byte>)
    requires 1 <= block && first <= |message| && Delivered(first, block, last, calls, message)
    ensures var n := first + Dispatched(|message| - first, block, last);
      && calls[0] == FirstPut(message[..first]) && calls[|calls| - 1] == LastPut(message[n..])
      && Text(calls[1..|calls| - 1]) == message[first..n]
  {
    hide Multiple, Text, Dispatched;
    var mid, l := calls[1..|calls| - 1], calls[|calls| - 1];
    assert calls == ([calls[0]] + mid) + [l];
    TextAppend([calls[0]] + mid, l);
    TextPrepend(calls[0], mid);
    MiddleLength(mid, block);
    var t := Text(mid);
    assert |message| == first + |t| + |l.bytes|;
    DispatchedUnique(|message| - first, block, last, |t|);
    assert message == calls[0].bytes + (t + l.bytes);
    assert message[first..] == t + l.bytes;
    assert t == message[first..][..|t|] && l.bytes == message[first..][|t|..];
  }

  /** Construction refuses a block size of zero. */
  method NewFilter(first: nat, block: nat, last: nat) returns (filter: FilterWithBufferedInput?)
    ensures filter == null <==> block < 1
    ensures filter != null ==> fresh(filter) && fresh(filter.queue) && fresh(filter.queue.buffer)
    ensures filter != null ==> filter.Valid() && filter.message == []
    ensures filter != null ==> filter.firstSize == first && filter.blockSize == block && filter.lastSize == last
  {
    if block < 1 {
      return null;  // InvalidArgument
    }
    filter := new FilterWithBufferedInput(first, block, last);
  }
}
