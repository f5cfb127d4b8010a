/**
  The buffered byte transport: two growable buffers over one socket.

  The socket is nondeterministic: a call moves any positive number of bytes the
  caller offers room for, or fails.  Ghost fields record the byte streams.
*/
module Transport {
  import opened Primitives

  const PLC_BUFFER_SIZE := 8192
  const PLC_BUFFER_MIN_FREE := 200

  /** The outgoing direction of the socket. */
  class SendSide {
    var sent: Bytes             // everything the socket accepted
    ghost var appended: Bytes   // everything successfully appended to the buffer
    ghost var faults: nat       // failed send calls
    ghost var largest: nat      // the largest append so far

    constructor ()
      ensures sent == [] && appended == [] && faults == 0 && largest == 0
    {
      sent := [];
      appended, faults, largest := [], 0, 0;
    }

    method Send(data: array<Byte>, at: nat, len: nat) returns (n: int)
      requires 0 < len && at + len <= data.Length
      modifies this`sent, this`faults
      ensures n <= len
      ensures n > 0 ==> sent == old(sent) + data[at..at + n] && faults == old(faults)
      ensures n <= 0 ==> sent == old(sent) && faults == old(faults) + 1
    {
      if * {
        n :| -1 <= n <= 0;
        faults := faults + 1;
      } else {
        n :| 1 <= n <= len;
        sent := sent + data[at..at + n];
      }
    }
  }

  /** The incoming direction of the socket. */
  class RecvSide {
    var unread: Bytes           // what the peer sent and recv has not delivered
    ghost var consumed: Bytes   // everything handed out by successful reads
    ghost var faults: nat       // recv calls that failed although bytes were waiting
    ghost var largest: nat      // the largest read so far
    ghost var leastOffer: nat   // the smallest room a recv call was ever offered

    constructor ()
      ensures unread == [] && consumed == [] && faults == 0 && largest == 0
      ensures leastOffer == PLC_BUFFER_SIZE
    {
      unread, consumed := [], [];
      faults, largest, leastOffer := 0, 0, PLC_BUFFER_SIZE;
    }

    /** A recv of no room returns 0, which the callers take for a failure. */
    method Recv(data: array<Byte>, at: nat, len: nat) returns (n: int)
      requires at + len <= data.Length
      modifies this`unread, this`faults, this`leastOffer, data
      ensures leastOffer == Min(old(leastOffer), len)
      ensures n <= 0 ==> data[..] == old(data[..]) && unread == old(unread)
      ensures n <= 0 && 0 < len && unread != [] ==> faults == old(faults) + 1
      ensures n <= 0 && (len == 0 || unread == []) ==> faults == old(faults)
      ensures n > 0 ==>
        && n <= len && n <= |old(unread)|
        && data[..] == old(data[..at]) + old(unread)[..n] + old(data[at + n..])
        && unread == old(unread)[n..]
        && faults == old(faults)
    {
      leastOffer := Min(leastOffer, len);
      var down: bool := *;
      if len == 0 || unread == [] || down {
        n :| -1 <= n <= 0;
        if 0 < len && unread != [] {
          faults := faults + 1;
        }
      } else {
        n :| 1 <= n <= len && n <= |unread|;
        forall k | 0 <= k < n { data[at + k] := unread[k]; }
        unread := unread[n..];
      }
    }
  }

  /**
    The C library's memcpy: undefined when the two ranges overlap, so callers
    must show that they do not.
  */
  method Memcpy(dst: array<Byte>, d: nat, src: array<Byte>, s: nat, n: nat)
    requires d + n <= dst.Length && s + n <= src.Length
    requires dst == src ==> d + n <= s || s + n <= d
    modifies dst
    ensures dst[..] == old(dst[..d]) + old(src[s..s + n]) + old(dst[d + n..])
  {
    forall k | 0 <= k < n { dst[d + k] := src[s + k]; }
  }

  /** Buffers are sized in blocks. */
  predicate WholeBlocks(n: int) { n % PLC_BUFFER_SIZE == 0 }

  /** The next whole number of blocks. */
  lemma RoundedUp(d: nat)
    ensures var n := (d / PLC_BUFFER_SIZE + 1) * PLC_BUFFER_SIZE;
      WholeBlocks(n) && PLC_BUFFER_SIZE <= n && 0 < n - d <= PLC_BUFFER_SIZE
  {
  }

  class Buffer {
    var data: array<Byte>
    var pStart: int
    var pEnd: int
    var bufSize: int
    ghost var overflowed: bool  // some resize so far overflowed an int

    ghost predicate Valid()
      reads this
    {
      && data.Length == bufSize
      && PLC_BUFFER_SIZE <= bufSize && WholeBlocks(bufSize)
      && 0 <= pStart <= pEnd <= bufSize
    }

    /** The bytes waiting in the buffer. */
    ghost function Live(): Bytes
      reads this, data
      requires Valid()
    {
      data[pStart..pEnd]
    }

    constructor ()
      ensures Valid() && fresh(data)
      ensures pStart == pEnd == 0 && bufSize == PLC_BUFFER_SIZE && !overflowed
    {
      data := new Byte[PLC_BUFFER_SIZE];
      pStart, pEnd, bufSize := 0, 0, PLC_BUFFER_SIZE;
      overflowed := false;
    }

    /** The copy at the end of an append; the bound is the assertion that follows it. */
    method Put(src: Bytes)
      requires Valid() && pEnd + |src| <= bufSize
      modifies this`pEnd, data
      ensures Valid() && Live() == old(Live()) + src
    {
      forall k | 0 <= k < |src| { data[pEnd + k] := src[k]; }
      pEnd := pEnd + |src|;
      assert pEnd <= bufSize;
    }

    /** One recv into all the room after the content. */
    method Pull(rx: RecvSide) returns (n: int)
      requires Valid()
      modifies this`pEnd, data, rx`unread, rx`faults, rx`leastOffer
      ensures Valid() && Live() + rx.unread == old(Live() + rx.unread)
      ensures rx.leastOffer == Min(old(rx.leastOffer), bufSize - old(pEnd))
      ensures n > 0 ==> pEnd == old(pEnd) + n && rx.faults == old(rx.faults)
      ensures n <= 0 ==> pEnd == old(pEnd) && rx.faults >= old(rx.faults)
      ensures n <= 0 && old(pEnd) < bufSize && rx.unread != [] ==> rx.faults == old(rx.faults) + 1
    {
      ghost var live, unread := Live(), rx.unread;
      n := rx.Recv(data, pEnd, bufSize - pEnd);
      if n > 0 {
        pEnd := pEnd + n;
        assert pEnd <= bufSize;
        assert Live() == live + unread[..n];
      } else {
        assert Live() == live;
      }
    }

    method MaybeReset() returns (res: int)
      requires Valid()
      modifies this`pStart, this`pEnd, data
      ensures res == 0 && Valid()
      ensures Live() == old(Live())
      ensures FirstHalf(pStart, bufSize)
      ensures if FirstHalf(old(pStart), bufSize) && old(pStart) < old(pEnd)
              then pStart == old(pStart) && data[..] == old(data[..])
              else pStart == 0
    {
      if pStart == pEnd {
        pStart := 0;
        pEnd := 0;
      }
      if pStart > bufSize / 2 {
        Memcpy(data, 0, data, pStart, pEnd - pStart);
        pEnd := pEnd - pStart;
        pStart := 0;
      }
      return 0;
    }

    /**
      Makes room for `append` more bytes.  The new size is pinned down: it is the
      one multiple of PLC_BUFFER_SIZE in a window of that width.
    */
    method MaybeResize(append: nat) returns (res: int)
      requires Valid()
      modifies this
      ensures res == 0 && Valid()
      ensures Live() == old(Live())
      ensures pEnd + append <= bufSize - PLC_BUFFER_MIN_FREE
      ensures NewSize(old(pStart), old(pEnd), old(bufSize), append, bufSize)
      ensures if Shrinks(old(pStart), old(pEnd), old(bufSize), append)
                || Grows(old(pStart), old(pEnd), old(bufSize), append)
              then fresh(data) && pStart == 0
              else data == old(data) && pStart == old(pStart) && bufSize == old(bufSize)
      ensures overflowed <==> old(overflowed) || !AllFit(ResizeInts(old(pStart), old(pEnd), old(bufSize), append))
    {
      hide WholeBlocks, ResizeInts, AllFit;
      overflowed := overflowed || !AllFit(ResizeInts(pStart, pEnd, bufSize, append));
      var newSize := bufSize;
      var isReallocated := false;
      var dataSize := (pEnd - pStart) + append + PLC_BUFFER_MIN_FREE;
      if dataSize < bufSize / 5 && bufSize > PLC_BUFFER_SIZE {
        newSize := ((dataSize * 2) / PLC_BUFFER_SIZE + 1) * PLC_BUFFER_SIZE;
        RoundedUp(dataSize * 2);
        isReallocated := true;
      } else if pEnd + append > bufSize - PLC_BUFFER_MIN_FREE {
        newSize := (dataSize / PLC_BUFFER_SIZE + 1) * PLC_BUFFER_SIZE;
        RoundedUp(dataSize);
        isReallocated := true;
      }
      if isReallocated {
        Reallocate(newSize);
      }
      return 0;
    }

    /** The end of plcBufferMaybeResize: the content moves to the front of a new buffer. */
    method Reallocate(newSize: int)
      requires Valid() && WholeBlocks(newSize) && PLC_BUFFER_SIZE <= newSize && pEnd - pStart <= newSize
      modifies `data, `pStart, `pEnd, `bufSize
      ensures Valid() && fresh(data) && Live() == old(Live())
      ensures pStart == 0 && pEnd == old(pEnd - pStart) && bufSize == newSize
    {
      hide WholeBlocks;
      var newBuffer := new Byte[newSize];
      Memcpy(newBuffer, 0, data, pStart, pEnd - pStart);
      data := newBuffer;
      pEnd := pEnd - pStart;
      pStart := 0;
      bufSize := newSize;
    }
  }

  /** The room the buffer content and the next insert need together. */
  function DataSize(pStart: int, pEnd: int, append: int): int {
    (pEnd - pStart) + append + PLC_BUFFER_MIN_FREE
  }

  predicate Shrinks(pStart: int, pEnd: int, bufSize: int, append: int) {
    DataSize(pStart, pEnd, append) < bufSize / 5 && bufSize > PLC_BUFFER_SIZE
  }

  predicate Grows(pStart: int, pEnd: int, bufSize: int, append: int) {
    !Shrinks(pStart, pEnd, bufSize, append) && pEnd + append > bufSize - PLC_BUFFER_MIN_FREE
  }

  /** The int expressions plcBufferMaybeResize evaluates on the path it takes. */
  function ResizeInts(pStart: int, pEnd: int, bufSize: int, append: int): seq<int> {
    var d := DataSize(pStart, pEnd, append);
    [pEnd - pStart, pEnd - pStart + append, d, bufSize / 5]
    + if Shrinks(pStart, pEnd, bufSize, append) then
        [d * 2, (d * 2) / PLC_BUFFER_SIZE + 1, ((d * 2) / PLC_BUFFER_SIZE + 1) * PLC_BUFFER_SIZE]
      else
        [pEnd + append, bufSize - PLC_BUFFER_MIN_FREE]
        + if Grows(pStart, pEnd, bufSize, append) then
            [d / PLC_BUFFER_SIZE + 1, (d / PLC_BUFFER_SIZE + 1) * PLC_BUFFER_SIZE]
          else []
  }

  predicate AllFit(xs: seq<int>) { forall i | 0 <= i < |xs| :: FitsInt(xs[i]) }

  predicate Geometry(pStart: int, pEnd: int, bufSize: int, append: int) {
    0 <= pStart <= pEnd <= bufSize <= INT_MAX && 0 < bufSize && 0 <= append <= INT_MAX
  }

  /**
    With a data size of at most INT_MAX - 8192 the resize overflows exactly when
    the buffer is not shrunk and the insert would reach past INT_MAX from the
    present end: the consumed space before pStart counts.
  */
  lemma ResizeOverflow(pStart: int, pEnd: int, bufSize: int, append: int)
    requires Geometry(pStart, pEnd, bufSize, append)
    requires DataSize(pStart, pEnd, append) <= INT_MAX - PLC_BUFFER_SIZE
    ensures AllFit(ResizeInts(pStart, pEnd, bufSize, append))
       <==> Shrinks(pStart, pEnd, bufSize, append) || pEnd + append <= INT_MAX
  {
    var xs := ResizeInts(pStart, pEnd, bufSize, append);
    if !Shrinks(pStart, pEnd, bufSize, append) {
      assert xs[4] == pEnd + append;
    }
  }

  /**
    The size after a resize: smaller on the shrink path, and pinned down to the one
    whole number of blocks in a window of that width.
  */
  predicate NewSize(pStart: int, pEnd: int, bufSize: int, append: int, newSize: int) {
    var d := DataSize(pStart, pEnd, append);
    if Shrinks(pStart, pEnd, bufSize, append) then newSize < bufSize && 0 < newSize - 2 * d <= PLC_BUFFER_SIZE
    else if Grows(pStart, pEnd, bufSize, append) then 0 < newSize - d <= PLC_BUFFER_SIZE
    else newSize == bufSize
  }

  lemma AppendBound(pStart: int, pEnd: int, bufSize: int, append: nat, newSize: int, largest: nat)
    requires NewSize(pStart, pEnd, bufSize, append, newSize) && bufSize <= largest + 16584
    requires pEnd - pStart <= PLC_BUFFER_SIZE && append <= largest
    ensures newSize <= largest + 16584
  {
  }

  lemma ReadBound(pStart: int, pEnd: int, bufSize: int, n: nat, newSize: int, largest: nat)
    requires NewSize(pStart, pEnd, bufSize, n, newSize) && bufSize <= Max(PLC_BUFFER_SIZE, 2 * largest + 8391)
    requires pEnd - pStart < n <= largest
    ensures newSize <= Max(PLC_BUFFER_SIZE, 2 * largest + 8391)
  {
  }

  /** pStart has not passed the middle. */
  predicate FirstHalf(pStart: int, bufSize: int) { pStart <= bufSize / 2 }

  /** As long as no request was larger than `limit`, no resize has overflowed. */
  predicate WithinInts(largest: nat, limit: nat, overflowed: bool) { largest <= limit ==> !overflowed }

  const MAX_APPEND := 1_073_733_531
  const MAX_READ := 715_825_085

  /** An append resizes only with at most PLC_BUFFER_SIZE bytes waiting. */
  lemma AppendFits(pStart: int, pEnd: int, bufSize: int, append: nat, largest: nat, overflowed: bool)
    requires 0 <= pStart <= pEnd <= bufSize && 0 < bufSize <= largest + 16584
    requires pEnd - pStart <= PLC_BUFFER_SIZE && append <= largest
    requires WithinInts(largest, MAX_APPEND, overflowed)
    ensures WithinInts(largest, MAX_APPEND, overflowed || !AllFit(ResizeInts(pStart, pEnd, bufSize, append)))
  {
    if largest <= MAX_APPEND {
      ResizeOverflow(pStart, pEnd, bufSize, append);
    }
  }

  /** A read resizes only when fewer bytes wait than it asks for. */
  lemma ReadFits(pStart: int, pEnd: int, bufSize: int, n: nat, largest: nat, overflowed: bool)
    requires 0 <= pStart <= pEnd <= bufSize && 0 < bufSize <= Max(PLC_BUFFER_SIZE, 2 * largest + 8391)
    requires pEnd - pStart < n <= largest
    requires WithinInts(largest, MAX_READ, overflowed)
    ensures WithinInts(largest, MAX_READ, overflowed || !AllFit(ResizeInts(pStart, pEnd, bufSize, n)))
  {
    if largest <= MAX_READ {
      ResizeOverflow(pStart, pEnd, bufSize, n);
    }
  }

  /** One end of a connection. */
  class PlcConn {
    const input: Buffer
    const output: Buffer
    const rx: RecvSide
    const tx: SendSide

    constructor ()
      ensures Valid() && fresh(InRepr()) && fresh(OutRepr()) && fresh(this)
      ensures tx.sent == [] && tx.faults == 0 && tx.largest == 0
      ensures rx.consumed == [] && rx.faults == 0 && rx.largest == 0
      ensures Stream() == [] && Appended() == []
    {
      input := new Buffer();
      output := new Buffer();
      rx := new RecvSide();
      tx := new SendSide();
    }

    ghost function OutRepr(): set<object>
      reads output
    {
      {output, output.data, tx}
    }

    ghost function InRepr(): set<object>
      reads input
    {
      {input, input.data, rx}
    }

    /** What was sent and what waits in the buffer is what was appended. */
    ghost predicate ValidOut()
      reads output, output.data, tx
    {
      && output.Valid()
      && tx.sent + output.Live() == tx.appended
      && output.bufSize <= tx.largest + 16584
      && WithinInts(tx.largest, MAX_APPEND, output.overflowed)
    }

    /** No recv was ever short of room, and the buffer stays in proportion to the reads. */
    ghost predicate ValidIn()
      reads input, rx
    {
      && input.Valid()
      && rx.leastOffer > PLC_BUFFER_MIN_FREE
      && input.bufSize <= Max(PLC_BUFFER_SIZE, 2 * rx.largest + 8391)
      && WithinInts(rx.largest, MAX_READ, input.overflowed)
    }

    ghost predicate Valid()
      reads this, input, output, input.data, output.data, rx, tx
    {
      input != output && input.data != output.data && ValidIn() && ValidOut()
    }

    /** Every byte successfully appended so far. */
    ghost function Appended(): Bytes
      reads tx
    {
      tx.appended
    }

    /** Every byte not yet handed to a reader: buffered, then still in the socket. */
    ghost function Stream(): Bytes
      reads this, input, output, input.data, output.data, rx, tx
      requires Valid()
    {
      input.Live() + rx.unread
    }

    /** The network: bytes the peer's socket accepted become readable here. */
    method Arrive(bytes: Bytes)
      requires Valid()
      modifies rx`unread
      ensures Valid() && Stream() == old(Stream()) + bytes
    {
      hide WholeBlocks;
      ghost var unread := rx.unread;
      rx.unread := rx.unread + bytes;
      assert input.Live() + (unread + bytes) == (input.Live() + unread) + bytes;
    }

    /** The loop of plcBufferMaybeFlush: sends the content, or fails with part of it sent. */
    method Drain() returns (res: int)
      requires Valid()
      modifies output`pStart, tx`sent, tx`faults
      ensures Valid()
      ensures (res == 0 && tx.faults == old(tx.faults)) || (res == -1 && tx.faults > old(tx.faults))
      ensures old(output.pStart) <= output.pStart
      ensures res == 0 ==> output.pStart == output.pEnd
    {
      hide WholeBlocks, WithinInts;
      while output.pStart < output.pEnd
        invariant Valid() && output.pStart >= old(output.pStart)
        invariant tx.faults == old(tx.faults)
      {
        var n := SendSome();
        if n <= 0 {
          return -1;
        }
      }
      return 0;
    }

    /** One socket write from the front of the content. */
    method SendSome() returns (n: int)
      requires Valid() && output.pStart < output.pEnd
      modifies output`pStart, tx`sent, tx`faults
      ensures Valid()
      ensures n > 0 ==> output.pStart == old(output.pStart) + n && tx.faults == old(tx.faults)
      ensures n <= 0 ==> output.pStart == old(output.pStart) && tx.faults > old(tx.faults)
    {
      hide WholeBlocks, WithinInts;
      ghost var live, sent := output.Live(), tx.sent;
      n := tx.Send(output.data, output.pStart, output.pEnd - output.pStart);
      if n > 0 {
        output.pStart := output.pStart + n;
        SentMore(sent, live, n, output.Live());
      }
    }

    lemma SentMore(sent: Bytes, live: Bytes, n: nat, rest: Bytes)
      requires n <= |live| && rest == live[n..]
      ensures (sent + live[..n]) + rest == sent + live
    {
    }

    method MaybeFlush(isForse: bool) returns (res: int)
      requires Valid()
      modifies output`pStart, output`pEnd, output.data, tx`sent, tx`faults
      ensures Valid()
      ensures (res == 0 && tx.faults == old(tx.faults)) || (res == -1 && tx.faults > old(tx.faults))
      ensures |output.Live()| <= |old(output.Live())|
      ensures res == 0 && isForse ==> output.pStart == output.pEnd == 0 && tx.sent == tx.appended
      ensures res == 0 ==> |output.Live()| <= PLC_BUFFER_SIZE
      ensures res == 0 ==> output.pEnd == 0 || output.pEnd == old(output.pEnd)
      ensures res == 0 ==> output.pEnd <= output.bufSize - PLC_BUFFER_MIN_FREE
    {
      hide WithinInts, DataSize, WholeBlocks, FirstHalf;
      if output.bufSize - output.pEnd < PLC_BUFFER_MIN_FREE
        || output.pEnd - output.pStart > PLC_BUFFER_SIZE
        || isForse
      {
        res := Drain();
        if res < 0 {
          return res;
        }
        res := output.MaybeReset();
        if res < 0 {
          return res;
        }
      }
      return 0;
    }

    /** The part of an append that resets, flushes and resizes, in that order. */
    method MakeRoom(n: nat) returns (res: int)
      requires Valid() && n <= tx.largest
      modifies output, output.data, tx`sent, tx`faults
      ensures Valid() && (output.data == old(output.data) || fresh(output.data))
      ensures (res == 0 && tx.faults == old(tx.faults)) || (res == -1 && tx.faults > old(tx.faults))
      ensures res == 0 ==> output.pEnd + n <= output.bufSize - PLC_BUFFER_MIN_FREE
    {
      hide WithinInts, DataSize, WholeBlocks, Shrinks, Grows, NewSize, FirstHalf, ResizeInts, AllFit;
      res := output.MaybeReset();
      if res < 0 { return res; }
      res := MaybeFlush(false);
      if res < 0 { return res; }
      res := ResizeForAppend(n);
    }

    /** The resize of an append: after the flush at most PLC_BUFFER_SIZE bytes wait. */
    method ResizeForAppend(n: nat) returns (res: int)
      requires Valid() && n <= tx.largest && |output.Live()| <= PLC_BUFFER_SIZE
      modifies output, output.data
      ensures res == 0 && Valid() && (output.data == old(output.data) || fresh(output.data))
      ensures output.pEnd + n <= output.bufSize - PLC_BUFFER_MIN_FREE
    {
      hide WithinInts, DataSize, WholeBlocks, Shrinks, Grows, NewSize, FirstHalf, ResizeInts, AllFit;
      AppendFits(output.pStart, output.pEnd, output.bufSize, n, tx.largest, output.overflowed);
      ghost var (pStart, pEnd, bufSize) := (output.pStart, output.pEnd, output.bufSize);
      res := output.MaybeResize(n);
      AppendBound(pStart, pEnd, bufSize, n, output.bufSize, tx.largest);
    }

    /**
      Appends `src`, all of it or nothing; after a failure the stream is as if the
      call had not been made.
    */
    method Append(src: Bytes) returns (res: int)
      requires Valid()
      modifies OutRepr()
      ensures Valid() && fresh(OutRepr() - old(OutRepr()))
      ensures tx.largest == Max(old(tx.largest), |src|)
      ensures res == 0 ==> Appended() == old(Appended()) + src && tx.faults == old(tx.faults)
      ensures res != 0 ==> res == -1 && Appended() == old(Appended()) && tx.faults > old(tx.faults)
    {
      hide WholeBlocks, Shrinks, Grows, NewSize, FirstHalf, ResizeInts, AllFit;
      tx.largest := Max(tx.largest, |src|);
      if output.bufSize - output.pEnd < |src| {
        res := MakeRoom(|src|);
        if res < 0 { return res; }
      }
      PutAppended(src);
      return 0;
    }

    /** The copy at the end of an append. */
    method PutAppended(src: Bytes)
      requires Valid() && output.pEnd + |src| <= output.bufSize
      modifies output`pEnd, output.data, tx`appended
      ensures Valid() && Appended() == old(Appended()) + src
    {
      hide WholeBlocks, WithinInts;
      ghost var live := output.Live();
      output.Put(src);
      tx.appended := tx.appended + src;
      assert (tx.sent + live) + src == tx.sent + (live + src);
    }

    method Flush() returns (res: int)
      requires Valid()
      modifies OutRepr()
      ensures Valid() && fresh(OutRepr() - old(OutRepr()))
      ensures Appended() == old(Appended()) && tx.largest == old(tx.largest)
      ensures (res == 0 && tx.faults == old(tx.faults)) || (res == -1 && tx.faults > old(tx.faults))
      ensures res == 0 ==> output.pStart == output.pEnd == 0 && tx.sent == Appended()
    {
      hide WholeBlocks, Shrinks, Grows, NewSize, FirstHalf, ResizeInts, AllFit;
      res := MaybeFlush(true);
    }

    /** The part of a receive that resets and resizes. */
    method MakeReadRoom(n: nat) returns (res: int)
      requires Valid() && |input.Live()| < n <= rx.largest
      modifies input, input.data
      ensures res == 0 && Valid() && (input.data == old(input.data) || fresh(input.data))
      ensures input.Live() == old(input.Live())
      ensures input.pEnd + n <= input.bufSize - PLC_BUFFER_MIN_FREE
    {
      hide WithinInts, DataSize, WholeBlocks, Shrinks, Grows, NewSize, FirstHalf, ResizeInts, AllFit;
      res := input.MaybeReset();
      if res < 0 { return res; }
      ReadFits(input.pStart, input.pEnd, input.bufSize, n, rx.largest, input.overflowed);
      ghost var (pStart, pEnd, bufSize) := (input.pStart, input.pEnd, input.bufSize);
      res := input.MaybeResize(n);
      ReadBound(pStart, pEnd, bufSize, n, input.bufSize, rx.largest);
    }

    /** Has `n` bytes in the buffer, or fails; moves no byte out of the stream. */
    method Receive(n: nat) returns (res: int)
      requires Valid()
      modifies InRepr()
      ensures Valid() && fresh(InRepr() - old(InRepr()))
      ensures rx.largest == Max(old(rx.largest), n) && rx.consumed == old(rx.consumed)
      ensures Stream() == old(Stream())
      ensures res == 0 ==> n <= |input.Live()| && rx.faults == old(rx.faults)
      ensures res != 0 ==> res == -1 && (|Stream()| < n || rx.faults > old(rx.faults))
      ensures rx.faults >= old(rx.faults)
    {
      hide WholeBlocks, Shrinks, Grows, NewSize, FirstHalf, ResizeInts, AllFit;
      res := 0;
      rx.largest := Max(rx.largest, n);
      if input.pEnd - input.pStart < n {
        res := MakeReadRoom(n);
        if res < 0 { return res; }
        res := PullUntil(n);
      }
    }

    /** The loop of plcBufferReceive. */
    method PullUntil(n: nat) returns (res: int)
      requires Valid() && input.pStart + n <= input.bufSize - PLC_BUFFER_MIN_FREE
      modifies input`pEnd, input.data, rx`unread, rx`faults, rx`leastOffer
      ensures Valid() && Stream() == old(Stream())
      ensures res == 0 ==> n <= |input.Live()| && rx.faults == old(rx.faults)
      ensures res != 0 ==> res == -1 && (|Stream()| < n || rx.faults > old(rx.faults))
      ensures rx.faults >= old(rx.faults)
    {
      hide WholeBlocks, WithinInts;
      var nBytesToReceive := n - (input.pEnd - input.pStart);
      while nBytesToReceive > 0
        invariant Valid() && Stream() == old(Stream())
        invariant nBytesToReceive == n - (input.pEnd - input.pStart)
        invariant rx.faults == old(rx.faults)
      {
        var recBytes := input.Pull(rx);
        if recBytes <= 0 {
          return -1;
        }
        nBytesToReceive := nBytesToReceive - recBytes;
      }
      return 0;
    }

    /** Takes exactly the next `n` bytes of the stream, or leaves the stream as it was. */
    method Read(n: nat) returns (res: int, bytes: Bytes)
      requires Valid()
      modifies InRepr()
      ensures Valid() && fresh(InRepr() - old(InRepr()))
      ensures rx.largest == Max(old(rx.largest), n)
      ensures res == 0 ==>
        && |bytes| == n && old(Stream()) == bytes + Stream()
        && rx.consumed == old(rx.consumed) + bytes && rx.faults == old(rx.faults)
      ensures res != 0 ==>
        && res == -1 && Stream() == old(Stream()) && rx.consumed == old(rx.consumed)
        && (|Stream()| < n || rx.faults > old(rx.faults)) && rx.faults >= old(rx.faults)
    {
      hide WholeBlocks, Shrinks, Grows, NewSize, FirstHalf, ResizeInts, AllFit;
      res := Receive(n);
      if res == 0 {
        bytes := input.data[input.pStart..input.pStart + n];
        ghost var live := input.Live();
        input.pStart := input.pStart + n;
        rx.consumed := rx.consumed + bytes;
        assert live == bytes + input.Live();
      } else {
        bytes := *;
      }
    }
  }
}
