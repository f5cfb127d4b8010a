/** Runs of buffer operations: any mixture, in any order, whatever the socket does. */
module TransportRuns {
  import opened Primitives
  import opened Transport

  /** What can happen to a connection, in any order and any number. */
  datatype Op =
    | Append(src: Bytes)
    | Flush
    | Read(n: nat)
    | Receive(n: nat)
    | Arrive(bytes: Bytes)

  /** The bytes of the appends that returned 0, in order. */
  function Accepted(ops: seq<Op>, codes: seq<int>): Bytes
    requires |ops| == |codes|
  {
    if ops == [] then []
    else
      var k := |ops| - 1;
      Accepted(ops[..k], codes[..k]) + (if ops[k].Append? && codes[k] == 0 then ops[k].src else [])
  }

  /** How many bytes the reads that returned 0 asked for. */
  function Taken(ops: seq<Op>, codes: seq<int>): nat
    requires |ops| == |codes|
  {
    if ops == [] then 0
    else
      var k := |ops| - 1;
      Taken(ops[..k], codes[..k]) + (if ops[k].Read? && codes[k] == 0 then ops[k].n else 0)
  }

  function Arrived(ops: seq<Op>): Bytes {
    if ops == [] then []
    else
      var k := |ops| - 1;
      Arrived(ops[..k]) + (if ops[k].Arrive? then ops[k].bytes else [])
  }

  predicate OpWithin(op: Op, n: nat) {
    match op
    case Append(src) => |src| <= n
    case Read(k) => k <= n
    case Receive(k) => k <= n
    case _ => true
  }

  predicate Writes(op: Op) { op.Append? || op.Flush? }

  predicate Reads(op: Op) { op.Read? || op.Receive? }

  /** Every append and flush so far returned 0. */
  predicate AllWritten(ops: seq<Op>, codes: seq<int>)
    requires |codes| <= |ops|
  {
    forall i | 0 <= i < |codes| && Writes(ops[i]) :: codes[i] == 0
  }

  /** How many bytes are there to be read when operation `i` starts. */
  function Waiting(start: nat, ops: seq<Op>, codes: seq<int>, i: nat): int
    requires i <= |codes| <= |ops|
  {
    start + |Arrived(ops[..i])| - Taken(ops[..i], codes[..i])
  }

  /** Every read and receive so far returned 0 exactly when there were bytes enough. */
  predicate AllRead(start: nat, ops: seq<Op>, codes: seq<int>)
    requires |codes| <= |ops|
  {
    forall i | 0 <= i < |codes| && Reads(ops[i]) :: codes[i] == 0 <==> ops[i].n <= Waiting(start, ops, codes, i)
  }

  lemma AllReadSnoc(start: nat, ops: seq<Op>, codes: seq<int>, code: int)
    requires |codes| < |ops| && AllRead(start, ops, codes)
    requires Reads(ops[|codes|]) ==> (code == 0 <==> ops[|codes|].n <= Waiting(start, ops, codes, |codes|))
    ensures AllRead(start, ops, codes + [code])
  {
    hide Arrived, Taken;
    assert forall i | 0 <= i <= |codes| :: (codes + [code])[..i] == codes[..i];
    assert forall i | 0 <= i <= |codes| :: Waiting(start, ops, codes + [code], i) == Waiting(start, ops, codes, i);
  }

  /**
    Any run, whatever the socket does.  The output is a FIFO of the accepted
    appends; the input hands out the arriving stream in order, as much of it as
    the successful reads asked for, and failed calls lose nothing.  Operations fail
    for a reason only: appends and flushes when a socket write failed, reads and
    receives when fewer bytes were there than asked for, unless a recv failed with
    bytes waiting.  The buffers stay in proportion to the largest request made, and
    for requests below the bounds no resize overflows an int.
  */
  method RunOps(conn: PlcConn, ops: seq<Op>, ghost n: nat) returns (codes: seq<int>, got: Bytes)
    requires conn.Valid() && conn.tx.largest <= n && conn.rx.largest <= n
    requires forall i | 0 <= i < |ops| :: OpWithin(ops[i], n)
    modifies conn.OutRepr(), conn.InRepr()
    ensures conn.Valid() && |codes| == |ops|
    ensures conn.tx.sent + conn.output.Live() == old(conn.Appended()) + Accepted(ops, codes)
    ensures got + conn.Stream() == old(conn.Stream()) + Arrived(ops)
    ensures |got| == Taken(ops, codes)
    ensures conn.output.bufSize <= n + 16584
    ensures conn.input.bufSize <= Max(PLC_BUFFER_SIZE, 2 * n + 8391)
    ensures conn.rx.leastOffer > PLC_BUFFER_MIN_FREE
    ensures AllWritten(ops, codes) <==> conn.tx.faults == old(conn.tx.faults)
    ensures conn.rx.faults == old(conn.rx.faults) ==> AllRead(|old(conn.Stream())|, ops, codes)
    ensures n <= MAX_APPEND ==> !conn.output.overflowed
    ensures n <= MAX_READ ==> !conn.input.overflowed
  {
    hide PlcConn.Valid, PlcConn.Stream, Accepted, Taken, Arrived, Waiting;
    NothingYet();
    ghost var a0, s0 := conn.Appended(), conn.Stream();
    ghost var tf, rf := conn.tx.faults, conn.rx.faults;
    codes, got := [], [];
    for i := 0 to |ops|
      invariant |codes| == i && conn.Valid()
      invariant fresh(conn.OutRepr() - old(conn.OutRepr())) && fresh(conn.InRepr() - old(conn.InRepr()))
      invariant conn.tx.largest <= n && conn.rx.largest <= n
      invariant conn.Appended() == a0 + Accepted(ops[..i], codes)
      invariant got + conn.Stream() == s0 + Arrived(ops[..i])
      invariant |got| == Taken(ops[..i], codes)
      invariant conn.tx.faults >= tf && conn.rx.faults >= rf
      invariant AllWritten(ops, codes) <==> conn.tx.faults == tf
      invariant conn.rx.faults == rf ==> AllRead(|s0|, ops, codes)
    {
      ghost var rest := conn.Stream();
      var code, bytes := Step(conn, ops[i], n);
      OneMore(ops, i, codes, code);
      StillWaiting(s0, ops, codes, got, rest);
      AllWrittenSnoc(ops, codes, code);
      if conn.rx.faults == rf {
        AllReadSnoc(|s0|, ops, codes, code);
      }
      ConcatAssoc(a0, Accepted(ops[..i], codes), if ops[i].Append? && code == 0 then ops[i].src else []);
      ConcatAssoc(s0, Arrived(ops[..i]), if ops[i].Arrive? then ops[i].bytes else []);
      ConcatAssoc(got, rest, if ops[i].Arrive? then ops[i].bytes else []);
      ConcatAssoc(got, bytes, conn.Stream());
      codes := codes + [code];
      got := got + bytes;
    }
    assert ops[..|ops|] == ops;
    Bounds(conn);
  }

  lemma AllWrittenSnoc(ops: seq<Op>, codes: seq<int>, code: int)
    requires |codes| < |ops|
    ensures AllWritten(ops, codes + [code]) <==> AllWritten(ops, codes) && (Writes(ops[|codes|]) ==> code == 0)
  {
    assert forall i | 0 <= i < |codes| :: (codes + [code])[i] == codes[i];
    assert (codes + [code])[|codes|] == code;
  }

  lemma StillWaiting(s0: Bytes, ops: seq<Op>, codes: seq<int>, got: Bytes, rest: Bytes)
    requires |codes| <= |ops| && got + rest == s0 + Arrived(ops[..|codes|]) && |got| == Taken(ops[..|codes|], codes)
    ensures |rest| == Waiting(|s0|, ops, codes, |codes|)
  {
    assert codes[..|codes|] == codes;
    assert |got + rest| == |s0 + Arrived(ops[..|codes|])|;
  }

  lemma Bounds(conn: PlcConn)
    requires conn.Valid()
    ensures conn.output.Valid() && conn.tx.sent + conn.output.Live() == conn.Appended()
    ensures conn.output.bufSize <= conn.tx.largest + 16584
    ensures conn.input.bufSize <= Max(PLC_BUFFER_SIZE, 2 * conn.rx.largest + 8391)
    ensures conn.rx.leastOffer > PLC_BUFFER_MIN_FREE
    ensures conn.tx.largest <= MAX_APPEND ==> !conn.output.overflowed
    ensures conn.rx.largest <= MAX_READ ==> !conn.input.overflowed
  {
  }

  lemma NothingYet()
    ensures Accepted([], []) == [] && Taken([], []) == 0 && Arrived([]) == []
  {
  }

  lemma OneMore(ops: seq<Op>, i: nat, codes: seq<int>, code: int)
    requires i < |ops| && |codes| == i
    ensures Accepted(ops[..i + 1], codes + [code])
         == Accepted(ops[..i], codes) + (if ops[i].Append? && code == 0 then ops[i].src else [])
    ensures Taken(ops[..i + 1], codes + [code])
         == Taken(ops[..i], codes) + (if ops[i].Read? && code == 0 then ops[i].n else 0)
    ensures Arrived(ops[..i + 1]) == Arrived(ops[..i]) + (if ops[i].Arrive? then ops[i].bytes else [])
  {
    hide Accepted, Taken, Arrived;
    Snoc(ops[..i], ops[i], codes, code);
    assert ops[..i] + [ops[i]] == ops[..i + 1];
  }

  lemma Snoc(ops: seq<Op>, op: Op, codes: seq<int>, code: int)
    requires |ops| == |codes|
    ensures Accepted(ops + [op], codes + [code]) == Accepted(ops, codes) + (if op.Append? && code == 0 then op.src else [])
    ensures Taken(ops + [op], codes + [code]) == Taken(ops, codes) + (if op.Read? && code == 0 then op.n else 0)
    ensures Arrived(ops + [op]) == Arrived(ops) + (if op.Arrive? then op.bytes else [])
  {
    var k := |ops|;
    assert (ops + [op])[..k] == ops;
    assert (ops + [op])[k] == op;
    assert (codes + [code])[..k] == codes;
  }

  method Step(conn: PlcConn, op: Op, ghost n: nat) returns (code: int, bytes: Bytes)
    requires conn.Valid() && conn.tx.largest <= n && conn.rx.largest <= n && OpWithin(op, n)
    modifies conn.OutRepr(), conn.InRepr()
    ensures conn.Valid()
    ensures fresh(conn.OutRepr() - old(conn.OutRepr())) && fresh(conn.InRepr() - old(conn.InRepr()))
    ensures conn.tx.largest <= n && conn.rx.largest <= n
    ensures conn.Appended() == old(conn.Appended()) + (if op.Append? && code == 0 then op.src else [])
    ensures bytes + conn.Stream() == old(conn.Stream()) + (if op.Arrive? then op.bytes else [])
    ensures |bytes| == if op.Read? && code == 0 then op.n else 0
    ensures code == 0 || code == -1
    ensures conn.tx.faults >= old(conn.tx.faults) && conn.rx.faults >= old(conn.rx.faults)
    ensures if Writes(op) then code == 0 <==> conn.tx.faults == old(conn.tx.faults)
            else conn.tx.faults == old(conn.tx.faults)
    ensures if Reads(op) then
              && (code == 0 ==> op.n <= |old(conn.Stream())|)
              && (code != 0 ==> |old(conn.Stream())| < op.n || conn.rx.faults > old(conn.rx.faults))
            else conn.rx.faults == old(conn.rx.faults)
    ensures op.Arrive? ==> code == 0
  {
    hide WholeBlocks, Shrinks, Grows, ResizeInts;
    bytes := [];
    match op
    case Append(src) => code := conn.Append(src);
    case Flush => code := conn.Flush();
    case Read(k) =>
      var out;
      code, out := conn.Read(k);
      bytes := if code == 0 then out else [];
    case Receive(k) => code := conn.Receive(k);
    case Arrive(b) =>
      conn.Arrive(b);
      code := 0;
  }

  // ---------------------------------------------------------------------
  // int arithmetic
  // ---------------------------------------------------------------------

  /**
    How a state is reached in which the resize overflows.  On a new connection
    Receive(0x3fff_df00) grows the buffer to 0x3fff_e000 bytes, which one recv may
    fill; Read(0x1fff_f000) leaves pStart at the middle, where MaybeReset lets it stay;
    Read(0x4000_2000) then finds too little, and its resize overflows.
  */
  lemma OverflowIsReached(newSize: int)
    requires NewSize(0, 0, PLC_BUFFER_SIZE, 0x3fff_df00, newSize) && WholeBlocks(newSize)
    ensures newSize == 0x3fff_e000 && 0x1fff_f000 <= newSize
    ensures FirstHalf(0x1fff_f000, newSize) && newSize - 0x1fff_f000 < 0x4000_2000
    ensures !AllFit(ResizeInts(0x1fff_f000, newSize, newSize, 0x4000_2000))
  {
    SmallDataSizeCanOverflow();
  }

  /** The last of these states: a small enough data size, and an overflow. */
  lemma SmallDataSizeCanOverflow()
    ensures var pStart, pEnd, bufSize, append := 0x1fff_f000, 0x3fff_e000, 0x3fff_e000, 0x4000_2000;
      && Geometry(pStart, pEnd, bufSize, append) && bufSize % PLC_BUFFER_SIZE == 0
      && pStart <= bufSize / 2 && pEnd - pStart < append
      && DataSize(pStart, pEnd, append) <= INT_MAX - PLC_BUFFER_SIZE
      && !AllFit(ResizeInts(pStart, pEnd, bufSize, append))
  {
    ResizeOverflow(0x1fff_f000, 0x3fff_e000, 0x3fff_e000, 0x4000_2000);
  }
}
