/** The send half of the channel: each function appends to the connection's output buffer. */
module ChannelSend {
  import opened Primitives
  import opened Wire
  import opened Transport

  /** A send either runs to its end with a code, or raises an error on the way. */
  datatype Sent = Raised | Ran(res: int) {
    predicate IsFailure() { Raised? }
    function PropagateFailure(): Sent
      requires Raised?
    {
      Raised
    }
    function Extract(): int
      requires Ran?
    {
      res
    }
  }

  /** The output only grows, whatever the outcome. */
  twostate predicate Grows(conn: PlcConn)
    reads conn, conn.input, conn.output, conn.input.data, conn.output.data, conn.rx, conn.tx
  {
    && conn.Valid() && fresh(conn.OutRepr() - old(conn.OutRepr()))
    && old(conn.Appended()) <= conn.Appended()
    && old(conn.tx.faults) <= conn.tx.faults
  }

  /**
    Code 0 means that exactly `bytes` were appended; it is returned exactly when
    no socket write failed.  After a failure the output may have a gap: the
    senders go on appending.
  */
  twostate predicate Appends(conn: PlcConn, res: int, bytes: Bytes)
    reads conn, conn.input, conn.output, conn.input.data, conn.output.data, conn.rx, conn.tx
  {
    && Grows(conn)
    && (res == 0 ==> conn.Appended() == old(conn.Appended()) + bytes)
    && (res == 0 <==> conn.tx.faults == old(conn.tx.faults))
    && (res == 0 || res == -1)
  }

  method SendChar(conn: PlcConn, c: Byte) returns (res: int)
    requires conn.Valid()
    modifies conn.OutRepr()
    ensures Appends(conn, res, [c])
  {
    res := conn.Append([c]);
  }

  method SendInt16(conn: PlcConn, x: Int16) returns (res: int)
    requires conn.Valid()
    modifies conn.OutRepr()
    ensures Appends(conn, res, Le(x, 2))
  {
    res := conn.Append(Le(x, 2));
  }

  method SendInt32(conn: PlcConn, x: Int32) returns (res: int)
    requires conn.Valid()
    modifies conn.OutRepr()
    ensures Appends(conn, res, Le(x, 4))
  {
    res := conn.Append(Le(x, 4));
  }

  method SendUInt32(conn: PlcConn, x: UInt32) returns (res: int)
    requires conn.Valid()
    modifies conn.OutRepr()
    ensures Appends(conn, res, Le(x, 4))
  {
    res := conn.Append(Le(x, 4));
  }

  method SendCString(conn: PlcConn, s: CString) returns (res: int)
    requires conn.Valid() && ShortString(s)
    modifies conn.OutRepr()
    ensures Appends(conn, res, EncCString(s))
  {
    hide PlcConn.Valid, Le;
    if s.None? {
      res := SendInt32(conn, -1);
    } else {
      res := SendInt32(conn, |s.value|);
      if res == 0 && |s.value| > 0 {
        res := conn.Append(s.value);
      }
    }
  }

  method SendBytea(conn: PlcConn, b: Bytes) returns (res: int)
    requires conn.Valid() && |b| <= INT_MAX - 4
    modifies conn.OutRepr()
    ensures Appends(conn, res, Le(|b|, 4) + b)
  {
    hide PlcConn.Valid, Le;
    res := SendInt32(conn, |b|);
    var r := conn.Append(b);
    res := Or(res, r);
  }

  method SendType(conn: PlcConn, t: PlcType) returns (res: int)
    requires conn.Valid() && GoodType(t)
    modifies conn.OutRepr()
    ensures Appends(conn, res, EncType(t))
    decreases t, 1
  {
    hide PlcConn.Valid, Le, EncCString, EncTypes, ShortString;
    ghost var a0 := conn.Appended();
    res := SendChar(conn, t.tag % 256);
    var r := SendCString(conn, t.typeName);
    res := Or(res, r);
    ConcatAssoc(a0, [t.tag % 256], EncCString(t.typeName));
    if IsNested(t.tag) {
      r := SendInt16(conn, t.nSubTypes);
      res := Or(res, r);
      if res == 0 {
        res := SendSubTypes(conn, t.subTypes);
      }
    }
  }

  /** The subtype loop of send_type. */
  method SendSubTypes(conn: PlcConn, ts: seq<PlcType>) returns (res: int)
    requires conn.Valid() && forall i | 0 <= i < |ts| :: GoodType(ts[i])
    modifies conn.OutRepr()
    ensures Appends(conn, res, EncTypes(ts))
    decreases ts, 0
  {
    hide PlcConn.Valid, EncType, GoodType;
    ghost var a0 := conn.Appended();
    res := 0;
    ghost var done: Bytes := [];
    var i := 0;
    while i < |ts| && res == 0
      invariant 0 <= i <= |ts|
      invariant Appends(conn, res, done)
      invariant res == 0 ==> done + EncTypes(ts[i..]) == EncTypes(ts)
    {
      assert ts[i..][1..] == ts[i + 1..];
      ConcatAssoc(done, EncType(ts[i]), EncTypes(ts[i + 1..]));
      ConcatAssoc(a0, done, EncType(ts[i]));
      var r := SendType(conn, ts[i]);
      res := Or(res, r);
      done := done + EncType(ts[i]);
      i := i + 1;
    }
  }

  /** `Raised` only when an unsupported object stops the send. */
  twostate predicate AppendsOrRaises(conn: PlcConn, r: Sent, bytes: Bytes, supported: bool)
    reads conn, conn.input, conn.output, conn.input.data, conn.output.data, conn.rx, conn.tx
  {
    match r
    case Raised => Grows(conn) && !supported
    case Ran(res) => Appends(conn, res, bytes) && (res == 0 ==> supported)
  }

  /** No part of the object is of an unsupported type. */
  predicate Supported(v: Value) {
    match v
    case Unsupported => false
    case Array(_, _, elems) => forall i | 0 <= i < |elems| :: Supported(elems[i])
    case Udt(fields) => forall i | 0 <= i < |fields| :: Supported(fields[i])
    case _ => true
  }

  method SendRawObject(conn: PlcConn, t: PlcType, obj: Value) returns (r: Sent)
    requires conn.Valid() && Matches(t, obj)
    modifies conn.OutRepr()
    ensures AppendsOrRaises(conn, r, EncRaw(obj), Supported(obj))
    decreases obj, 2
  {
    hide PlcConn.Valid, Le, EncCString, EncRaws, ShortString;
    if obj.Null? {
      var res := SendChar(conn, NULL);
      return Ran(res);
    }
    ghost var a0 := conn.Appended();
    var res := SendChar(conn, DATA);
    ConcatAssoc(a0, [DATA], EncBody(obj));
    var more: int;
    if IsScalar(t.tag) {
      more := conn.Append(obj.bytes);
    } else if t.tag == PLC_DATA_TEXT {
      more := SendCString(conn, obj.text);
    } else if t.tag == PLC_DATA_BYTEA {
      more := SendBytea(conn, obj.bytes);
    } else if t.tag == PLC_DATA_ARRAY {
      more :- SendRawArrayIter(conn, t.subTypes[0], obj);
    } else if t.tag == PLC_DATA_UDT {
      more :- SendUdt(conn, t.subTypes, obj.fields);
    } else {
      return Raised;
    }
    return Ran(Or(res, more));
  }

  method SendRawArrayIter(conn: PlcConn, e: PlcType, arr: Value) returns (r: Sent)
    requires conn.Valid() && arr.Array?
    requires |arr.dims| == Max(arr.ndims, 0)
    requires forall i | 0 <= i < |arr.elems| :: Matches(e, arr.elems[i])
    modifies conn.OutRepr()
    ensures AppendsOrRaises(conn, r, EncBody(arr), Supported(arr))
    decreases arr, 1
  {
    hide PlcConn.Valid, Le, EncRaws, EncInts, Matches;
    ghost var a0 := conn.Appended();
    var res := SendInt32(conn, arr.ndims);
    var more := SendDims(conn, arr.dims);
    res := Or(res, more);
    ConcatAssoc(a0, Le(arr.ndims, 4), EncInts(arr.dims));
    ConcatAssoc(a0, Le(arr.ndims, 4) + EncInts(arr.dims), EncRaws(arr.elems));
    if res == 0 {
      res :- SendElements(conn, e, arr.elems);
    }
    return Ran(res);
  }

  /** The dimension loop of send_raw_array_iter, which goes on after a failure. */
  method SendDims(conn: PlcConn, dims: seq<Int32>) returns (res: int)
    requires conn.Valid()
    modifies conn.OutRepr()
    ensures Appends(conn, res, EncInts(dims))
  {
    hide PlcConn.Valid, Le;
    ghost var a0 := conn.Appended();
    res := 0;
    ghost var done: Bytes := [];
    for i := 0 to |dims|
      invariant Appends(conn, res, done)
      invariant done + EncInts(dims[i..]) == EncInts(dims)
    {
      assert dims[i..][1..] == dims[i + 1..];
      ConcatAssoc(done, Le(dims[i], 4), EncInts(dims[i + 1..]));
      ConcatAssoc(a0, done, Le(dims[i], 4));
      var r := SendInt32(conn, dims[i]);
      res := Or(res, r);
      done := done + Le(dims[i], 4);
    }
  }

  /** The element loop of send_raw_array_iter. */
  method SendElements(conn: PlcConn, e: PlcType, elems: seq<Value>) returns (r: Sent)
    requires conn.Valid() && forall i | 0 <= i < |elems| :: Matches(e, elems[i])
    modifies conn.OutRepr()
    ensures AppendsOrRaises(conn, r, EncRaws(elems), forall i | 0 <= i < |elems| :: Supported(elems[i]))
    decreases elems, 0
  {
    hide PlcConn.Valid, EncRaw, Matches, Supported;
    ghost var a0 := conn.Appended();
    var res := 0;
    ghost var done: Bytes := [];
    var i := 0;
    while i < |elems| && res == 0
      invariant 0 <= i <= |elems|
      invariant Appends(conn, res, done)
      invariant res == 0 ==> done + EncRaws(elems[i..]) == EncRaws(elems)
      invariant res == 0 ==> forall k | 0 <= k < i :: Supported(elems[k])
    {
      assert elems[i..][1..] == elems[i + 1..];
      ConcatAssoc(done, EncRaw(elems[i]), EncRaws(elems[i + 1..]));
      ConcatAssoc(a0, done, EncRaw(elems[i]));
      var more :- SendRawObject(conn, e, elems[i]);
      res := Or(res, more);
      done := done + EncRaw(elems[i]);
      i := i + 1;
    }
    return Ran(res);
  }

  /** The fields go out in order, each under its own subtype. */
  method SendUdt(conn: PlcConn, ts: seq<PlcType>, fields: seq<Value>) returns (r: Sent)
    requires conn.Valid() && |ts| == |fields|
    requires forall i | 0 <= i < |fields| :: Matches(ts[i], fields[i])
    modifies conn.OutRepr()
    ensures AppendsOrRaises(conn, r, EncRaws(fields), forall i | 0 <= i < |fields| :: Supported(fields[i]))
    decreases fields, 0
  {
    hide PlcConn.Valid, EncRaw, Matches, Supported;
    ghost var a0 := conn.Appended();
    var res := 0;
    ghost var done: Bytes := [];
    var i := 0;
    while i < |ts| && res == 0
      invariant 0 <= i <= |fields|
      invariant Appends(conn, res, done)
      invariant res == 0 ==> done + EncRaws(fields[i..]) == EncRaws(fields)
      invariant res == 0 ==> forall k | 0 <= k < i :: Supported(fields[k])
    {
      assert fields[i..][1..] == fields[i + 1..];
      ConcatAssoc(done, EncRaw(fields[i]), EncRaws(fields[i + 1..]));
      ConcatAssoc(a0, done, EncRaw(fields[i]));
      var more :- SendRawObject(conn, ts[i], fields[i]);
      res := Or(res, more);
      done := done + EncRaw(fields[i]);
      i := i + 1;
    }
    return Ran(res);
  }

  method SendArgument(conn: PlcConn, arg: Argument) returns (r: Sent)
    requires conn.Valid() && GoodArgument(arg)
    modifies conn.OutRepr()
    ensures AppendsOrRaises(conn, r, EncArgument(arg), Supported(arg.data))
  {
    hide PlcConn.Valid, EncCString, EncType, EncRaw, Supported, Matches, GoodType, ShortString;
    ghost var a0 := conn.Appended();
    var res := SendCString(conn, arg.name);
    var more := SendType(conn, arg.typ);
    res := Or(res, more);
    ConcatAssoc(a0, EncCString(arg.name), EncType(arg.typ));
    ConcatAssoc(a0, EncCString(arg.name) + EncType(arg.typ), EncRaw(arg.data));
    more :- SendRawObject(conn, arg.typ, arg.data);
    return Ran(Or(res, more));
  }

  /** The argument loop of send_call, which goes on after a failure. */
  method SendArguments(conn: PlcConn, args: seq<Argument>) returns (r: Sent)
    requires conn.Valid() && forall i | 0 <= i < |args| :: GoodArgument(args[i])
    modifies conn.OutRepr()
    ensures AppendsOrRaises(conn, r, EncArguments(args), forall i | 0 <= i < |args| :: Supported(args[i].data))
  {
    hide PlcConn.Valid, EncArgument, GoodArgument, Supported;
    ghost var a0 := conn.Appended();
    var res := 0;
    ghost var done: Bytes := [];
    for i := 0 to |args|
      invariant Appends(conn, res, done)
      invariant done + EncArguments(args[i..]) == EncArguments(args)
      invariant res == 0 ==> forall k | 0 <= k < i :: Supported(args[k].data)
    {
      assert args[i..][1..] == args[i + 1..];
      ConcatAssoc(done, EncArgument(args[i]), EncArguments(args[i + 1..]));
      ConcatAssoc(a0, done, EncArgument(args[i]));
      var more :- SendArgument(conn, args[i]);
      res := Or(res, more);
      done := done + EncArgument(args[i]);
    }
    return Ran(res);
  }

  /** A call request up to the function's OID. */
  function CallSource(call: Message): Bytes
    requires call.Call?
  {
    [MT_CALLREQ] + EncCString(call.name) + EncCString(call.src) + Le(call.objectid, 4)
  }

  /** A call request from there to the argument count. */
  function CallSignature(call: Message): Bytes
    requires call.Call?
  {
    Le(call.hasChanged, 4) + EncType(call.retType) + Le(call.retset, 4) + Le(|call.args|, 4)
  }

  method SendCallSource(conn: PlcConn, call: Message) returns (res: int)
    requires conn.Valid() && call.Call? && GoodMsg(call)
    modifies conn.OutRepr()
    ensures Appends(conn, res, CallSource(call))
  {
    hide PlcConn.Valid, Le, EncCString, GoodType, ShortString;
    ghost var a0 := conn.Appended();
    ghost var b1: Bytes := [MT_CALLREQ];
    ghost var b2 := b1 + EncCString(call.name);
    ConcatAssoc(a0, b1, EncCString(call.name));
    ConcatAssoc(a0, b2, EncCString(call.src));
    ConcatAssoc(a0, b2 + EncCString(call.src), Le(call.objectid, 4));
    res := SendChar(conn, MT_CALLREQ);
    var r := SendCString(conn, call.name);
    res := Or(res, r);
    r := SendCString(conn, call.src);
    res := Or(res, r);
    r := SendUInt32(conn, call.objectid);
    res := Or(res, r);
  }

  method SendCallSignature(conn: PlcConn, call: Message) returns (res: int)
    requires conn.Valid() && call.Call? && GoodMsg(call)
    modifies conn.OutRepr()
    ensures Appends(conn, res, CallSignature(call))
  {
    hide PlcConn.Valid, Le, EncType, ShortString;
    ghost var a0 := conn.Appended();
    ghost var b1 := Le(call.hasChanged, 4);
    ghost var b2 := b1 + EncType(call.retType);
    ConcatAssoc(a0, b1, EncType(call.retType));
    ConcatAssoc(a0, b2, Le(call.retset, 4));
    ConcatAssoc(a0, b2 + Le(call.retset, 4), Le(|call.args|, 4));
    res := SendInt32(conn, call.hasChanged);
    var r := SendType(conn, call.retType);
    res := Or(res, r);
    r := SendInt32(conn, call.retset);
    res := Or(res, r);
    r := SendInt32(conn, |call.args|);
    res := Or(res, r);
  }

  predicate SupportedMsg(m: Message) {
    && KnownKind(m)
    && (m.Call? ==> forall i | 0 <= i < |m.args| :: Supported(m.args[i].data))
    && (m.Result? ==> SupportedRows(m.data))
  }

  predicate SupportedRows(data: seq<seq<Value>>) {
    forall i | 0 <= i < |data| :: SupportedRow(data[i])
  }

  predicate SupportedRow(row: seq<Value>) {
    forall j | 0 <= j < |row| :: Supported(row[j])
  }

  /** A message send also flushes: on code 0 nothing is left in the buffer. */
  twostate predicate Transmits(conn: PlcConn, r: Sent, m: Message)
    requires GoodMsg(m)
    reads conn, conn.input, conn.output, conn.input.data, conn.output.data, conn.rx, conn.tx
  {
    && AppendsOrRaises(conn, r, EncMsg(m), SupportedMsg(m))
    && (r == Ran(0) ==> conn.tx.sent == conn.Appended())
  }

  method SendCall(conn: PlcConn, call: Message) returns (r: Sent)
    requires conn.Valid() && call.Call? && GoodMsg(call)
    modifies conn.OutRepr()
    ensures Transmits(conn, r, call)
  {
    hide PlcConn.Valid, EncCString, EncType, Supported, GoodArgument, Le;
    ghost var a0 := conn.Appended();
    var res := SendCallSource(conn, call);
    var more := SendCallSignature(conn, call);
    res := Or(res, more);
    ConcatAssoc(a0, CallSource(call), CallSignature(call));
    ConcatAssoc(a0, CallSource(call) + CallSignature(call), EncArguments(call.args));
    assert CallSource(call) + CallSignature(call) + EncArguments(call.args) == EncMsg(call);
    more :- SendArguments(conn, call.args);
    res := Or(res, more);
    more := conn.Flush();
    return Ran(Or(res, more));
  }

  /** The column loop of send_result. */
  method SendColumns(conn: PlcConn, types: seq<PlcType>, names: seq<CString>) returns (res: int)
    requires conn.Valid() && |types| == |names|
    requires forall i | 0 <= i < |types| :: GoodType(types[i]) && ShortString(names[i])
    modifies conn.OutRepr()
    ensures Appends(conn, res, EncColumns(types, names))
  {
    hide PlcConn.Valid, EncType, EncCString, GoodType, ShortString;
    ghost var a0 := conn.Appended();
    res := 0;
    ghost var done: Bytes := [];
    for i := 0 to |types|
      invariant Appends(conn, res, done)
      invariant done + EncColumns(types[i..], names[i..]) == EncColumns(types, names)
    {
      ghost var col := EncType(types[i]) + EncCString(names[i]);
      assert types[i..][1..] == types[i + 1..];
      assert names[i..][1..] == names[i + 1..];
      ConcatAssoc(done, col, EncColumns(types[i + 1..], names[i + 1..]));
      ConcatAssoc(a0, done, EncType(types[i]));
      ConcatAssoc(a0 + done, EncType(types[i]), EncCString(names[i]));
      ConcatAssoc(a0, done, col);
      var r := SendType(conn, types[i]);
      res := Or(res, r);
      r := SendCString(conn, names[i]);
      res := Or(res, r);
      done := done + col;
    }
  }

  /** One row of send_result; like the rows, the columns go on after a failure. */
  method SendRow(conn: PlcConn, types: seq<PlcType>, row: seq<Value>) returns (r: Sent)
    requires conn.Valid() && |types| == |row|
    requires forall j | 0 <= j < |row| :: Matches(types[j], row[j])
    modifies conn.OutRepr()
    ensures AppendsOrRaises(conn, r, EncRaws(row), SupportedRow(row))
  {
    hide PlcConn.Valid, EncRaw, Matches, Supported;
    ghost var a0 := conn.Appended();
    var res := 0;
    ghost var done: Bytes := [];
    for j := 0 to |row|
      invariant Appends(conn, res, done)
      invariant done + EncRaws(row[j..]) == EncRaws(row)
      invariant res == 0 ==> forall k | 0 <= k < j :: Supported(row[k])
    {
      assert row[j..][1..] == row[j + 1..];
      ConcatAssoc(done, EncRaw(row[j]), EncRaws(row[j + 1..]));
      ConcatAssoc(a0, done, EncRaw(row[j]));
      var more :- SendRawObject(conn, types[j], row[j]);
      res := Or(res, more);
      done := done + EncRaw(row[j]);
    }
    return Ran(res);
  }

  method SendRows(conn: PlcConn, types: seq<PlcType>, data: seq<seq<Value>>) returns (r: Sent)
    requires conn.Valid() && forall i | 0 <= i < |data| :: |data[i]| == |types|
    requires forall i, j | 0 <= i < |data| && 0 <= j < |types| :: Matches(types[j], data[i][j])
    modifies conn.OutRepr()
    ensures AppendsOrRaises(conn, r, EncRows(data), SupportedRows(data))
  {
    hide PlcConn.Valid, EncRaws, Matches, SupportedRow;
    ghost var a0 := conn.Appended();
    var res := 0;
    ghost var done: Bytes := [];
    for i := 0 to |data|
      invariant Appends(conn, res, done)
      invariant done + EncRows(data[i..]) == EncRows(data)
      invariant res == 0 ==> forall k | 0 <= k < i :: SupportedRow(data[k])
    {
      assert data[i..][1..] == data[i + 1..];
      ConcatAssoc(done, EncRaws(data[i]), EncRows(data[i + 1..]));
      ConcatAssoc(a0, done, EncRaws(data[i]));
      var more :- SendRow(conn, types, data[i]);
      res := Or(res, more);
      done := done + EncRaws(data[i]);
    }
    return Ran(res);
  }

  method SendException(conn: PlcConn, err: Error) returns (res: int)
    requires conn.Valid() && ShortString(err.message) && ShortString(err.stacktrace)
    modifies conn.OutRepr()
    ensures Appends(conn, res, EncError(err))
    ensures res == 0 ==> conn.tx.sent == conn.Appended()
  {
    hide PlcConn.Valid, EncCString, ShortString;
    ghost var a0 := conn.Appended();
    ConcatAssoc(a0, [MT_EXCEPTION], EncCString(err.message));
    ConcatAssoc(a0, [MT_EXCEPTION] + EncCString(err.message), EncCString(err.stacktrace));
    res := SendChar(conn, MT_EXCEPTION);
    var r := SendCString(conn, err.message);
    res := Or(res, r);
    r := SendCString(conn, err.stacktrace);
    res := Or(res, r);
    r := conn.Flush();
    res := Or(res, r);
  }

  /** The start of a result: its counts and its columns. */
  function ResultHeader(m: Message): Bytes
    requires m.Result? && Tabular(m)
  {
    [MT_RESULT] + Le(m.rows, 4) + Le(m.cols, 4) + EncColumns(m.types, m.names)
  }

  method SendResultHeader(conn: PlcConn, m: Message) returns (res: int)
    requires conn.Valid() && m.Result? && GoodMsg(m)
    modifies conn.OutRepr()
    ensures Appends(conn, res, ResultHeader(m))
  {
    hide PlcConn.Valid, Le, EncColumns, GoodType, Matches, ShortString;
    ghost var a0 := conn.Appended();
    ghost var b2 := [MT_RESULT] + Le(m.rows, 4);
    ConcatAssoc(a0, [MT_RESULT], Le(m.rows, 4));
    ConcatAssoc(a0, b2, Le(m.cols, 4));
    ConcatAssoc(a0, b2 + Le(m.cols, 4), EncColumns(m.types, m.names));
    res := SendChar(conn, MT_RESULT);
    var r := SendInt32(conn, m.rows);
    res := Or(res, r);
    r := SendInt32(conn, m.cols);
    res := Or(res, r);
    r := SendColumns(conn, m.types, m.names);
    res := Or(res, r);
  }

  /** `m.exc` is what the exception callback returns, if one is set. */
  method SendResult(conn: PlcConn, m: Message) returns (r: Sent)
    requires conn.Valid() && m.Result? && GoodMsg(m)
    modifies conn.OutRepr()
    ensures Transmits(conn, r, m)
  {
    hide PlcConn.Valid, Le, EncColumns, EncRows, EncError, GoodType, Matches, ShortString, SupportedRows;
    ghost var a0 := conn.Appended();
    ghost var tail := if m.exc.None? then [NULL] else EncError(m.exc.value);
    ConcatAssoc(a0, ResultHeader(m), EncRows(m.data));
    ConcatAssoc(a0, ResultHeader(m) + EncRows(m.data), tail);
    var res := SendResultHeader(conn, m);
    var more :- SendRows(conn, m.types, m.data);
    res := Or(res, more);
    if m.exc.None? {
      more := SendChar(conn, NULL);
    } else {
      more := SendException(conn, m.exc.value);
    }
    res := Or(res, more);
    more := conn.Flush();
    return Ran(Or(res, more));
  }

  method SendPing(conn: PlcConn) returns (res: int)
    requires conn.Valid()
    modifies conn.OutRepr()
    ensures Transmits(conn, Ran(res), Ping)
  {
    hide PlcConn.Valid, EncCString;
    ConcatAssoc(conn.Appended(), [MT_PING], EncCString(Some(PING)));
    res := SendChar(conn, MT_PING);
    var r := SendCString(conn, Some(PING));
    res := Or(res, r);
    r := conn.Flush();
    res := Or(res, r);
  }

  method SendLog(conn: PlcConn, m: Message) returns (res: int)
    requires conn.Valid() && m.Log? && GoodMsg(m)
    modifies conn.OutRepr()
    ensures Transmits(conn, Ran(res), m)
  {
    hide PlcConn.Valid, EncCString, Le, ShortString;
    ghost var a0 := conn.Appended();
    ConcatAssoc(a0, [MT_LOG], Le(m.level, 4));
    ConcatAssoc(a0, [MT_LOG] + Le(m.level, 4), EncCString(m.message));
    res := SendChar(conn, MT_LOG);
    var r := SendInt32(conn, m.level);
    res := Or(res, r);
    r := SendCString(conn, m.message);
    res := Or(res, r);
    r := conn.Flush();
    res := Or(res, r);
  }

  method SendSql(conn: PlcConn, m: Message) returns (r: Sent)
    requires conn.Valid() && m.Sql? && GoodMsg(m)
    modifies conn.OutRepr()
    ensures Transmits(conn, r, m)
  {
    hide PlcConn.Valid, EncCString, Le, ShortString;
    if m.sqltype != SQL_TYPE_STATEMENT {
      return Raised;
    }
    ghost var a0 := conn.Appended();
    ConcatAssoc(a0, [MT_SQL], Le(m.sqltype, 4));
    ConcatAssoc(a0, [MT_SQL] + Le(m.sqltype, 4), EncCString(m.statement));
    var res := SendChar(conn, MT_SQL);
    var more := SendInt32(conn, m.sqltype);
    res := Or(res, more);
    more := SendCString(conn, m.statement);
    res := Or(res, more);
    more := conn.Flush();
    return Ran(Or(res, more));
  }

  /**
    pljvm_channel_send: the code is 0 exactly when no socket write failed and the
    message has no unsupported part, and then all of its bytes are out.
  */
  method Send(conn: PlcConn, m: Message) returns (r: Sent)
    requires conn.Valid() && GoodMsg(m)
    modifies conn.OutRepr()
    ensures Transmits(conn, r, m)
  {
    hide PlcConn.Valid;
    match m
    case Ping =>
      var res := SendPing(conn);
      return Ran(res);
    case Call(_, _, _, _, _, _, _) => r := SendCall(conn, m);
    case Result(_, _, _, _, _, _) => r := SendResult(conn, m);
    case Exception(err) =>
      var res := SendException(conn, err);
      return Ran(res);
    case Log(_, _) =>
      var res := SendLog(conn, m);
      return Ran(res);
    case Sql(_, _) => r := SendSql(conn, m);
    case Other(_) => return Raised;
  }
}
