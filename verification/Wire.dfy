/**
  The wire format: type trees, the values they describe, messages, the bytes
  each becomes, and what the backend's receive functions make of a byte stream.

  Encoding follows the send functions; decoding follows the receive functions,
  which are a separate program: array elements, for one, are written by the
  generic object sender but read by a switch of their own.
*/
module Wire {
  import opened Primitives

  const PLC_DATA_INT1 := 0
  const PLC_DATA_INT2 := 1
  const PLC_DATA_INT4 := 2
  const PLC_DATA_INT8 := 3
  const PLC_DATA_FLOAT4 := 4
  const PLC_DATA_FLOAT8 := 5
  const PLC_DATA_TEXT := 6
  const PLC_DATA_ARRAY := 7
  const PLC_DATA_UDT := 8
  const PLC_DATA_BYTEA := 9

  const MT_CALLREQ: Byte := 67    // 'C'
  const MT_EXCEPTION: Byte := 69  // 'E'
  const MT_LOG: Byte := 76        // 'L'
  const MT_PING: Byte := 80       // 'P'
  const MT_RESULT: Byte := 82     // 'R'
  const MT_SQL: Byte := 83        // 'S'
  const DATA: Byte := 68          // 'D'
  const NULL: Byte := 78          // 'N'
  const SQL_TYPE_STATEMENT := 1
  const PING: Bytes := [112, 105, 110, 103]

  /** A C string pointer: NULL, or the bytes before the terminator. */
  type CString = Option<Bytes>

  /** `nSubTypes` is a C short read off the wire: it can be negative, with no subtypes. */
  datatype PlcType = PlcType(tag: int, nSubTypes: Int16, typeName: CString, subTypes: seq<PlcType>)

  /**
    A rawdata object.  Scalars are the bytes of their memory; `Text` may hold a
    NULL pointer in an object that is not null; `Unsupported` stands for an object
    whose type is none of the ten.
  */
  datatype Value =
    | Null
    | Scalar(bytes: Bytes)
    | Text(text: CString)
    | Bytea(bytes: Bytes)
    | Array(ndims: Int32, dims: seq<Int32>, elems: seq<Value>)
    | Udt(fields: seq<Value>)
    | Unsupported

  datatype Argument = Argument(name: CString, typ: PlcType, data: Value)

  datatype Error = Error(message: CString, stacktrace: CString)

  datatype Message =
    | Ping
    | Call(name: CString, src: CString, objectid: UInt32, hasChanged: Int32,
           retType: PlcType, retset: Int32, args: seq<Argument>)
    | Result(rows: Int32, cols: Int32, types: seq<PlcType>, names: seq<CString>,
             data: seq<seq<Value>>, exc: Option<Error>)
    | Exception(err: Error)
    | Log(level: Int32, message: CString)
    | Sql(sqltype: Int32, statement: CString)
    | Other(msgtype: int)

  // ---------------------------------------------------------------------
  // What the senders may be handed
  // ---------------------------------------------------------------------

  predicate IsScalar(tag: int) { PLC_DATA_INT1 <= tag <= PLC_DATA_FLOAT8 }

  predicate IsNested(tag: int) { tag == PLC_DATA_ARRAY || tag == PLC_DATA_UDT }

  /** The types with a fixed entry length in a flat array. */
  predicate IsElement(tag: int) { IsScalar(tag) || tag == PLC_DATA_TEXT || tag == PLC_DATA_UDT || tag == PLC_DATA_BYTEA }

  function Width(tag: int): (w: nat)
    requires IsScalar(tag)
    ensures 1 <= w <= 8
  {
    if tag == PLC_DATA_INT1 then 1
    else if tag == PLC_DATA_INT2 then 2
    else if tag == PLC_DATA_INT4 || tag == PLC_DATA_FLOAT4 then 4
    else 8
  }

  /** The running product of the dimensions, as long as each step fits an int. */
  function SizeFrom(acc: int, dims: seq<Int32>): Option<int>
    decreases |dims|
  {
    if dims == [] then Some(acc)
    else if FitsInt(acc * dims[0]) then SizeFrom(acc * dims[0], dims[1..])
    else None
  }

  function SizeOf(ndims: int, dims: seq<Int32>): Option<int> {
    if ndims > 0 then SizeFrom(1, dims) else Some(0)
  }

  /**
    A C string: no zero before its terminator, and a length the receiver can add its
    own header to without overflow.
  */
  predicate ShortString(s: CString) { s.Some? ==> |s.value| <= INT_MAX - 4 && 0 !in s.value }

  /** What a buffer of bytes is as a C string. */
  function BeforeZero(b: Bytes): (r: Bytes)
    ensures r <= b && 0 !in r
    ensures 0 !in b ==> r == b
    ensures |r| < |b| ==> b[|r|] == 0
  {
    if b == [] || b[0] == 0 then [] else [b[0]] + BeforeZero(b[1..])
  }

  /** plc_get_type_length: the room an element takes in a flat array. */
  function EntryLength(tag: int): (w: nat)
    requires IsElement(tag)
    ensures 1 <= w <= 8
  {
    if IsScalar(tag) then Width(tag) else 8
  }

  predicate GoodType(t: PlcType) {
    && -128 <= t.tag < 128
    && ShortString(t.typeName)
    && (if IsNested(t.tag) then t.nSubTypes == |t.subTypes| else t.nSubTypes == 0 && t.subTypes == [])
    && (forall i | 0 <= i < |t.subTypes| :: GoodType(t.subTypes[i]))
  }

  /** The object has the memory layout its type calls for. */
  predicate Matches(t: PlcType, v: Value)
    decreases v
  {
    match v
    case Null => true
    case Scalar(b) => IsScalar(t.tag) && |b| == Width(t.tag)
    case Text(s) => t.tag == PLC_DATA_TEXT && ShortString(s)
    case Bytea(b) => t.tag == PLC_DATA_BYTEA && |b| <= INT_MAX - 4
    case Array(n, dims, elems) =>
      && t.tag == PLC_DATA_ARRAY && t.subTypes != []
      && |dims| == Max(n, 0) && SizeOf(n, dims).Some?
      && |elems| == Max(SizeOf(n, dims).value, 0)
      && (forall i | 0 <= i < |elems| :: Matches(t.subTypes[0], elems[i]))
    case Udt(fields) =>
      && t.tag == PLC_DATA_UDT && t.nSubTypes == |t.subTypes| == |fields|
      && (forall i | 0 <= i < |fields| :: Matches(t.subTypes[i], fields[i]))
    case Unsupported => !IsScalar(t.tag) && !IsNested(t.tag) && t.tag != PLC_DATA_TEXT && t.tag != PLC_DATA_BYTEA
  }

  /** The receiver computes the size of the element data as an int. */
  predicate DataFits(tag: int, size: int) { IsElement(tag) && size * EntryLength(tag) <= INT_MAX }

  /**
    No array with elements has arrays for elements or more data than an int can count,
    and nothing is unsupported.
  */
  predicate Flat(t: PlcType, v: Value)
    requires Matches(t, v)
    decreases v
  {
    match v
    case Array(_, _, elems) =>
      && (elems != [] ==> DataFits(t.subTypes[0].tag, |elems|))
      && (forall i | 0 <= i < |elems| :: Flat(t.subTypes[0], elems[i]))
    case Udt(fields) => forall i | 0 <= i < |fields| :: Flat(t.subTypes[i], fields[i])
    case Unsupported => false
    case _ => true
  }

  // ---------------------------------------------------------------------
  // Encoding
  // ---------------------------------------------------------------------

  function EncCString(s: CString): Bytes {
    match s
    case None => Le(-1, 4)
    case Some(b) => Le(|b|, 4) + b
  }

  function EncType(t: PlcType): (b: Bytes) {
    [t.tag % 256] + EncCString(t.typeName)
    + (if IsNested(t.tag) then Le(t.nSubTypes, 2) + EncTypes(t.subTypes) else [])
  }

  function EncTypes(ts: seq<PlcType>): Bytes {
    if ts == [] then [] else EncType(ts[0]) + EncTypes(ts[1..])
  }

  function EncInts(xs: seq<Int32>): Bytes {
    if xs == [] then [] else Le(xs[0], 4) + EncInts(xs[1..])
  }

  function EncRaw(v: Value): Bytes
    decreases v, 1
  {
    if v.Null? then [NULL] else [DATA] + EncBody(v)
  }

  function EncBody(v: Value): Bytes
    requires !v.Null?
    decreases v, 0
  {
    match v
    case Scalar(b) => b
    case Text(s) => EncCString(s)
    case Bytea(b) => Le(|b|, 4) + b
    case Array(n, dims, elems) => Le(n, 4) + EncInts(dims) + EncRaws(elems)
    case Udt(fields) => EncRaws(fields)
    case Unsupported => []
  }

  function EncRaws(vs: seq<Value>): Bytes
    decreases vs
  {
    if vs == [] then [] else EncRaw(vs[0]) + EncRaws(vs[1..])
  }

  // ---------------------------------------------------------------------
  // Decoding
  // ---------------------------------------------------------------------

  /**
    `Got` a value and the bytes after it; `Short` when the bytes run out; `Bad`
    when the bytes read so far are refused or leave C without a defined meaning
    (an error raised, a negative allocation, an int overflow).
  */
  datatype Parse<+T> = Got(value: T, rest: Bytes) | Short | Bad {
    predicate IsFailure() { !Got? }
    function PropagateFailure<U>(): Parse<U>
      requires IsFailure()
    {
      if Short? then Short else Bad
    }
    function Extract(): (T, Bytes)
      requires Got?
    {
      (value, rest)
    }
  }

  function DecBytes(n: nat, b: Bytes): (p: Parse<Bytes>)
    ensures p.Got? <==> n <= |b|
    ensures p.Got? ==> |p.value| == n && b == p.value + p.rest
  {
    if |b| < n then Short else Got(b[..n], b[n..])
  }

  function DecByte(b: Bytes): (p: Parse<Byte>)
    ensures p.Got? ==> b == [p.value] + p.rest
  {
    var (s, r) :- DecBytes(1, b);
    Got(s[0], r)
  }

  function DecInt16(b: Bytes): (p: Parse<Int16>)
    ensures p.Got? ==> |p.rest| < |b|
  {
    var (s, r) :- DecBytes(2, b);
    assert Pow256(2) == 0x1_0000;
    Got(Signed(s), r)
  }

  function DecInt32(b: Bytes): (p: Parse<Int32>)
    ensures p.Got? ==> |p.rest| < |b|
  {
    var (s, r) :- DecBytes(4, b);
    assert Pow256(2) == 0x1_0000;
    assert Pow256(4) == 0x1_0000_0000;
    Got(Signed(s), r)
  }

  function DecUInt32(b: Bytes): (p: Parse<UInt32>)
    ensures p.Got? ==> |p.rest| < |b|
  {
    var (s, r) :- DecBytes(4, b);
    assert Pow256(2) == 0x1_0000;
    assert Pow256(4) == 0x1_0000_0000;
    Got(FromLe(s), r)
  }

  /**
    The allocation of `cnt + 1` bytes is what refuses a malformed length.  All `cnt`
    bytes are consumed, and the C string in the buffer ends at the first zero.
  */
  function DecCString(b: Bytes): (p: Parse<CString>)
    ensures p.Got? ==> |p.rest| < |b|
  {
    var (cnt, r) :- DecInt32(b);
    if cnt == -1 then Got(None, r)
    else if cnt < -1 || cnt == INT_MAX then Bad
    else
      var (s, r') :- DecBytes(cnt, r);
      Got(Some(BeforeZero(s)), r')
  }

  /** The allocation of `len + 4` bytes, and the header stored in it, need 0 <= len. */
  function DecBytea(b: Bytes): (p: Parse<Bytes>)
    ensures p.Got? ==> |p.rest| < |b|
  {
    var (len, r) :- DecInt32(b);
    if len < 0 || len > INT_MAX - 4 then Bad else DecBytes(len, r)
  }

  /** A tag is a C char, hence signed. */
  function TagOf(b: Byte): int { if b < 128 then b else b - 256 }

  function DecType(b: Bytes): (p: Parse<PlcType>)
    ensures p.Got? ==> |p.rest| < |b|
    decreases |b|, 0
  {
    var (typ, r1) :- DecByte(b);
    var (name, r2) :- DecCString(r1);
    if IsNested(TagOf(typ)) then
      var (n, r3) :- DecInt16(r2);
      var (subs, r4) :- DecTypes(Max(n, 0), r3);
      Got(PlcType(TagOf(typ), n, name, subs), r4)
    else
      Got(PlcType(TagOf(typ), 0, name, []), r2)
  }

  function DecTypes(n: nat, b: Bytes): (p: Parse<seq<PlcType>>)
    ensures p.Got? ==> |p.value| == n && |p.rest| <= |b|
    decreases |b|, 1, n
  {
    if n == 0 then Got([], b)
    else
      var (t, r) :- DecType(b);
      var (ts, r') :- DecTypes(n - 1, r);
      Got([t] + ts, r')
  }

  function DecInts(n: nat, b: Bytes): (p: Parse<seq<Int32>>)
    ensures p.Got? ==> |p.value| == n && |p.rest| <= |b|
    decreases n
  {
    if n == 0 then Got([], b)
    else
      var (x, r) :- DecInt32(b);
      var (xs, r') :- DecInts(n - 1, r);
      Got([x] + xs, r')
  }

  /** receive_raw_object */
  function DecRaw(t: PlcType, b: Bytes): Parse<Value>
    decreases t, 4
  {
    var (isn, r) :- DecByte(b);
    if isn == NULL then Got(Null, r)
    else if IsScalar(t.tag) then
      var (s, r') :- DecBytes(Width(t.tag), r);
      Got(Scalar(s), r')
    else if t.tag == PLC_DATA_TEXT then
      var (s, r') :- DecCString(r);
      Got(Text(s), r')
    else if t.tag == PLC_DATA_BYTEA then
      var (s, r') :- DecBytea(r);
      Got(Bytea(s), r')
    else if t.tag == PLC_DATA_ARRAY then
      if t.subTypes == [] then Bad else DecArray(t.subTypes[0], r)
    else if t.tag == PLC_DATA_UDT then
      if t.nSubTypes < 0 then Bad
      else
        var (fs, r') :- DecFields(t.subTypes, r);
        Got(Udt(fs), r')
    else Bad
  }

  /** receive_array, given the element type */
  function DecArray(e: PlcType, b: Bytes): Parse<Value>
    decreases e, 3
  {
    var (ndims, r1) :- DecInt32(b);
    var (dims, r2) :- DecInts(Max(ndims, 0), r1);
    match SizeOf(ndims, dims)
    case None => Bad
    case Some(size) =>
      if size <= 0 then Got(Array(ndims, dims, []), r2)
      else if !DataFits(e.tag, size) then Bad
      else
        var (es, r3) :- DecElems(e, size, r2);
        Got(Array(ndims, dims, es), r3)
  }

  /** The element loop of receive_array. */
  function DecElems(e: PlcType, n: nat, b: Bytes): (p: Parse<seq<Value>>)
    requires IsElement(e.tag)
    ensures p.Got? ==> |p.value| == n
    decreases e, 2, n
  {
    if n == 0 then Got([], b)
    else
      var (x, r) :- DecElem(e, b);
      var (xs, r') :- DecElems(e, n - 1, r);
      Got([x] + xs, r')
  }

  /** The element switch of receive_array. */
  function DecElem(e: PlcType, b: Bytes): Parse<Value>
    requires IsElement(e.tag)
    decreases e, 1
  {
    var (isn, r) :- DecByte(b);
    if isn == NULL then Got(Null, r)
    else if IsScalar(e.tag) then
      var (s, r') :- DecBytes(Width(e.tag), r);
      Got(Scalar(s), r')
    else if e.tag == PLC_DATA_TEXT then
      var (s, r') :- DecCString(r);
      Got(Text(s), r')
    else if e.tag == PLC_DATA_BYTEA then
      var (s, r') :- DecBytea(r);
      Got(Bytea(s), r')
    else if e.nSubTypes < 0 then Bad
    else
      var (fs, r') :- DecFields(e.subTypes, r);
      Got(Udt(fs), r')
  }

  /** The field loop of receive_udt. */
  function DecFields(ts: seq<PlcType>, b: Bytes): (p: Parse<seq<Value>>)
    ensures p.Got? ==> |p.value| == |ts|
    decreases ts, 0
  {
    if ts == [] then Got([], b)
    else
      var (x, r) :- DecRaw(ts[0], b);
      var (xs, r') :- DecFields(ts[1..], r);
      Got([x] + xs, r')
  }

  // ---------------------------------------------------------------------
  // Messages
  // ---------------------------------------------------------------------

  function EncArgument(a: Argument): Bytes {
    EncCString(a.name) + EncType(a.typ) + EncRaw(a.data)
  }

  function EncArguments(args: seq<Argument>): Bytes {
    if args == [] then [] else EncArgument(args[0]) + EncArguments(args[1..])
  }

  function EncColumns(types: seq<PlcType>, names: seq<CString>): Bytes
    requires |types| == |names|
  {
    if types == [] then []
    else EncType(types[0]) + EncCString(names[0]) + EncColumns(types[1..], names[1..])
  }

  function EncRows(data: seq<seq<Value>>): Bytes {
    if data == [] then [] else EncRaws(data[0]) + EncRows(data[1..])
  }

  function EncError(e: Error): Bytes {
    [MT_EXCEPTION] + EncCString(e.message) + EncCString(e.stacktrace)
  }

  /** The tables of a result have the extents its counts announce. */
  predicate Tabular(m: Message)
    requires m.Result?
  {
    && |m.types| == |m.names| == Max(m.cols, 0)
    && |m.data| == Max(m.rows, 0)
    && (forall i | 0 <= i < |m.data| :: |m.data[i]| == |m.types|)
  }

  function EncMsg(m: Message): Bytes
    requires m.Result? ==> Tabular(m)
  {
    match m
    case Ping => [MT_PING] + EncCString(Some(PING))
    case Call(name, src, oid, changed, ret, retset, args) =>
      [MT_CALLREQ] + EncCString(name) + EncCString(src) + Le(oid, 4) + Le(changed, 4)
      + EncType(ret) + Le(retset, 4) + Le(|args|, 4) + EncArguments(args)
    case Result(rows, cols, types, names, data, exc) =>
      [MT_RESULT] + Le(rows, 4) + Le(cols, 4) + EncColumns(types, names) + EncRows(data)
      + (match exc case None => [NULL] case Some(e) => EncError(e))
    case Exception(e) => EncError(e)
    case Log(level, message) => [MT_LOG] + Le(level, 4) + EncCString(message)
    case Sql(sqltype, statement) =>
      if sqltype == SQL_TYPE_STATEMENT then [MT_SQL] + Le(sqltype, 4) + EncCString(statement) else []
    case Other(_) => []
  }

  predicate GoodArgument(a: Argument) {
    ShortString(a.name) && GoodType(a.typ) && Matches(a.typ, a.data)
  }

  predicate FlatArgument(a: Argument)
    requires GoodArgument(a)
  {
    Flat(a.typ, a.data)
  }

  /** The memory a sender may be handed. */
  predicate GoodMsg(m: Message) {
    match m
    case Ping => true
    case Call(name, src, _, _, ret, _, args) =>
      && ShortString(name) && ShortString(src) && GoodType(ret) && |args| <= INT_MAX
      && (forall i | 0 <= i < |args| :: GoodArgument(args[i]))
    case Result(rows, cols, types, names, data, exc) =>
      && Tabular(m)
      && (forall i | 0 <= i < |types| :: GoodType(types[i]) && ShortString(names[i]))
      && (forall i, j | 0 <= i < |data| && 0 <= j < |types| :: Matches(types[j], data[i][j]))
      && (exc.Some? ==> ShortString(exc.value.message) && ShortString(exc.value.stacktrace))
    case Exception(e) => ShortString(e.message) && ShortString(e.stacktrace)
    case Log(_, message) => ShortString(message)
    case Sql(_, statement) => ShortString(statement)
    case Other(_) => true
  }

  function DecArgument(b: Bytes): Parse<Argument> {
    var (name, r1) :- DecCString(b);
    var (typ, r2) :- DecType(r1);
    var (data, r3) :- DecRaw(typ, r2);
    Got(Argument(name, typ, data), r3)
  }

  function DecArguments(n: nat, b: Bytes): (p: Parse<seq<Argument>>)
    ensures p.Got? ==> |p.value| == n
    decreases n
  {
    if n == 0 then Got([], b)
    else
      var (a, r) :- DecArgument(b);
      var (as_, r') :- DecArguments(n - 1, r);
      Got([a] + as_, r')
  }

  function DecColumn(b: Bytes): Parse<(PlcType, CString)> {
    var (t, r1) :- DecType(b);
    var (s, r2) :- DecCString(r1);
    Got((t, s), r2)
  }

  function DecColumns(n: nat, b: Bytes): (p: Parse<(seq<PlcType>, seq<CString>)>)
    ensures p.Got? ==> |p.value.0| == |p.value.1| == n
    decreases n
  {
    if n == 0 then Got(([], []), b)
    else
      var (col, r) :- DecColumn(b);
      var (cols, r') :- DecColumns(n - 1, r);
      Got(([col.0] + cols.0, [col.1] + cols.1), r')
  }

  function DecRows(n: nat, types: seq<PlcType>, b: Bytes): (p: Parse<seq<seq<Value>>>)
    ensures p.Got? ==> |p.value| == n
    ensures p.Got? ==> forall i | 0 <= i < n :: |p.value[i]| == |types|
    decreases n
  {
    if n == 0 then Got([], b)
    else
      var (row, r) :- DecFields(types, b);
      var (rows, r') :- DecRows(n - 1, types, r);
      Got([row] + rows, r')
  }

  function DecError(b: Bytes): Parse<Error> {
    var (message, r1) :- DecCString(b);
    var (stacktrace, r2) :- DecCString(r1);
    Got(Error(message, stacktrace), r2)
  }

  function DecPing(b: Bytes): Parse<Message> {
    var (s, r) :- DecCString(b);
    if s.Some? && PING <= s.value then Got(Ping, r) else Bad
  }

  function DecCall(b: Bytes): Parse<Message> {
    var (name, r1) :- DecCString(b);
    var (src, r2) :- DecCString(r1);
    var (oid, r3) :- DecUInt32(r2);
    var (changed, r4) :- DecInt32(r3);
    var (ret, r5) :- DecType(r4);
    var (retset, r6) :- DecInt32(r5);
    var (nargs, r7) :- DecInt32(r6);
    if nargs < 0 then Bad
    else
      var (args, r8) :- DecArguments(nargs, r7);
      Got(Call(name, src, oid, changed, ret, retset, args), r8)
  }

  function DecResult(b: Bytes): (p: Parse<Message>)
    ensures p.Got? && p.value.Result? ==> Tabular(p.value)
  {
    var (rows, r1) :- DecInt32(b);
    var (cols, r2) :- DecInt32(r1);
    if cols < 0 then Bad
    else
      var (columns, r3) :- DecColumns(cols, r2);
      var (data, r4) :- DecRows(Max(rows, 0), columns.0, r3);
      var (exc, r5) :- DecByte(r4);
      if exc == MT_EXCEPTION then
        var (e, r6) :- DecError(r5);
        Got(Exception(e), r6)
      else
        Got(Result(rows, cols, columns.0, columns.1, data, None), r5)
  }

  function DecLog(b: Bytes): Parse<Message> {
    var (level, r1) :- DecInt32(b);
    var (message, r2) :- DecCString(r1);
    Got(Log(level, message), r2)
  }

  function DecSql(b: Bytes): Parse<Message> {
    var (sqltype, r1) :- DecInt32(b);
    if sqltype != SQL_TYPE_STATEMENT then Bad
    else
      var (statement, r2) :- DecCString(r1);
      Got(Sql(sqltype, statement), r2)
  }

  function DecMsg(b: Bytes): Parse<Message> {
    var (c, r) :- DecByte(b);
    if c == MT_PING then DecPing(r)
    else if c == MT_CALLREQ then DecCall(r)
    else if c == MT_RESULT then DecResult(r)
    else if c == MT_EXCEPTION then
      var (e, r') :- DecError(r);
      Got(Exception(e), r')
    else if c == MT_LOG then DecLog(r)
    else if c == MT_SQL then DecSql(r)
    else Bad
  }

  /** What a message is on arrival: a result whose callback fired is its exception. */
  function Delivered(m: Message): Message {
    if m.Result? && m.exc.Some? then Exception(m.exc.value) else m
  }

  /** The message kinds the dispatch of the sender knows. */
  predicate KnownKind(m: Message) {
    !m.Other? && (m.Sql? ==> m.sqltype == SQL_TYPE_STATEMENT)
  }

  /** The messages that arrive: no nested arrays, no unsupported objects, no negative column count. */
  predicate Deliverable(m: Message)
    requires GoodMsg(m)
  {
    match m
    case Call(_, _, _, _, _, _, args) => forall i | 0 <= i < |args| :: FlatArgument(args[i])
    case Result(_, cols, types, _, data, _) =>
      && cols >= 0
      && (forall i, j | 0 <= i < |data| && 0 <= j < |types| :: Flat(types[j], data[i][j]))
    case _ => KnownKind(m)
  }

  function EncMsgs(ms: seq<Message>): Bytes
    requires forall i | 0 <= i < |ms| :: GoodMsg(ms[i])
  {
    if ms == [] then []
    else
      assert GoodMsg(ms[0]);
      EncMsg(ms[0]) + EncMsgs(ms[1..])
  }

  /** `n` receives in a row. */
  function DecMsgs(n: nat, b: Bytes): (p: Parse<seq<Message>>)
    ensures p.Got? ==> |p.value| == n
  {
    if n == 0 then Got([], b)
    else
      var (m, r) :- DecMsg(b);
      var (ms, r') :- DecMsgs(n - 1, r);
      Got([m] + ms, r')
  }
}
