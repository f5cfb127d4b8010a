/** Receiving what was sent: the decoder inverts the encoder, whatever follows. */
module RoundTrip {
  import opened Primitives
  import opened Wire

  lemma BytesBack(x: Bytes, s: Bytes)
    ensures DecBytes(|x|, x + s) == Got(x, s)
  {
    assert (x + s)[..|x|] == x && (x + s)[|x|..] == s;
  }

  lemma ByteBack(c: Byte, s: Bytes)
    ensures DecByte([c] + s) == Got(c, s)
  {
    BytesBack([c], s);
  }

  lemma Powers()
    ensures Pow256(1) == 0x100 && Pow256(2) == 0x1_0000 && Pow256(4) == 0x1_0000_0000
  {
    assert Pow256(2) == 0x1_0000;
  }

  lemma Int16Back(x: Int16, s: Bytes)
    ensures DecInt16(Le(x, 2) + s) == Got(x, s)
  {
    Powers();
    BytesBack(Le(x, 2), s);
    SignedInvertsLe(x, 2);
  }

  lemma Int32Back(x: Int32, s: Bytes)
    ensures DecInt32(Le(x, 4) + s) == Got(x, s)
  {
    Powers();
    BytesBack(Le(x, 4), s);
    SignedInvertsLe(x, 4);
  }

  lemma UInt32Back(x: UInt32, s: Bytes)
    ensures DecUInt32(Le(x, 4) + s) == Got(x, s)
  {
    Powers();
    BytesBack(Le(x, 4), s);
    FromLeInvertsLe(x, 4);
  }

  lemma CStringBack(x: CString, s: Bytes)
    requires ShortString(x)
    ensures DecCString(EncCString(x) + s) == Got(x, s)
  {
    hide Le, DecInt32;
    match x
    case None => Int32Back(-1, s);
    case Some(b) =>
      assert EncCString(x) + s == Le(|b|, 4) + (b + s);
      Int32Back(|b|, b + s);
      BytesBack(b, s);
  }

  lemma ByteaBack(b: Bytes, s: Bytes)
    requires |b| <= INT_MAX - 4
    ensures DecBytea(Le(|b|, 4) + b + s) == Got(b, s)
  {
    hide Le, DecInt32;
    assert Le(|b|, 4) + b + s == Le(|b|, 4) + (b + s);
    Int32Back(|b|, b + s);
    BytesBack(b, s);
  }

  lemma {:induction false} TypeBack(t: PlcType, s: Bytes)
    requires GoodType(t)
    ensures DecType(EncType(t) + s) == Got(t, s)
    decreases t, 1
  {
    hide Le, DecByte, DecInt16, DecCString, EncCString;
    var tail := if IsNested(t.tag) then Le(t.nSubTypes, 2) + EncTypes(t.subTypes) else [];
    assert EncType(t) + s == [t.tag % 256] + (EncCString(t.typeName) + (tail + s));
    ByteBack(t.tag % 256, EncCString(t.typeName) + (tail + s));
    CStringBack(t.typeName, tail + s);
    if IsNested(t.tag) {
      assert tail + s == Le(t.nSubTypes, 2) + (EncTypes(t.subTypes) + s);
      Int16Back(t.nSubTypes, EncTypes(t.subTypes) + s);
      TypesBack(t.subTypes, s);
    } else {
      assert tail + s == s;
    }
  }

  lemma {:induction false} TypesBack(ts: seq<PlcType>, s: Bytes)
    requires forall i | 0 <= i < |ts| :: GoodType(ts[i])
    ensures DecTypes(|ts|, EncTypes(ts) + s) == Got(ts, s)
    decreases ts, 0
  {
    if ts == [] {
      assert EncTypes(ts) + s == s;
    } else {
      assert EncTypes(ts) + s == EncType(ts[0]) + (EncTypes(ts[1..]) + s);
      TypeBack(ts[0], EncTypes(ts[1..]) + s);
      TypesBack(ts[1..], s);
      HeadTail(ts);
    }
  }

  lemma {:induction false} IntsBack(xs: seq<Int32>, s: Bytes)
    ensures DecInts(|xs|, EncInts(xs) + s) == Got(xs, s)
    decreases |xs|
  {
    hide Le, DecInt32;
    if xs == [] {
      assert EncInts(xs) + s == s;
    } else {
      assert EncInts(xs) + s == Le(xs[0], 4) + (EncInts(xs[1..]) + s);
      Int32Back(xs[0], EncInts(xs[1..]) + s);
      IntsBack(xs[1..], s);
      HeadTail(xs);
    }
  }

  /** What a value that matches its type becomes. */
  function Back<T>(ok: bool, x: T, s: Bytes): Parse<T> { if ok then Got(x, s) else Bad }

  /**
    The two receivers of an object, the general one and the array's element
    switch, agree wherever the element switch can be reached.
  */
  lemma ElementSwitchAgrees(e: PlcType, b: Bytes)
    requires IsElement(e.tag)
    ensures DecElem(e, b) == DecRaw(e, b)
  {
  }

  /**
    The object codec: a sent object comes back exactly, followed by exactly the
    bytes that followed it, if and only if it is flat; otherwise it is refused.
  */
  lemma {:induction false} RawBack(t: PlcType, v: Value, s: Bytes)
    requires Matches(t, v)
    ensures DecRaw(t, EncRaw(v) + s) == Back(Flat(t, v), v, s)
    decreases v, 1
  {
    hide Le, DecByte, DecCString, EncCString, DecBytea, DecArray, DecFields;
    if v.Null? {
      ByteBack(NULL, s);
    } else {
      assert EncRaw(v) + s == [DATA] + (EncBody(v) + s);
      ByteBack(DATA, EncBody(v) + s);
      match v
      case Scalar(b) => BytesBack(b, s);
      case Text(x) => CStringBack(x, s);
      case Bytea(b) => ByteaBack(b, s);
      case Array(_, _, _) => ArrayBack(t, v, s);
      case Udt(fields) => FieldsBack(t.subTypes, fields, s);
      case Unsupported =>
    }
  }

  lemma {:induction false} ArrayBack(t: PlcType, v: Value, s: Bytes)
    requires Matches(t, v) && v.Array?
    ensures DecArray(t.subTypes[0], EncBody(v) + s) == Back(Flat(t, v), v, s)
    decreases v, 0
  {
    hide Le, DecInt32, SizeOf, EncRaw;
    var n, dims, elems, e := v.ndims, v.dims, v.elems, t.subTypes[0];
    assert EncBody(v) + s == Le(n, 4) + (EncInts(dims) + (EncRaws(elems) + s));
    Int32Back(n, EncInts(dims) + (EncRaws(elems) + s));
    IntsBack(dims, EncRaws(elems) + s);
    if elems == [] {
      assert EncRaws(elems) + s == s;
    } else if DataFits(e.tag, |elems|) {
      ElemsBack(e, elems, s);
    }
  }

  lemma {:induction false} ElemsBack(e: PlcType, vs: seq<Value>, s: Bytes)
    requires IsElement(e.tag)
    requires forall i | 0 <= i < |vs| :: Matches(e, vs[i])
    ensures DecElems(e, |vs|, EncRaws(vs) + s) == Back(forall i | 0 <= i < |vs| :: Flat(e, vs[i]), vs, s)
    decreases vs, 0
  {
    hide EncRaw, DecRaw, DecElem, Matches, Flat;
    if vs == [] {
      assert EncRaws(vs) + s == s;
    } else {
      var s' := EncRaws(vs[1..]) + s;
      assert EncRaws(vs) + s == EncRaw(vs[0]) + s';
      ElementSwitchAgrees(e, EncRaw(vs[0]) + s');
      RawBack(e, vs[0], s');
      ElemsBack(e, vs[1..], s);
      HeadTail(vs);
    }
  }

  lemma {:induction false} FieldsBack(ts: seq<PlcType>, vs: seq<Value>, s: Bytes)
    requires |ts| == |vs|
    requires forall i | 0 <= i < |vs| :: Matches(ts[i], vs[i])
    ensures DecFields(ts, EncRaws(vs) + s) == Back(forall i | 0 <= i < |vs| :: Flat(ts[i], vs[i]), vs, s)
    decreases vs, 0
  {
    hide EncRaw, DecRaw, DecElem, Matches, Flat;
    if vs == [] {
      assert EncRaws(vs) + s == s;
    } else {
      var s' := EncRaws(vs[1..]) + s;
      assert EncRaws(vs) + s == EncRaw(vs[0]) + s';
      RawBack(ts[0], vs[0], s');
      FieldsBack(ts[1..], vs[1..], s);
      HeadTail(vs);
    }
  }

  lemma ArgumentBack(a: Argument, s: Bytes)
    requires GoodArgument(a)
    ensures DecArgument(EncArgument(a) + s) == Back(FlatArgument(a), a, s)
  {
    hide EncCString, EncType, EncRaw, DecCString, DecType, DecRaw;
    var s1 := EncRaw(a.data) + s;
    assert EncArgument(a) + s == EncCString(a.name) + (EncType(a.typ) + s1);
    CStringBack(a.name, EncType(a.typ) + s1);
    TypeBack(a.typ, s1);
    RawBack(a.typ, a.data, s);
  }

  lemma {:induction false} ArgumentsBack(args: seq<Argument>, s: Bytes)
    requires forall i | 0 <= i < |args| :: GoodArgument(args[i])
    ensures DecArguments(|args|, EncArguments(args) + s)
         == Back(forall i | 0 <= i < |args| :: FlatArgument(args[i]), args, s)
  {
    hide EncArgument, DecArgument, FlatArgument;
    if args == [] {
      assert EncArguments(args) + s == s;
    } else {
      var s' := EncArguments(args[1..]) + s;
      assert EncArguments(args) + s == EncArgument(args[0]) + s';
      ArgumentBack(args[0], s');
      ArgumentsBack(args[1..], s);
      HeadTail(args);
    }
  }

  lemma ColumnBack(t: PlcType, name: CString, s: Bytes)
    requires GoodType(t) && ShortString(name)
    ensures DecColumn(EncType(t) + EncCString(name) + s) == Got((t, name), s)
  {
    hide EncType, EncCString, DecType, DecCString;
    assert EncType(t) + EncCString(name) + s == EncType(t) + (EncCString(name) + s);
    TypeBack(t, EncCString(name) + s);
    CStringBack(name, s);
  }

  lemma {:induction false} ColumnsBack(types: seq<PlcType>, names: seq<CString>, s: Bytes)
    requires |types| == |names|
    requires forall i | 0 <= i < |types| :: GoodType(types[i]) && ShortString(names[i])
    ensures DecColumns(|types|, EncColumns(types, names) + s) == Got((types, names), s)
  {
    hide EncType, EncCString, DecColumn, GoodType, ShortString;
    if types == [] {
      assert EncColumns(types, names) + s == s;
    } else {
      var s' := EncColumns(types[1..], names[1..]) + s;
      assert EncColumns(types, names) + s == EncType(types[0]) + EncCString(names[0]) + s';
      ColumnBack(types[0], names[0], s');
      ColumnsBack(types[1..], names[1..], s);
      HeadTail(types);
      HeadTail(names);
    }
  }

  lemma HeadTail<T>(s: seq<T>)
    requires s != []
    ensures [s[0]] + s[1..] == s
  {
  }

  lemma {:induction false} RowsBack(data: seq<seq<Value>>, types: seq<PlcType>, s: Bytes)
    requires forall i | 0 <= i < |data| :: |data[i]| == |types|
    requires forall i, j | 0 <= i < |data| && 0 <= j < |types| :: Matches(types[j], data[i][j])
    ensures DecRows(|data|, types, EncRows(data) + s)
         == Back(forall i, j | 0 <= i < |data| && 0 <= j < |types| :: Flat(types[j], data[i][j]), data, s)
  {
    hide EncRaws, DecFields, Flat, Matches;
    if data == [] {
      assert EncRows(data) + s == s;
    } else {
      var s' := EncRows(data[1..]) + s;
      assert EncRows(data) + s == EncRaws(data[0]) + s';
      FieldsBack(types, data[0], s');
      RowsBack(data[1..], types, s);
      HeadTail(data);
      assert forall i, j | 0 <= i < |data[1..]| && 0 <= j < |types| :: data[1..][i][j] == data[i + 1][j];
    }
  }

  lemma ErrorBack(e: Error, s: Bytes)
    requires ShortString(e.message) && ShortString(e.stacktrace)
    ensures EncError(e) + s == [MT_EXCEPTION] + (EncError(e)[1..] + s)
    ensures DecError(EncError(e)[1..] + s) == Got(e, s)
  {
    hide EncCString, DecCString;
    assert EncError(e)[1..] + s == EncCString(e.message) + (EncCString(e.stacktrace) + s);
    CStringBack(e.message, EncCString(e.stacktrace) + s);
    CStringBack(e.stacktrace, s);
  }

  lemma CallBack(m: Message, s: Bytes)
    requires m.Call? && GoodMsg(m)
    ensures DecMsg(EncMsg(m) + s) == Back(Deliverable(m), m, s)
  {
    hide Le, EncCString, EncType, EncArguments, DecByte, DecCString, DecUInt32, DecInt32, DecType, DecArguments;
    var s7 := EncArguments(m.args) + s;
    var s6 := Le(|m.args|, 4) + s7;
    var s5 := Le(m.retset, 4) + s6;
    var s4 := EncType(m.retType) + s5;
    var s3 := Le(m.hasChanged, 4) + s4;
    var s2 := Le(m.objectid, 4) + s3;
    var s1 := EncCString(m.src) + s2;
    var s0 := EncCString(m.name) + s1;
    assert EncMsg(m) + s == [MT_CALLREQ] + s0;
    ByteBack(MT_CALLREQ, s0);
    CStringBack(m.name, s1);
    CStringBack(m.src, s2);
    UInt32Back(m.objectid, s3);
    Int32Back(m.hasChanged, s4);
    TypeBack(m.retType, s5);
    Int32Back(m.retset, s6);
    Int32Back(|m.args|, s7);
    ArgumentsBack(m.args, s);
  }

  lemma ResultBack(m: Message, s: Bytes)
    requires m.Result? && GoodMsg(m)
    ensures DecMsg(EncMsg(m) + s) == Back(Deliverable(m), Delivered(m), s)
  {
    hide Le, EncColumns, EncRows, EncError, DecByte, DecInt32, DecColumns, DecRows, DecError, Flat, Matches, GoodType;
    var tail := if m.exc.Some? then EncError(m.exc.value) else [NULL];
    var s3 := EncRows(m.data) + (tail + s);
    var s2 := EncColumns(m.types, m.names) + s3;
    var s1 := Le(m.cols, 4) + s2;
    var s0 := Le(m.rows, 4) + s1;
    assert EncMsg(m) + s == [MT_RESULT] + s0;
    ByteBack(MT_RESULT, s0);
    Int32Back(m.rows, s1);
    Int32Back(m.cols, s2);
    if m.cols >= 0 {
      ColumnsBack(m.types, m.names, s3);
      RowsBack(m.data, m.types, tail + s);
      match m.exc
      case None => ByteBack(NULL, s);
      case Some(e) =>
        ErrorBack(e, s);
        ByteBack(MT_EXCEPTION, EncError(e)[1..] + s);
    }
  }

  /**
    The message codec: a sent message arrives as itself, or as the exception its
    callback raised, exactly when it is deliverable, and is refused otherwise.
  */
  lemma MessageBack(m: Message, s: Bytes)
    requires GoodMsg(m) && KnownKind(m)
    ensures DecMsg(EncMsg(m) + s) == Back(Deliverable(m), Delivered(m), s)
  {
    hide EncMsg, DecMsg;
    match m
    case Call(_, _, _, _, _, _, _) => CallBack(m, s);
    case Result(_, _, _, _, _, _) => ResultBack(m, s);
    case Ping => PingBack(s);
    case Exception(e) => ExceptionBack(e, s);
    case Log(_, _) => LogBack(m, s);
    case Sql(_, _) => SqlBack(m, s);
  }

  lemma LogBack(m: Message, s: Bytes)
    requires m.Log? && ShortString(m.message)
    ensures DecMsg(EncMsg(m) + s) == Got(m, s)
  {
    hide Le, EncCString, DecByte, DecInt32, DecCString, DecCall, DecResult;
    IntThenStringBack(MT_LOG, m.level, m.message, s);
  }

  lemma SqlBack(m: Message, s: Bytes)
    requires m.Sql? && m.sqltype == SQL_TYPE_STATEMENT && ShortString(m.statement)
    ensures DecMsg(EncMsg(m) + s) == Got(m, s)
  {
    hide Le, EncCString, DecByte, DecInt32, DecCString, DecCall, DecResult;
    IntThenStringBack(MT_SQL, m.sqltype, m.statement, s);
  }

  lemma PingBack(s: Bytes)
    ensures DecMsg(EncMsg(Ping) + s) == Got(Ping, s)
  {
    hide EncCString, DecByte, DecCString, DecCall, DecResult;
    assert EncMsg(Ping) + s == [MT_PING] + (EncCString(Some(PING)) + s);
    ByteBack(MT_PING, EncCString(Some(PING)) + s);
    CStringBack(Some(PING), s);
  }

  lemma ExceptionBack(e: Error, s: Bytes)
    requires ShortString(e.message) && ShortString(e.stacktrace)
    ensures DecMsg(EncMsg(Exception(e)) + s) == Got(Exception(e), s)
  {
    hide EncError, DecByte, DecError, DecCall, DecResult;
    ErrorBack(e, s);
    ByteBack(MT_EXCEPTION, EncError(e)[1..] + s);
  }

  lemma IntThenStringBack(c: Byte, x: Int32, str: CString, s: Bytes)
    requires ShortString(str)
    ensures var r := Le(x, 4) + (EncCString(str) + s);
      && [c] + Le(x, 4) + EncCString(str) + s == [c] + r
      && DecByte([c] + r) == Got(c, r)
      && DecInt32(r) == Got(x, EncCString(str) + s)
      && DecCString(EncCString(str) + s) == Got(str, s)
  {
    hide Le, EncCString, DecByte, DecInt32, DecCString;
    var r := Le(x, 4) + (EncCString(str) + s);
    assert [c] + Le(x, 4) + EncCString(str) + s == [c] + r;
    ByteBack(c, r);
    Int32Back(x, EncCString(str) + s);
    CStringBack(str, s);
  }

  function AllDelivered(ms: seq<Message>): seq<Message> { seq(|ms|, i requires 0 <= i < |ms| => Delivered(ms[i])) }

  /** A whole conversation: the same messages, in order, and no byte over. */
  lemma {:induction false} MessagesBack(ms: seq<Message>, s: Bytes)
    requires forall i | 0 <= i < |ms| :: GoodMsg(ms[i]) && Deliverable(ms[i])
    ensures DecMsgs(|ms|, EncMsgs(ms) + s) == Got(AllDelivered(ms), s)
  {
    hide EncMsg, DecMsg, Delivered;
    if ms == [] {
      assert EncMsgs(ms) + s == s;
    } else {
      var s' := EncMsgs(ms[1..]) + s;
      assert EncMsgs(ms) + s == EncMsg(ms[0]) + s';
      MessageBack(ms[0], s');
      MessagesBack(ms[1..], s);
      assert AllDelivered(ms) == [Delivered(ms[0])] + AllDelivered(ms[1..]);
    }
  }
}
