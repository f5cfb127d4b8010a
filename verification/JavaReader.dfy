/**
  The JVM side's request reader as it runs: a byte buffer with a reader index, the
  readers that move it, and the decoder with its state.  Each is proved to do what
  its function in JavaRequests says.
*/
module JavaReader {
  import opened Primitives
  import opened Wire
  import opened Shapes
  import opened JavaRequests

  /** A method's end: a value, a null, or an exception. */
  datatype Try<+T> = Ok(value: T) | NullRef | Threw {
    predicate IsFailure() { !Ok? }
    function PropagateFailure<U>(): Try<U>
      requires IsFailure()
    {
      if NullRef? then NullRef else Threw
    }
    function Extract(): T
      requires Ok?
    {
      value
    }
  }

  /** A method ended as the function says, with the reader index where it says. */
  predicate Gives<T(==)>(p: Read<T>, r: Try<T>, left: Bytes) {
    match p
    case Done(x, rest) => r == Ok(x) && left == rest
    case Missing(rest) => r == NullRef && left == rest
    case Thrown => r == Threw
  }

  /** As Gives, when the caller dereferences the result: a null is an exception. */
  predicate GivesOrThrows<T(==)>(p: Read<T>, r: Try<T>, left: Bytes) {
    if p.Done? then r == Ok(p.value) && left == p.rest else !r.Ok?
  }

  function Put<T>(xs: seq<T>, p: Read<seq<T>>): Read<seq<T>> {
    if p.Done? then Done(xs + p.value, p.rest) else p
  }

  /** A loop has read `xs` and has `more` to read. */
  ghost predicate Progress<T(!new)>(all: Read<seq<T>>, xs: seq<T>, more: Read<seq<T>>) {
    all == Put(xs, more)
  }

  lemma ProgressStarts<T(!new)>(all: Read<seq<T>>)
    ensures Progress(all, [], all)
  {
    if all.Done? {
      assert [] + all.value == all.value;
    }
  }

  lemma ProgressSteps<T(!new)>(all: Read<seq<T>>, xs: seq<T>, more: Read<seq<T>>, x: T, more': Read<seq<T>>)
    requires Progress(all, xs, more) && more == Put([x], more')
    ensures Progress(all, xs + [x], more')
  {
    if more'.Done? {
      assert xs + [x] + more'.value == xs + ([x] + more'.value);
    }
  }

  lemma ProgressEnds<T(!new)>(all: Read<seq<T>>, xs: seq<T>, rest: Bytes)
    requires Progress(all, xs, Done([], rest))
    ensures all == Done(xs, rest)
  {
    assert xs + [] == xs;
  }

  class ByteBuf {
    var bytes: Bytes
    var readerIndex: nat

    ghost predicate Valid()
      reads this
    {
      readerIndex <= |bytes|
    }

    ghost function Left(): Bytes
      requires Valid()
      reads this
    {
      bytes[readerIndex..]
    }

    constructor (bytes: Bytes)
      ensures Valid() && Left() == bytes && this.bytes == bytes
    {
      this.bytes, readerIndex := bytes, 0;
    }

    method IsReadable(n: int) returns (ok: bool)
      requires Valid()
      ensures ok == (|Left()| >= n)
    {
      ok := |bytes| - readerIndex >= n;
    }

    method ReadByte() returns (r: Try<Byte>)
      requires Valid()
      modifies `readerIndex
      ensures Valid()
      ensures old(Left()) == [] ==> r == Threw
      ensures old(Left()) != [] ==> r == Ok(old(Left())[0]) && Left() == old(Left())[1..]
    {
      if readerIndex == |bytes| {
        return Threw;
      }
      r := Ok(bytes[readerIndex]);
      readerIndex := readerIndex + 1;
    }

    method ReadBytes(n: int) returns (r: Try<Bytes>)
      requires Valid()
      modifies `readerIndex
      ensures Valid()
      ensures !(0 <= n <= |old(Left())|) ==> r == Threw
      ensures 0 <= n <= |old(Left())| ==> r == Ok(old(Left())[..n]) && Left() == old(Left())[n..]
    {
      if n < 0 || |bytes| - readerIndex < n {
        return Threw;
      }
      ghost var left: Bytes := Left();
      r := Ok(bytes[readerIndex..readerIndex + n]);
      assert bytes[readerIndex..readerIndex + n] == left[..n];
      readerIndex := readerIndex + n;
      assert Left() == left[n..];
    }

    method ReadIntLE() returns (r: Try<Int32>)
      requires Valid()
      modifies `readerIndex
      ensures Valid() && Gives(JavaRequests.ReadIntLE(old(Left())), r, Left())
    {
      var b :- ReadBytes(4);
      assert Pow256(2) == 0x1_0000;
      assert Pow256(4) == 0x1_0000_0000;
      r := Ok(Signed(b));
    }

    method ReadShortLE() returns (r: Try<Int16>)
      requires Valid()
      modifies `readerIndex
      ensures Valid() && Gives(JavaRequests.ReadShortLE(old(Left())), r, Left())
    {
      var b :- ReadBytes(2);
      assert Pow256(2) == 0x1_0000;
      r := Ok(Signed(b));
    }

    method WriteByte(b: Byte)
      modifies `bytes
      ensures bytes == old(bytes) + [b]
    {
      bytes := bytes + [b];
    }

    method WriteIntLE(x: int)
      modifies `bytes
      ensures bytes == old(bytes) + Le(x, 4)
    {
      bytes := bytes + Le(x, 4);
    }

    method WriteShortLE(x: int)
      modifies `bytes
      ensures bytes == old(bytes) + Le(x, 2)
    {
      bytes := bytes + Le(x, 2);
    }

    method WriteBytes(b: Bytes)
      modifies `bytes
      ensures bytes == old(bytes) + b
    {
      bytes := bytes + b;
    }
  }

  /** A read that the bytes at hand allow. */
  lemma Guarded(b: Bytes)
    ensures |b| >= 4 ==> JavaRequests.ReadIntLE(b).Done? && JavaRequests.ReadIntLE(b) == Done(DecInt32(b).value, DecInt32(b).rest)
    ensures |b| >= 2 ==> JavaRequests.ReadShortLE(b).Done?
  {
  }

  /** Util.readString */
  method UtilReadString(buf: ByteBuf) returns (r: Try<Bytes>)
    requires buf.Valid()
    modifies buf`readerIndex
    ensures buf.Valid() && Gives(ReadString(old(buf.Left())), r, buf.Left())
  {
    Guarded(buf.Left());
    var enough := buf.IsReadable(4);
    if enough {
      var strlen := buf.ReadIntLE();
      if strlen.value < 0 {
        return Ok([]);
      }
      enough := buf.IsReadable(strlen.value);
      if enough {
        r := buf.ReadBytes(strlen.value);
        return;
      }
    }
    return NullRef;
  }

  method TypeName(buf: ByteBuf) returns (r: Try<Name>)
    requires buf.Valid()
    modifies buf`readerIndex
    ensures buf.Valid() && Gives(ReadTypeName(old(buf.Left())), r, buf.Left())
  {
    Guarded(buf.Left());
    var enough := buf.IsReadable(4);
    if !enough {
      return NullRef;
    }
    var strlen := buf.ReadIntLE();
    if strlen.value <= 0 {
      return Ok(None);
    }
    enough := buf.IsReadable(strlen.value);
    if !enough {
      return NullRef;
    }
    var s := buf.ReadBytes(strlen.value);
    return Ok(Some(s.value));
  }

  /** Type.getInstance(ByteBuf) */
  method TypeGetInstance(buf: ByteBuf) returns (r: Try<JType>)
    requires buf.Valid()
    modifies buf`readerIndex
    ensures buf.Valid() && Gives(ReadType(old(buf.Left())), r, buf.Left())
    decreases |buf.Left()|, 0
  {
    hide ReadTypeName;
    var enough := buf.IsReadable(1);
    if !enough {
      return NullRef;
    }
    var b := buf.ReadByte();
    var tag := TagOf(b.value);
    if !(PLC_DATA_INT1 <= tag <= PLC_DATA_BYTEA) {
      return Threw;
    }
    var name :- TypeName(buf);
    if !IsNested(tag) {
      return Ok(JType(tag, name, []));
    }
    enough := buf.IsReadable(2);
    if !enough {
      return NullRef;
    }
    Guarded(buf.Left());
    var n := buf.ReadShortLE();
    if n.value < 0 {
      return Threw;
    }
    var subs :- TypeSubTypes(n.value, buf);
    return Ok(JType(tag, name, subs));
  }

  lemma TypesStep(n: nat, b: Bytes)
    requires n > 0
    ensures match ReadType(b)
      case Done(t, r) => ReadTypes(n, b) == Put([t], ReadTypes(n - 1, r))
      case Missing(r) => ReadTypes(n, b) == Missing(r)
      case Thrown => ReadTypes(n, b) == Thrown
  {
  }

  /** The subtype loop of Type.getInstance. */
  method TypeSubTypes(n: nat, buf: ByteBuf) returns (r: Try<seq<JType>>)
    requires buf.Valid()
    modifies buf`readerIndex
    ensures buf.Valid() && Gives(ReadTypes(n, old(buf.Left())), r, buf.Left())
    decreases |buf.Left()|, 1
  {
    hide ReadType;
    ghost var all := ReadTypes(n, buf.Left());
    var subs := [];
    var i := 0;
    ProgressStarts(all);
    while i < n
      invariant 0 <= i <= n && buf.Valid() && |buf.Left()| <= old(|buf.Left()|)
      invariant Progress(all, subs, ReadTypes(n - i, buf.Left()))
    {
      ghost var left := buf.Left();
      TypesStep(n - i, left);
      var t :- TypeGetInstance(buf);
      ProgressSteps(all, subs, ReadTypes(n - i, left), t, ReadTypes(n - i - 1, buf.Left()));
      subs := subs + [t];
      i := i + 1;
    }
    ProgressEnds(all, subs, buf.Left());
    return Ok(subs);
  }

  // ---------------------------------------------------------------------
  // Arguments.  The readers of the single types start at the null flag.
  // ---------------------------------------------------------------------

  /** BoolArgument, Int16Argument, Int32Argument, LongArgument, FloatArgument and DoubleArgument. */
  method ScalarGetInstance(t: JType, buf: ByteBuf) returns (r: Try<JObject>)
    requires buf.Valid() && IsScalar(t.dataType)
    modifies buf`readerIndex
    ensures buf.Valid()
    ensures GivesOrThrows(ReadValue(t, old(buf.Left())), r, buf.Left())
  {
    var enough := buf.IsReadable(1);
    if !enough {
      return NullRef;
    }
    var flag := buf.ReadByte();
    if flag.value != DATA {
      return Ok(JNull);
    }
    enough := buf.IsReadable(Width(t.dataType));
    if !enough {
      return NullRef;
    }
    var image := buf.ReadBytes(Width(t.dataType));
    return Ok(if t.dataType == PLC_DATA_INT1 then JBool(image.value[0] != 0) else JNum(image.value));
  }

  /** A string or byte array that is not null. */
  lemma BlockValue(t: JType, b: Bytes)
    requires t.dataType == PLC_DATA_TEXT || t.dataType == PLC_DATA_BYTEA
    requires b != [] && b[0] == DATA
    ensures ReadValue(t, b) == match JavaRequests.ReadIntLE(b[1..])
      case Done(n, r) =>
        if 0 <= n <= |r| then Done(if t.dataType == PLC_DATA_TEXT then JString(r[..n]) else JBytes(r[..n]), r[n..])
        else Thrown
      case Thrown => Thrown
  {
    hide JavaRequests.ReadIntLE;
  }

  lemma NullValue(t: JType, b: Bytes)
    requires b != [] && b[0] != DATA
    requires t.dataType == PLC_DATA_TEXT || t.dataType == PLC_DATA_BYTEA
    ensures ReadValue(t, b) == Done(if t.dataType == PLC_DATA_TEXT then JNull else JBytes([]), b[1..])
  {
  }

  method StringGetInstance(t: JType, buf: ByteBuf) returns (r: Try<JObject>)
    requires buf.Valid() && t.dataType == PLC_DATA_TEXT
    modifies buf`readerIndex
    ensures buf.Valid() && GivesOrThrows(ReadValue(t, old(buf.Left())), r, buf.Left())
  {
    hide ReadData;
    var enough := buf.IsReadable(1);
    if !enough {
      return NullRef;
    }
    var isNull := buf.ReadByte();
    if isNull.value != DATA {
      NullValue(t, old(buf.Left()));
      return Ok(JNull);
    }
    BlockValue(t, old(buf.Left()));
    enough := buf.IsReadable(4);
    if !enough {
      return NullRef;
    }
    Guarded(buf.Left());
    var strlen := buf.ReadIntLE();
    enough := buf.IsReadable(strlen.value);
    if !enough {
      return NullRef;
    }
    var s :- buf.ReadBytes(strlen.value);
    return Ok(JString(s));
  }

  /** The length is read without asking whether it is there. */
  method ByteArrayGetInstance(t: JType, buf: ByteBuf) returns (r: Try<JObject>)
    requires buf.Valid() && t.dataType == PLC_DATA_BYTEA
    modifies buf`readerIndex
    ensures buf.Valid() && GivesOrThrows(ReadValue(t, old(buf.Left())), r, buf.Left())
  {
    hide ReadData;
    var enough := buf.IsReadable(1);
    if !enough {
      return NullRef;
    }
    var flag := buf.ReadByte();
    if flag.value != DATA {
      NullValue(t, old(buf.Left()));
      return Ok(JBytes([]));
    }
    BlockValue(t, old(buf.Left()));
    var length :- buf.ReadIntLE();
    enough := buf.IsReadable(length);
    if !enough {
      return NullRef;
    }
    var bytes :- buf.ReadBytes(length);
    return Ok(JBytes(bytes));
  }

  lemma UnknownType(t: JType, b: Bytes)
    requires !(PLC_DATA_INT1 <= t.dataType <= PLC_DATA_BYTEA)
    ensures ReadValue(t, b) == Thrown
  {
  }

  /** Argument.readArgument(Type, String, ByteBuf) */
  method ReadArgumentOfType(t: JType, name: Name, buf: ByteBuf) returns (r: Try<JArgument>)
    requires buf.Valid()
    modifies buf`readerIndex
    ensures buf.Valid() && Gives(ReadTyped(t, name, old(buf.Left())), r, buf.Left())
    decreases t, 1
  {
    hide ReadValue;
    var value: Try<JObject>;
    if IsScalar(t.dataType) {
      value := ScalarGetInstance(t, buf);
    } else if t.dataType == PLC_DATA_TEXT {
      value := StringGetInstance(t, buf);
    } else if t.dataType == PLC_DATA_BYTEA {
      value := ByteArrayGetInstance(t, buf);
    } else if t.dataType == PLC_DATA_ARRAY {
      value := ArrayGetInstance(t, buf);
    } else if t.dataType == PLC_DATA_UDT {
      value := UdtGetInstance(t, buf);
    } else {
      UnknownType(t, buf.Left());
      value := Threw;
    }
    if !value.Ok? {
      return Threw;
    }
    return Ok(JArgument(ArgName(name), t.dataType, value.value));
  }

  lemma FieldsStep(ts: seq<JType>, b: Bytes)
    requires ts != []
    ensures match ReadTyped(ts[0], ts[0].typeName, b)
      case Done(x, r) => ReadFields(ts, b) == Put([x], ReadFields(ts[1..], r))
      case Thrown => ReadFields(ts, b) == Thrown
  {
  }

  method UdtGetInstance(t: JType, buf: ByteBuf) returns (r: Try<JObject>)
    requires buf.Valid() && t.dataType == PLC_DATA_UDT
    modifies buf`readerIndex
    ensures buf.Valid() && GivesOrThrows(ReadValue(t, old(buf.Left())), r, buf.Left())
    decreases t, 0
  {
    hide ReadTyped;
    var enough := buf.IsReadable(1);
    if !enough {
      return NullRef;
    }
    var isNull := buf.ReadByte();
    if isNull.value != DATA {
      return Ok(JNull);
    }
    ghost var all := ReadFields(t.subTypes, buf.Left());
    var args := [];
    var i := 0;
    ProgressStarts(all);
    while i < |t.subTypes|
      invariant 0 <= i <= |t.subTypes| && buf.Valid()
      invariant Progress(all, args, ReadFields(t.subTypes[i..], buf.Left()))
    {
      ghost var left, ts := buf.Left(), t.subTypes[i..];
      FieldsStep(ts, left);
      var x :- ReadArgumentOfType(t.subTypes[i], t.subTypes[i].typeName, buf);
      assert ts[1..] == t.subTypes[i + 1..];
      ProgressSteps(all, args, ReadFields(ts, left), x, ReadFields(t.subTypes[i + 1..], buf.Left()));
      args := args + [x];
      i := i + 1;
    }
    ProgressEnds(all, args, buf.Left());
    return Ok(JArgs(args));
  }

  lemma IntsStep(n: nat, b: Bytes)
    requires n > 0
    ensures match JavaRequests.ReadIntLE(b)
      case Done(x, r) => ReadInts(n, b) == Put([x], ReadInts(n - 1, r))
      case Thrown => ReadInts(n, b) == Thrown
  {
  }

  lemma ArrayValue(t: JType, b: Bytes)
    requires t.dataType == PLC_DATA_ARRAY && t.subTypes != [] && b != [] && b[0] == DATA
    ensures ReadValue(t, b) == ReadArray(t.subTypes[0], b[1..])
  {
  }

  method ArrayGetInstance(t: JType, buf: ByteBuf) returns (r: Try<JObject>)
    requires buf.Valid() && t.dataType == PLC_DATA_ARRAY
    modifies buf`readerIndex
    ensures buf.Valid() && GivesOrThrows(ReadValue(t, old(buf.Left())), r, buf.Left())
    decreases t, 0
  {
    hide ReadNested, ReadInts, JavaRequests.ReadIntLE;
    if t.subTypes == [] {
      return Threw;
    }
    var enough := buf.IsReadable(1);
    if !enough {
      return NullRef;
    }
    var flag := buf.ReadByte();
    if flag.value != DATA {
      return Threw;
    }
    ArrayValue(t, old(buf.Left()));
    var ndims :- buf.ReadIntLE();
    enough := buf.IsReadable(4 * (ndims as int));
    if !enough {
      return NullRef;
    }
    if ndims < 0 {
      return Threw;
    }
    var dims :- ReadDimensions(ndims, buf);
    if !AllNat(dims) {
      return Threw;
    }
    var e := t.subTypes[0];
    if ndims == 1 {
      r := ReadVector(1, dims, e, buf);
    } else if ndims == 2 {
      r := ReadMatrix(2, dims, e, buf);
    } else if ndims == 3 {
      r := ReadCube(3, dims, e, buf);
    } else {
      r := Threw;
    }
  }

  method ReadDimensions(ndims: nat, buf: ByteBuf) returns (r: Try<seq<Int32>>)
    requires buf.Valid()
    modifies buf`readerIndex
    ensures buf.Valid() && Gives(ReadInts(ndims, old(buf.Left())), r, buf.Left())
  {
    hide JavaRequests.ReadIntLE;
    ghost var all := ReadInts(ndims, buf.Left());
    var dims := [];
    var i := 0;
    ProgressStarts(all);
    while i < ndims
      invariant 0 <= i <= ndims && buf.Valid()
      invariant Progress(all, dims, ReadInts(ndims - i, buf.Left()))
    {
      ghost var left := buf.Left();
      IntsStep(ndims - i, left);
      var x :- buf.ReadIntLE();
      ProgressSteps(all, dims, ReadInts(ndims - i, left), x, ReadInts(ndims - i - 1, buf.Left()));
      dims := dims + [x];
      i := i + 1;
    }
    ProgressEnds(all, dims, buf.Left());
    return Ok(dims);
  }

  lemma RepeatedStep(ndims: int, n: nat, dims: seq<Int32>, e: JType, b: Bytes)
    requires n > 0 && AllNat(dims)
    ensures match ReadNested(ndims, dims, e, b)
      case Done(x, r) => ReadRepeated(ndims, n, dims, e, b) == Put([x], ReadRepeated(ndims, n - 1, dims, e, r))
      case Thrown => ReadRepeated(ndims, n, dims, e, b) == Thrown
  {
    hide ReadNested;
  }

  /** The innermost loop: one row, its elements set in place as they are read. */
  method ReadVector(ndims: int, dims: seq<Int32>, e: JType, buf: ByteBuf) returns (r: Try<JObject>)
    requires buf.Valid() && |dims| == 1 && AllNat(dims)
    modifies buf`readerIndex
    ensures buf.Valid() && GivesOrThrows(ReadNested(ndims, dims, e, old(buf.Left())), r, buf.Left())
    decreases e, 2
  {
    hide ReadTyped, ReadNested, Stored;
    ghost var all := ReadRepeated(ndims, dims[0], [], e, buf.Left());
    OneDimension(ndims, dims, e, buf.Left());
    assert dims[1..] == [];
    var row := new JObject[dims[0]];
    var i := 0;
    ProgressStarts(all);
    while i < dims[0]
      invariant 0 <= i <= dims[0] && buf.Valid()
      invariant Progress(all, row[..i], ReadRepeated(ndims, dims[0] - i, [], e, buf.Left()))
    {
      ghost var left := buf.Left();
      RepeatedStep(ndims, dims[0] - i, [], e, left);
      ElementStep(ndims, e, left);
      var a :- ReadArgumentOfType(e, None, buf);
      var x := Stored(ndims, e.dataType, a.value);
      if x.None? {
        return Threw;
      }
      ProgressSteps(all, row[..i], ReadRepeated(ndims, dims[0] - i, [], e, left), x.value,
                    ReadRepeated(ndims, dims[0] - i - 1, [], e, buf.Left()));
      row[i] := x.value;
      assert row[..i + 1] == row[..i] + [x.value];
      i := i + 1;
    }
    ProgressEnds(all, row[..i], buf.Left());
    return Ok(JArray(row[..i]));
  }

  /** Two dimensions: the rows one after another. */
  method ReadMatrix(ndims: int, dims: seq<Int32>, e: JType, buf: ByteBuf) returns (r: Try<JObject>)
    requires buf.Valid() && |dims| == 2 && AllNat(dims)
    modifies buf`readerIndex
    ensures buf.Valid() && GivesOrThrows(ReadNested(ndims, dims, e, old(buf.Left())), r, buf.Left())
    decreases e, 3
  {
    hide ReadNested;
    OneDimension(ndims, dims, e, buf.Left());
    ghost var all := ReadRepeated(ndims, dims[0], dims[1..], e, buf.Left());
    var rows := new JObject[dims[0]];
    var i := 0;
    ProgressStarts(all);
    while i < dims[0]
      invariant 0 <= i <= dims[0] && buf.Valid()
      invariant Progress(all, rows[..i], ReadRepeated(ndims, dims[0] - i, dims[1..], e, buf.Left()))
    {
      ghost var left := buf.Left();
      RepeatedStep(ndims, dims[0] - i, dims[1..], e, left);
      var x :- ReadVector(ndims, dims[1..], e, buf);
      ProgressSteps(all, rows[..i], ReadRepeated(ndims, dims[0] - i, dims[1..], e, left), x,
                    ReadRepeated(ndims, dims[0] - i - 1, dims[1..], e, buf.Left()));
      rows[i] := x;
      assert rows[..i + 1] == rows[..i] + [x];
      i := i + 1;
    }
    ProgressEnds(all, rows[..i], buf.Left());
    return Ok(JArray(rows[..i]));
  }

  /** Three dimensions: the planes one after another. */
  method ReadCube(ndims: int, dims: seq<Int32>, e: JType, buf: ByteBuf) returns (r: Try<JObject>)
    requires buf.Valid() && |dims| == 3 && AllNat(dims)
    modifies buf`readerIndex
    ensures buf.Valid() && GivesOrThrows(ReadNested(ndims, dims, e, old(buf.Left())), r, buf.Left())
    decreases e, 4
  {
    hide ReadNested;
    OneDimension(ndims, dims, e, buf.Left());
    ghost var all := ReadRepeated(ndims, dims[0], dims[1..], e, buf.Left());
    var rows := new JObject[dims[0]];
    var i := 0;
    ProgressStarts(all);
    while i < dims[0]
      invariant 0 <= i <= dims[0] && buf.Valid()
      invariant Progress(all, rows[..i], ReadRepeated(ndims, dims[0] - i, dims[1..], e, buf.Left()))
    {
      ghost var left := buf.Left();
      RepeatedStep(ndims, dims[0] - i, dims[1..], e, left);
      var x :- ReadMatrix(ndims, dims[1..], e, buf);
      ProgressSteps(all, rows[..i], ReadRepeated(ndims, dims[0] - i, dims[1..], e, left), x,
                    ReadRepeated(ndims, dims[0] - i - 1, dims[1..], e, buf.Left()));
      rows[i] := x;
      assert rows[..i + 1] == rows[..i] + [x];
      i := i + 1;
    }
    ProgressEnds(all, rows[..i], buf.Left());
    return Ok(JArray(rows[..i]));
  }

  /** A dimension is a loop over the next. */
  lemma OneDimension(ndims: int, dims: seq<Int32>, e: JType, b: Bytes)
    requires dims != [] && AllNat(dims)
    ensures AllNat(dims[1..])
    ensures ReadNested(ndims, dims, e, b) == match ReadRepeated(ndims, dims[0], dims[1..], e, b)
      case Done(xs, r) => Done(JArray(xs), r)
      case Thrown => Thrown
  {
    hide ReadRepeated;
  }

  lemma ElementStep(ndims: int, e: JType, b: Bytes)
    ensures ReadNested(ndims, [], e, b) == match ReadTyped(e, None, b)
      case Done(a, r) => Store(ndims, e.dataType, a.value, r)
      case Thrown => Thrown
  {
    hide ReadTyped, Stored;
  }

  /** Argument.readArgument(ByteBuf) */
  method ArgumentReadArgument(buf: ByteBuf) returns (r: Try<JArgument>)
    requires buf.Valid()
    modifies buf`readerIndex
    ensures buf.Valid() && Gives(ReadArgument(old(buf.Left())), r, buf.Left())
  {
    hide ReadString, ReadType, ReadTyped;
    var name :- UtilReadString(buf);
    var t :- TypeGetInstance(buf);
    r := ReadArgumentOfType(t, Some(name), buf);
  }

  class Decoder {
    var step: RequestState
    var callRequest: CallRequest
    var argNumber: int

    ghost function State(): JavaRequests.State
      reads this
    {
      JavaRequests.State(step, callRequest, argNumber)
    }

    constructor ()
      ensures step == WAITING
    {
      step, callRequest, argNumber := WAITING, NEW_REQUEST, 0;
    }

    /** One call of decode: a request to hand on or none, or an exception. */
    method Decode(buf: ByteBuf) returns (r: Try<Option<CallRequest>>)
      requires buf.Valid() && buf.Left() != []
      modifies this, buf`readerIndex
      ensures buf.Valid()
      ensures match DecodeStep(old(State()), old(buf.Left()))
        case Stepped(d, rest, out) => r == Ok(out) && State() == d && buf.Left() == rest
        case Failed => r == Threw
    {
      hide ReadString, ReadType, ReadArgument, JavaRequests.ReadIntLE;
      r := Ok(None);
      match step
      case WAITING =>
        var c := buf.ReadByte();
        if c.value == MT_CALLREQ {
          step, callRequest := FUNCTION_NAME, NEW_REQUEST;
        }
      case FUNCTION_NAME =>
        var s := UtilReadString(buf);
        if s.Ok? {
          step, callRequest := FUNCTION_DEFINITION, callRequest.(name := if s.value == [] then None else Some(s.value));
        }
      case FUNCTION_DEFINITION =>
        var s := UtilReadString(buf);
        if s.Ok? {
          step, callRequest := OID, callRequest.(definition := if s.value == [] then None else Some(s.value));
        }
      case OID =>
        var x :- buf.ReadIntLE();
        step, callRequest := HAS_CHANGED, callRequest.(oid := x);
      case HAS_CHANGED =>
        var x :- buf.ReadIntLE();
        step, callRequest := RETURN_TYPE, callRequest.(hasChanged := x == 1);
      case RETURN_TYPE =>
        var t := TypeGetInstance(buf);
        if t.Threw? {
          return Threw;
        }
        step, callRequest := SET_RETURNING, callRequest.(returnType := if t.Ok? then Some(t.value) else None);
      case SET_RETURNING =>
        var x :- buf.ReadIntLE();
        step, callRequest := NUM_ARGUMENTS, callRequest.(setReturning := x == 1);
      case NUM_ARGUMENTS =>
        var n :- buf.ReadIntLE();
        if n < 0 {
          return Threw;
        }
        callRequest := callRequest.(numArgs := n, args := []);
        if n == 0 {
          step := WAITING;
          r := Ok(Some(callRequest));
        } else {
          step, argNumber := ARGUMENTS, 0;
        }
      case ARGUMENTS =>
        r := DecodeArgument(buf);
    }

    /** The ARGUMENTS state: an argument that is not all there yet is left for the next call. */
    method DecodeArgument(buf: ByteBuf) returns (r: Try<Option<CallRequest>>)
      requires buf.Valid()
      modifies `callRequest, `argNumber, buf`readerIndex
      ensures buf.Valid()
      ensures match ArgumentStep(old(State()), old(buf.Left()))
        case Stepped(d, rest, out) => r == Ok(out) && State() == d && buf.Left() == rest
        case Failed => r == Threw
    {
      hide ReadArgument;
      var readerIndex := buf.readerIndex;
      r := Ok(None);
      if argNumber < callRequest.numArgs {
        var argument := ArgumentReadArgument(buf);
        match argument
        case Threw => r := Threw;
        case NullRef => buf.readerIndex := readerIndex;
        case Ok(a) =>
          callRequest := callRequest.(args := callRequest.args + [a]);
          argNumber := argNumber + 1;
          if argNumber >= callRequest.numArgs {
            r := Ok(Some(callRequest));
          }
      }
    }

    /** The driver's loop over a buffer; `failed` when a call threw or consumed nothing for a request. */
    method Run(buf: ByteBuf) returns (out: seq<CallRequest>, failed: bool)
      requires buf.Valid()
      modifies this, buf`readerIndex
      ensures buf.Valid()
      ensures var o := DecodeAll(old(State()), old(buf.Left()));
        && out == o.out && failed == o.failed
        && (!failed ==> State() == o.d && buf.Left() == o.rest)
    {
      hide DecodeStep, DecodeAll, Before;
      ghost var all := DecodeAll(State(), buf.Left());
      out, failed := [], false;
      BeforeNone(all);
      while buf.readerIndex < |buf.bytes|
        invariant buf.Valid() && all == Before(out, DecodeAll(State(), buf.Left()))
        decreases |buf.Left()|
      {
        ghost var d, left := State(), buf.Left();
        StepOf(out, d, left);
        var before := buf.readerIndex;
        var r := Decode(buf);
        if !r.Ok? {
          return out, true;
        }
        if r.value.Some? {
          out := out + [r.value.value];
        }
        if buf.readerIndex <= before {
          return out, r.value.Some?;
        }
      }
      AtEnd(out, State());
    }
  }

  lemma BeforeNone(o: Outcome)
    ensures Before([], o) == o
  {
    assert [] + o.out == o.out;
  }

  /** The run from a buffer that is not empty, by what its first call does. */
  lemma StepOf(out: seq<CallRequest>, d: State, b: Bytes)
    requires b != []
    ensures match DecodeStep(d, b)
      case Failed => Before(out, DecodeAll(d, b)) == Outcome(d, b, out, true)
      case Stepped(d', r, x) =>
        var out' := if x.Some? then out + [x.value] else out;
        Before(out, DecodeAll(d, b)) == if |r| >= |b| then Outcome(d', r, out', x.Some?) else Before(out', DecodeAll(d', r))
  {
    hide DecodeStep;
    assert out + [] == out;
    match DecodeStep(d, b)
    case Failed =>
    case Stepped(d', r, x) =>
      if |r| < |b| {
        var here := if x.Some? then [x.value] else [];
        assert out + (here + DecodeAll(d', r).out) == out + here + DecodeAll(d', r).out;
      }
  }

  lemma AtEnd(out: seq<CallRequest>, d: State)
    ensures Before(out, DecodeAll(d, [])) == Outcome(d, [], out, false)
  {
    assert out + [] == out;
  }
}
