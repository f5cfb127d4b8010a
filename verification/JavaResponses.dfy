/**
  How the JVM side writes responses.  An encoder that throws writes nothing: the
  buffer it was filling is dropped, so a response is its bytes or none.

  A Java string is its UTF-16 units; the platform's charset is UTF-8.
*/
module JavaResponses {
  import opened Primitives
  import opened Wire

  type Unit = u: int | 0 <= u < 0x1_0000
  type Units = seq<Unit>

  /** A type object, with the names the constructors give. */
  datatype RType = RType(dataType: int, typeName: Option<Units>, subTypes: seq<RType>)

  /**
    What a function can return.  `RNum` is a boxed Boolean, Short, Integer, Long,
    Float or Double.  The element class of an `RArray` of the given rank is a
    primitive type, or the boxed class or String that goes with the tag.  `ROther` is
    any other object, a boxed Byte among them.
  */
  datatype RObject =
    | RNull
    | RNum(tag: int, image: Bytes)
    | RText(text: Units)
    | RBytes(bytes: Bytes)
    | RArray(primitive: bool, tag: int, rank: nat, elems: seq<RObject>)
    | ROther

  datatype Response =
    | CallResponse(numRows: Int32, numCols: Int32, types: seq<RType>, names: seq<Option<Units>>, rows: seq<seq<RObject>>)
    | ExceptionResponse(message: Option<Units>, stacktrace: Option<Units>)
    | LogResponse(level: Int32, text: Option<Units>)

  /** What the Java type system guarantees of an object. */
  predicate Typed(x: RObject) {
    match x
    case RNum(tag, image) => IsScalar(tag) && |image| == Width(tag) && (tag == PLC_DATA_INT1 ==> image[0] <= 1)
    case RText(s) => |s| <= INT_MAX
    case RBytes(b) => |b| <= INT_MAX
    case RArray(primitive, tag, rank, elems) =>
      && (IsScalar(tag) || (tag == PLC_DATA_TEXT && !primitive)) && rank >= 1 && |elems| <= INT_MAX
      && (forall i | 0 <= i < |elems| :: Typed(elems[i]) && InArray(x, elems[i]))
    case _ => true
  }

  /** An element fits the class of its array; only primitives cannot be null. */
  predicate InArray(a: RObject, x: RObject)
    requires a.RArray?
  {
    if x.RNull? then a.rank > 1 || !a.primitive
    else if a.rank > 1 then x.RArray? && x.primitive == a.primitive && x.tag == a.tag && x.rank == a.rank - 1
    else if a.tag == PLC_DATA_TEXT then x.RText?
    else x.RNum? && x.tag == a.tag
  }

  // ---------------------------------------------------------------------
  // Strings
  // ---------------------------------------------------------------------

  predicate IsHigh(u: Unit) { 0xD800 <= u < 0xDC00 }

  predicate IsLow(u: Unit) { 0xDC00 <= u < 0xE000 }

  /** String.getBytes(): a surrogate without its partner becomes a question mark. */
  function GetBytes(s: Units): Bytes {
    if s == [] then []
    else if s[0] < 0x80 then [s[0]] + GetBytes(s[1..])
    else if s[0] < 0x800 then TwoBytes(s[0]) + GetBytes(s[1..])
    else if IsHigh(s[0]) && |s| > 1 && IsLow(s[1]) then Supplementary(s[0], s[1]) + GetBytes(s[2..])
    else if IsHigh(s[0]) || IsLow(s[0]) then [63] + GetBytes(s[1..])
    else ThreeBytes(s[0]) + GetBytes(s[1..])
  }

  function TwoBytes(u: Unit): (b: Bytes)
    requires u < 0x800
    ensures |b| == 2 && 0 !in b
  {
    [0xC0 + u / 64, 0x80 + u % 64]
  }

  function ThreeBytes(u: Unit): (b: Bytes)
    ensures |b| == 3 && 0 !in b
  {
    [0xE0 + u / 4096, 0x80 + u / 64 % 64, 0x80 + u % 64]
  }

  function Supplementary(high: Unit, low: Unit): (b: Bytes)
    requires IsHigh(high) && IsLow(low)
    ensures |b| == 4
  {
    var c := 0x1_0000 + (high - 0xD800) * 1024 + (low - 0xDC00);
    [0xF0 + c / 262144, 0x80 + c / 4096 % 64, 0x80 + c / 64 % 64, 0x80 + c % 64]
  }

  /** The number of units, then the bytes: two different measures of a string. */
  function SendChars(s: Units): Bytes { Le(|s|, 4) + GetBytes(s) }

  function SendString(s: Option<Units>): Bytes {
    if s.None? then Le(-1, 4) else SendChars(s.value)
  }

  // ---------------------------------------------------------------------
  // Types
  // ---------------------------------------------------------------------

  function Ascii(s: string): (u: Units)
    requires forall i | 0 <= i < |s| :: 0 as char < s[i] < 128 as char
    ensures |u| == |s|
    ensures forall i | 0 <= i < |u| :: u[i] == s[i] as int && 0 < u[i] < 0x80
  {
    if s == [] then [] else [s[0] as int] + Ascii(s[1..])
  }

  /** The constructor Type(DataType). */
  function NewType(tag: int): RType
    requires PLC_DATA_INT1 <= tag <= PLC_DATA_BYTEA
  {
    var name :=
      if tag == PLC_DATA_INT1 then "boolean"
      else if tag == PLC_DATA_INT2 then "int2"
      else if tag == PLC_DATA_INT4 then "int4"
      else if tag == PLC_DATA_INT8 then "int8"
      else if tag == PLC_DATA_FLOAT4 then "float4"
      else if tag == PLC_DATA_FLOAT8 then "float8"
      else if tag == PLC_DATA_TEXT then "text"
      else if tag == PLC_DATA_ARRAY then "array"
      else if tag == PLC_DATA_BYTEA then "bytea"
      else "udt";
    RType(tag, Some(Ascii(name)), [])
  }

  /**
    Type.getInstance(Class) of the class of an object that is not null.  Only the
    class names of primitive arrays lead to an element class; the others throw.
  */
  function TypeOf(x: RObject): Option<RType>
    requires Typed(x) && !x.RNull?
  {
    match x
    case RNum(tag, _) => Some(NewType(tag))
    case RText(_) => Some(NewType(PLC_DATA_TEXT))
    case RBytes(_) => Some(NewType(PLC_DATA_BYTEA))
    case RArray(primitive, tag, _, _) =>
      if primitive then Some(NewType(PLC_DATA_ARRAY).(subTypes := [NewType(tag)])) else None
    case ROther => Some(NewType(PLC_DATA_UDT))
  }

  /** sendType writes a count only when there are subtypes, and one level of them. */
  function SendType(t: RType): Bytes {
    [t.dataType % 256] + SendString(t.typeName)
    + (if t.subTypes != [] then Le(|t.subTypes|, 2) + SendSubTypes(t.subTypes) else [])
  }

  function SendSubTypes(ts: seq<RType>): Bytes {
    if ts == [] then [] else [ts[0].dataType % 256] + SendString(ts[0].typeName) + SendSubTypes(ts[1..])
  }

  // ---------------------------------------------------------------------
  // Objects
  // ---------------------------------------------------------------------

  /** The lengths found by following first elements; an empty or null array on the way throws. */
  function Dimensions(x: RObject): Option<seq<int>> {
    match x
    case RNull => None
    case RArray(_, _, _, elems) =>
      if elems == [] then None
      else
        var inner := Dimensions(elems[0]);
        if inner.None? then None else Some([|elems|] + inner.value)
    case RBytes(b) => if b == [] then None else Some([|b|])
    case _ => Some([])
  }

  function Concat(a: Option<Bytes>, b: Option<Bytes>): Option<Bytes> {
    if a.Some? && b.Some? then Some(a.value + b.value) else None
  }

  /** The casts throw for an object of another class; a type outside the switch writes its flag only. */
  function SendObject(t: RType, x: RObject): Option<Bytes>
    decreases t, 0
  {
    if x.RNull? then Some([NULL])
    else if IsScalar(t.dataType) then
      if x.RNum? && x.tag == t.dataType then Some([DATA] + x.image) else None
    else if t.dataType == PLC_DATA_TEXT then
      if x.RText? then Some([DATA] + SendChars(x.text)) else None
    else if t.dataType == PLC_DATA_BYTEA then
      if x.RBytes? then Some([DATA] + (Le(|x.bytes|, 4) + x.bytes)) else None
    else if t.dataType == PLC_DATA_ARRAY then
      if t.subTypes == [] then None else Concat(Some([DATA]), SendArray(t.subTypes[0], x))
    else Some([DATA])
  }

  function SendInts(xs: seq<int>): Bytes {
    if xs == [] then [] else Le(xs[0], 4) + SendInts(xs[1..])
  }

  function SendArray(t: RType, x: RObject): Option<Bytes>
    decreases t, 3
  {
    match Dimensions(x)
    case None => None
    case Some(dims) => Concat(Some(Le(|dims|, 4) + SendInts(dims)), SendFlat(t, x))
  }

  /**
    sendArrayFlat: the leaves one after another; the class of a null is asked for, and
    throws.  A byte array is an array here, of boxed bytes.
  */
  function SendFlat(t: RType, x: RObject): Option<Bytes>
    decreases t, 2, x, 1
  {
    if x.RNull? then None
    else if x.RArray? then SendFlats(t, x.elems)
    else if x.RBytes? then SendOthers(t, |x.bytes|)
    else SendObject(t, x)
  }

  function SendOthers(t: RType, n: nat): Option<Bytes>
    decreases t, 1, n
  {
    if n == 0 then Some([]) else Concat(SendObject(t, ROther), SendOthers(t, n - 1))
  }

  function SendFlats(t: RType, xs: seq<RObject>): Option<Bytes>
    decreases t, 2, xs, 0
  {
    if xs == [] then Some([]) else Concat(SendFlat(t, xs[0]), SendFlats(t, xs[1..]))
  }

  // ---------------------------------------------------------------------
  // Responses
  // ---------------------------------------------------------------------

  /** The tables a call response holds, as its setters leave them. */
  predicate Sized(r: Response)
    requires r.CallResponse?
  {
    && |r.rows| == Max(r.numRows, 0)
    && |r.types| == |r.names| == Max(r.numCols, 0)
    && (forall i | 0 <= i < |r.rows| :: |r.rows[i]| == |r.types|)
  }

  /** A column name is asked for its length before it is written. */
  function SendColumns(types: seq<RType>, names: seq<Option<Units>>): Option<Bytes>
    requires |types| == |names|
  {
    if types == [] then Some([])
    else if names[0].None? then None
    else Concat(Some(SendType(types[0]) + SendChars(names[0].value)), SendColumns(types[1..], names[1..]))
  }

  function SendRow(types: seq<RType>, row: seq<RObject>): Option<Bytes>
    requires |types| == |row|
  {
    if row == [] then Some([]) else Concat(SendObject(types[0], row[0]), SendRow(types[1..], row[1..]))
  }

  function SendRows(types: seq<RType>, rows: seq<seq<RObject>>): Option<Bytes>
    requires forall i | 0 <= i < |rows| :: |rows[i]| == |types|
  {
    if rows == [] then Some([]) else Concat(SendRow(types, rows[0]), SendRows(types, rows[1..]))
  }

  function SendResponse(r: Response): Option<Bytes>
    requires r.CallResponse? ==> Sized(r)
  {
    match r
    case CallResponse(numRows, numCols, types, names, rows) =>
      Concat(Concat(Concat(Some([MT_RESULT] + Le(numRows, 4) + Le(numCols, 4)), SendColumns(types, names)),
                    SendRows(types, rows)),
             Some([NULL]))
    case ExceptionResponse(message, stacktrace) =>
      Some([MT_EXCEPTION] + SendString(message) + SendString(stacktrace))
    case LogResponse(level, text) => Some([MT_LOG] + Le(level, 4) + SendString(text))
  }

  /** The response the call handler builds for a function's result, when the result has a type. */
  function ResponseTo(name: Option<Units>, x: RObject): Option<Response>
    requires Typed(x)
  {
    var t := if x.RNull? then Some(NewType(PLC_DATA_TEXT)) else TypeOf(x);
    if t.None? then None else Some(CallResponse(1, 1, [t.value], [name], [[x]]))
  }
}
