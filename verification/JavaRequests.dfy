/**
  How the JVM side reads requests.  It is a second implementation of the wire
  format, written independently of the backend's, and this file follows it as it
  stands: what it returns, what it throws, and what it leaves unread.

  Java numbers are carried as their little-endian images, and request strings as
  the bytes they are decoded from.
*/
module JavaRequests {
  import opened Primitives
  import opened Wire
  import opened Shapes

  /** A Java string, or null. */
  type Name = Option<Bytes>

  datatype JType = JType(dataType: int, typeName: Name, subTypes: seq<JType>)

  datatype JObject =
    | JNull
    | JBool(b: bool)
    | JNum(image: Bytes)
    | JString(bytes: Bytes)
    | JBytes(bytes: Bytes)
    | JArray(elems: seq<JObject>)
    | JArgs(args: seq<JArgument>)

  datatype JArgument = JArgument(name: Name, dataType: int, value: JObject)

  /**
    What a read comes to: a value, a null (or false) that tells the caller to wait,
    or an exception.  Both of the first two move the reader index.
  */
  datatype Read<+T> = Done(value: T, rest: Bytes) | Missing(rest: Bytes) | Thrown {
    predicate IsFailure() { !Done? }
    function PropagateFailure<U>(): Read<U>
      requires IsFailure()
    {
      if Missing? then Missing(rest) else Thrown
    }
    function Extract(): (T, Bytes)
      requires Done?
    {
      (value, rest)
    }
  }

  /** An unguarded readIntLE. */
  function ReadIntLE(b: Bytes): (p: Read<Int32>)
    ensures !p.Missing?
    ensures p.Done? ==> |p.rest| < |b|
  {
    if |b| < 4 then Thrown
    else
      var p := DecInt32(b);
      Done(p.value, p.rest)
  }

  function ReadShortLE(b: Bytes): (p: Read<Int16>)
    ensures !p.Missing?
    ensures p.Done? ==> |p.rest| < |b|
  {
    if |b| < 2 then Thrown
    else
      var p := DecInt16(b);
      Done(p.value, p.rest)
  }

  /** Util.readString: the length is consumed even when the body is missing. */
  function ReadString(b: Bytes): (p: Read<Bytes>)
    ensures !p.Thrown?
    ensures p.Done? ==> |p.rest| < |b|
  {
    if |b| < 4 then Missing(b)
    else
      var p := DecInt32(b);
      if p.value < 0 then Done([], p.rest)
      else if |p.rest| >= p.value then Done(p.rest[..p.value], p.rest[p.value..])
      else Missing(p.rest)
  }

  /** Type.getInstance(ByteBuf); a tag it does not know is a null dereferenced. */
  function ReadType(b: Bytes): (p: Read<JType>)
    ensures p.Done? ==> |p.rest| < |b|
    ensures p.Missing? ==> |p.rest| <= |b|
    decreases |b|, 0
  {
    if |b| < 1 then Missing(b)
    else
      var tag := TagOf(b[0]);
      if !(PLC_DATA_INT1 <= tag <= PLC_DATA_BYTEA) then Thrown
      else
        var (name, r) :- ReadTypeName(b[1..]);
        if !IsNested(tag) then Done(JType(tag, name, []), r)
        else if |r| < 2 then Missing(r)
        else
          var (n, r') :- ReadShortLE(r);
          if n < 0 then Thrown
          else
            var (subs, r'') :- ReadTypes(n, r');
            Done(JType(tag, name, subs), r'')
  }

  function ReadTypeName(b: Bytes): (p: Read<Name>)
    ensures p.Done? ==> |p.rest| < |b|
    ensures p.Missing? ==> |p.rest| <= |b|
    ensures !p.Thrown?
  {
    if |b| < 4 then Missing(b)
    else
      var p := DecInt32(b);
      if p.value <= 0 then Done(None, p.rest)
      else if |p.rest| < p.value then Missing(p.rest)
      else Done(Some(p.rest[..p.value]), p.rest[p.value..])
  }

  function ReadTypes(n: nat, b: Bytes): (p: Read<seq<JType>>)
    ensures p.Done? ==> |p.value| == n && |p.rest| <= |b|
    ensures p.Missing? ==> |p.rest| <= |b|
    decreases |b|, 1, n
  {
    if n == 0 then Done([], b)
    else
      var (t, r) :- ReadType(b);
      var (ts, r') :- ReadTypes(n - 1, r);
      Done([t] + ts, r')
  }

  /** The constructor's treatment of a name. */
  function ArgName(name: Name): Name { if name == Some([]) then None else name }

  /** Argument.readArgument(Type, String, ByteBuf) */
  function ReadTyped(t: JType, name: Name, b: Bytes): (p: Read<JArgument>)
    ensures !p.Missing?
    ensures p.Done? ==> |p.rest| < |b|
    decreases t, 2
  {
    var (value, r) :- ReadValue(t, b);
    Done(JArgument(ArgName(name), t.dataType, value), r)
  }

  /**
    The readers of the single types.  They return null when bytes are missing, and
    that null is dereferenced; so is the class of a null array, and the argument of a
    type there is no reader for.
  */
  function ReadValue(t: JType, b: Bytes): (p: Read<JObject>)
    ensures !p.Missing?
    ensures p.Done? ==> |p.rest| < |b|
    decreases t, 1
  {
    if !(PLC_DATA_INT1 <= t.dataType <= PLC_DATA_BYTEA) || |b| < 1 then Thrown
    else if b[0] == DATA then ReadData(t, b[1..])
    else if t.dataType == PLC_DATA_ARRAY then Thrown
    else if t.dataType == PLC_DATA_BYTEA then Done(JBytes([]), b[1..])
    else Done(JNull, b[1..])
  }

  function ReadScalar(tag: int, b: Bytes): (p: Read<JObject>)
    requires IsScalar(tag)
    ensures !p.Missing?
    ensures p.Done? ==> |p.rest| <= |b|
  {
    var w := Width(tag);
    if |b| < w then Thrown
    else if tag == PLC_DATA_INT1 then Done(JBool(b[0] != 0), b[1..])
    else Done(JNum(b[..w]), b[w..])
  }

  /** The bytes of a string or byte array, after its length. */
  function ReadBlock(b: Bytes): (p: Read<Bytes>)
    ensures !p.Missing?
    ensures p.Done? ==> |p.rest| <= |b|
  {
    var (len, r) :- ReadIntLE(b);
    if 0 <= len <= |r| then Done(r[..len], r[len..]) else Thrown
  }

  function ReadData(t: JType, b: Bytes): (p: Read<JObject>)
    ensures !p.Missing?
    ensures p.Done? ==> |p.rest| <= |b|
    decreases t, 0
  {
    if IsScalar(t.dataType) then ReadScalar(t.dataType, b)
    else if t.dataType == PLC_DATA_TEXT then
      var (x, r) :- ReadBlock(b);
      Done(JString(x), r)
    else if t.dataType == PLC_DATA_BYTEA then
      var (x, r) :- ReadBlock(b);
      Done(JBytes(x), r)
    else if t.dataType == PLC_DATA_ARRAY then
      if t.subTypes == [] then Thrown else ReadArray(t.subTypes[0], b)
    else if t.dataType == PLC_DATA_UDT then
      var (args, r) :- ReadFields(t.subTypes, b);
      Done(JArgs(args), r)
    else Thrown
  }

  /** The field loop of UDTArgument.getInstance. */
  function ReadFields(ts: seq<JType>, b: Bytes): (p: Read<seq<JArgument>>)
    ensures !p.Missing?
    ensures p.Done? ==> |p.value| == |ts| && |p.rest| <= |b|
    decreases ts
  {
    if ts == [] then Done([], b)
    else
      var (x, r) :- ReadTyped(ts[0], ts[0].typeName, b);
      var (xs, r') :- ReadFields(ts[1..], r);
      Done([x] + xs, r')
  }

  function ReadInts(n: nat, b: Bytes): (p: Read<seq<Int32>>)
    ensures !p.Missing?
    ensures p.Done? ==> |p.value| == n && |p.rest| <= |b|
    decreases n
  {
    if n == 0 then Done([], b)
    else
      var (x, r) :- ReadIntLE(b);
      var (xs, r') :- ReadInts(n - 1, r);
      Done([x] + xs, r')
  }

  /** ArrayArgument.getInstance after the null flag: one to three dimensions. */
  function ReadArray(e: JType, b: Bytes): (p: Read<JObject>)
    ensures !p.Missing?
    ensures p.Done? ==> |p.rest| <= |b|
    decreases e, 4
  {
    var (ndims, r) :- ReadIntLE(b);
    if ndims < 0 || |r| < 4 * ndims then Thrown
    else
      var (dims, r') :- ReadInts(ndims, r);
      if !(1 <= ndims <= 3) || !AllNat(dims) then Thrown else ReadNested(ndims, dims, e, r')
  }

  /**
    What Array.set stores in an array built for `ndims` dimensions: a three
    dimensional array is of int whatever its elements, an array of arrays cannot be
    filled, and a primitive array takes no null.
  */
  function Stored(ndims: int, tag: int, x: JObject): Option<JObject> {
    if ndims == 3 then
      if tag == PLC_DATA_INT4 && x.JNum? then Some(x)
      else if tag == PLC_DATA_INT2 && x.JNum? && x.image != [] then Some(JNum(Le(Signed(x.image), 4)))
      else None
    else if tag == PLC_DATA_ARRAY || (IsScalar(tag) && x.JNull?) then None
    else Some(x)
  }

  function Store(ndims: int, tag: int, x: JObject, rest: Bytes): Read<JObject> {
    match Stored(ndims, tag, x)
    case Some(y) => Done(y, rest)
    case None => Thrown
  }

  /** The nested loops of ArrayArgument.getInstance; `dims` are those still to be walked. */
  function ReadNested(ndims: int, dims: seq<Int32>, e: JType, b: Bytes): (p: Read<JObject>)
    requires AllNat(dims)
    ensures !p.Missing?
    ensures p.Done? ==> |p.rest| <= |b|
    decreases e, 3, |dims|, 0
  {
    if dims == [] then
      var (a, r) :- ReadTyped(e, None, b);
      Store(ndims, e.dataType, a.value, r)
    else
      assert AllNat(dims[1..]);
      var (xs, r) :- ReadRepeated(ndims, dims[0], dims[1..], e, b);
      Done(JArray(xs), r)
  }

  function ReadRepeated(ndims: int, n: nat, dims: seq<Int32>, e: JType, b: Bytes): (p: Read<seq<JObject>>)
    requires AllNat(dims)
    ensures !p.Missing?
    ensures p.Done? ==> |p.value| == n && |p.rest| <= |b|
    decreases e, 3, |dims|, 1 + n
  {
    if n == 0 then Done([], b)
    else
      var (x, r) :- ReadNested(ndims, dims, e, b);
      var (xs, r') :- ReadRepeated(ndims, n - 1, dims, e, r);
      Done([x] + xs, r')
  }

  /** Argument.readArgument(ByteBuf) */
  function ReadArgument(b: Bytes): (p: Read<JArgument>)
    ensures p.Done? ==> |p.rest| < |b|
  {
    var (name, r) :- ReadString(b);
    var (t, r') :- ReadType(r);
    ReadTyped(t, Some(name), r')
  }

  // ---------------------------------------------------------------------
  // The request decoder
  // ---------------------------------------------------------------------

  datatype RequestState = WAITING | FUNCTION_NAME | FUNCTION_DEFINITION | OID | HAS_CHANGED
                        | RETURN_TYPE | SET_RETURNING | NUM_ARGUMENTS | ARGUMENTS

  datatype CallRequest = CallRequest(name: Name, definition: Name, oid: int, hasChanged: bool,
                                     returnType: Option<JType>, setReturning: bool, numArgs: int,
                                     args: seq<JArgument>)

  const NEW_REQUEST := CallRequest(None, None, 0, false, None, false, 0, [])

  datatype State = State(step: RequestState, request: CallRequest, argNumber: int)

  /** One call of decode: the state and the bytes it leaves, and the request it hands on. */
  datatype Step = Stepped(d: State, rest: Bytes, out: Option<CallRequest>) | Failed

  function DecodeStep(d: State, b: Bytes): Step
    requires b != []
  {
    match d.step
    case WAITING =>
      if b[0] == MT_CALLREQ then Stepped(d.(step := FUNCTION_NAME, request := NEW_REQUEST), b[1..], None)
      else Stepped(d, b[1..], None)
    case FUNCTION_NAME =>
      (match ReadString(b)
       case Done(s, r) => Stepped(d.(step := FUNCTION_DEFINITION, request := d.request.(name := ArgName(Some(s)))), r, None)
       case Missing(r) => Stepped(d, r, None))
    case FUNCTION_DEFINITION =>
      (match ReadString(b)
       case Done(s, r) => Stepped(d.(step := OID, request := d.request.(definition := ArgName(Some(s)))), r, None)
       case Missing(r) => Stepped(d, r, None))
    case OID =>
      (match ReadIntLE(b)
       case Done(x, r) => Stepped(d.(step := HAS_CHANGED, request := d.request.(oid := x)), r, None)
       case Thrown => Failed)
    case HAS_CHANGED =>
      (match ReadIntLE(b)
       case Done(x, r) => Stepped(d.(step := RETURN_TYPE, request := d.request.(hasChanged := x == 1)), r, None)
       case Thrown => Failed)
    case RETURN_TYPE =>
      (match ReadType(b)
       case Done(t, r) => Stepped(d.(step := SET_RETURNING, request := d.request.(returnType := Some(t))), r, None)
       case Missing(r) => Stepped(d.(step := SET_RETURNING, request := d.request.(returnType := None)), r, None)
       case Thrown => Failed)
    case SET_RETURNING =>
      (match ReadIntLE(b)
       case Done(x, r) => Stepped(d.(step := NUM_ARGUMENTS, request := d.request.(setReturning := x == 1)), r, None)
       case Thrown => Failed)
    case NUM_ARGUMENTS =>
      (match ReadIntLE(b)
       case Done(n, r) => CountStep(d, n, r)
       case Thrown => Failed)
    case ARGUMENTS => ArgumentStep(d, b)
  }

  /** A negative count makes the array allocation throw. */
  function CountStep(d: State, n: int, r: Bytes): Step {
    if n < 0 then Failed
    else
      var req := d.request.(numArgs := n, args := []);
      if n == 0 then Stepped(d.(step := WAITING, request := req), r, Some(req))
      else Stepped(d.(step := ARGUMENTS, request := req, argNumber := 0), r, None)
  }

  /** The state stays ARGUMENTS after the last argument. */
  function ArgumentStep(d: State, b: Bytes): Step {
    if d.argNumber >= d.request.numArgs then Stepped(d, b, None)
    else
      match ReadArgument(b)
      case Done(a, r) =>
        var req := d.request.(args := d.request.args + [a]);
        Stepped(d.(request := req, argNumber := d.argNumber + 1), r,
                if d.argNumber + 1 >= req.numArgs then Some(req) else None)
      case Missing(_) => Stepped(d, b, None)
      case Thrown => Failed
  }

  /** What a buffer leads to: the requests handed on, and what is left behind. */
  datatype Outcome = Outcome(d: State, rest: Bytes, out: seq<CallRequest>, failed: bool)

  function Before(reqs: seq<CallRequest>, o: Outcome): Outcome { o.(out := reqs + o.out) }

  /**
    The driver of a Netty ByteToMessageDecoder: decode while bytes remain and are
    consumed; handing on a request without consuming any is an error.
  */
  function DecodeAll(d: State, b: Bytes): Outcome
    decreases |b|
  {
    if b == [] then Outcome(d, b, [], false)
    else
      match DecodeStep(d, b)
      case Failed => Outcome(d, b, [], true)
      case Stepped(d', r, out) =>
        var here := if out.Some? then [out.value] else [];
        if |r| >= |b| then Outcome(d', r, here, out.Some?)
        else Before(here, DecodeAll(d', r))
  }
}
