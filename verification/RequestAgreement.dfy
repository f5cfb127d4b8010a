/**
  The two implementations agree on requests: the JVM side reads a call written by
  the backend as that same call, whatever bytes follow it, for every call whose
  values the JVM side has a representation for.
*/
module RequestAgreement {
  import opened Primitives
  import opened Wire
  import opened RoundTrip
  import opened JavaRequests
  import opened Shapes

  // ---------------------------------------------------------------------
  // What the backend's values are on the JVM side
  // ---------------------------------------------------------------------

  /** The ten data types, at every depth. */
  predicate JavaType(t: PlcType) {
    && PLC_DATA_INT1 <= t.tag <= PLC_DATA_BYTEA
    && (forall i | 0 <= i < |t.subTypes| :: JavaType(t.subTypes[i]))
  }

  predicate JavaTypes(ts: seq<PlcType>) { forall i | 0 <= i < |ts| :: JavaType(ts[i]) }

  function TypeView(t: PlcType): JType { JType(t.tag, ArgName(t.typeName), TypesView(t.subTypes)) }

  function TypesView(ts: seq<PlcType>): (js: seq<JType>)
    ensures |js| == |ts|
    ensures forall i | 0 <= i < |ts| :: js[i] == TypeView(ts[i])
  {
    if ts == [] then [] else [TypeView(ts[0])] + TypesView(ts[1..])
  }

  /** What an object becomes as an array element of its own. */
  predicate Storable(ndims: int, tag: int, v: Value) {
    && tag != PLC_DATA_ARRAY
    && (ndims == 3 ==> tag == PLC_DATA_INT2 || tag == PLC_DATA_INT4)
    && (IsScalar(tag) ==> v.Scalar?)
  }

  /**
    The values the JVM side can hold: texts with a string, arrays that are not null,
    have one to three dimensions and hold no null of a primitive type.
  */
  predicate JavaReads(t: PlcType, v: Value)
    requires Matches(t, v)
    decreases v
  {
    match v
    case Null => t.tag != PLC_DATA_ARRAY
    case Text(s) => s.Some?
    case Array(n, dims, elems) =>
      && 1 <= n <= 3 && AllNat(dims)
      && (forall i | 0 <= i < |elems| :: JavaReads(t.subTypes[0], elems[i]) && Storable(n, t.subTypes[0].tag, elems[i]))
    case Udt(fields) => forall i | 0 <= i < |fields| :: JavaReads(t.subTypes[i], fields[i])
    case _ => true
  }

  /** The flat element list cut into rows, planes and so on, row-major. */
  function Nest(dims: seq<Int32>, xs: seq<JObject>): JObject
    requires AllNat(dims) && |xs| == Prod(dims)
    decreases |dims|, 0
  {
    if dims == [] then xs[0]
    else
      assert AllNat(dims[1..]);
      JArray(Cut(dims[0], dims[1..], xs))
  }

  function Cut(n: nat, dims: seq<Int32>, xs: seq<JObject>): (rows: seq<JObject>)
    requires AllNat(dims) && |xs| == n * Prod(dims)
    ensures |rows| == n
    decreases |dims|, 1 + n
  {
    if n == 0 then []
    else
      var p := Prod(dims);
      OneLess(n, dims);
      [Nest(dims, xs[..p])] + Cut(n - 1, dims, xs[p..])
  }

  /** The element of a nested array at an index. */
  function At(x: JObject, path: seq<int>): Option<JObject>
    decreases |path|
  {
    if path == [] then Some(x)
    else if x.JArray? && 0 <= path[0] < |x.elems| then At(x.elems[path[0]], path[1..])
    else None
  }

  lemma {:induction false} CutAt(n: nat, dims: seq<Int32>, xs: seq<JObject>, i: nat, lo: int)
    requires AllNat(dims) && |xs| == n * Prod(dims) && i < n && lo == i * Prod(dims)
    ensures 0 <= lo <= lo + Prod(dims) <= |xs|
    ensures Cut(n, dims, xs)[i] == Nest(dims, xs[lo..lo + Prod(dims)])
    decreases i
  {
    hide Nest, Prod;
    var p := Prod(dims);
    ProdIsNat(dims);
    OneLess(n, dims);
    Digits(i, n, p, p);
    if i == 0 {
      assert lo == 0 && xs[0..p] == xs[..p];
    } else {
      OneLess(i, dims);
      CutAt(n - 1, dims, xs[p..], i - 1, lo - p);
      SliceOfRest(xs, p, lo - p, lo);
    }
  }

  lemma SliceOfRest<T>(xs: seq<T>, p: int, lo: int, hi: int)
    requires 0 <= p && 0 <= lo <= hi && p + hi <= |xs|
    ensures xs[p..][lo..hi] == xs[p + lo..p + hi]
  {
  }

  /** The nested array holds the flat list in row-major order. */
  lemma {:induction false} NestIsRowMajor(dims: seq<Int32>, xs: seq<JObject>, path: seq<int>)
    requires AllNat(dims) && |xs| == Prod(dims) && InRange(path, dims)
    ensures 0 <= Offset(path, dims) < |xs|
    ensures At(Nest(dims, xs), path) == Some(xs[Offset(path, dims)])
    decreases |dims|
  {
    hide Cut;
    OffsetInRange(path, dims);
    if dims != [] {
      var p := Prod(dims[1..]);
      var lo := path[0] * p;
      assert AllNat(dims[1..]) && InRange(path[1..], dims[1..]);
      CutAt(dims[0], dims[1..], xs, path[0], lo);
      NestIsRowMajor(dims[1..], xs[lo..lo + p], path[1..]);
      OffsetInRange(path[1..], dims[1..]);
    }
  }

  function ValueView(t: PlcType, v: Value): JObject
    requires Matches(t, v) && JavaReads(t, v)
    decreases v, 1
  {
    match v
    case Null => if t.tag == PLC_DATA_BYTEA then JBytes([]) else JNull
    case Scalar(b) => if t.tag == PLC_DATA_INT1 then JBool(b[0] != 0) else JNum(b)
    case Text(s) => JString(s.value)
    case Bytea(b) => JBytes(b)
    case Array(n, dims, elems) =>
      SizeIsProduct(1, dims);
      ProdIsNat(dims);
      Nest(dims, ElemsView(n, t.subTypes[0], elems))
    case Udt(fields) => JArgs(FieldsView(t.subTypes, fields))
    case Unsupported => JNull
  }

  /** An element as stored: a short in a three-dimensional array is widened to an int. */
  function ElemView(n: int, e: PlcType, v: Value): JObject
    requires Matches(e, v) && JavaReads(e, v) && Storable(n, e.tag, v)
    decreases v, 2
  {
    if n == 3 && e.tag == PLC_DATA_INT2 then JNum(Le(Signed(v.bytes), 4)) else ValueView(e, v)
  }

  predicate ReadableElems(n: int, e: PlcType, vs: seq<Value>) {
    forall i | 0 <= i < |vs| :: Matches(e, vs[i]) && JavaReads(e, vs[i]) && Storable(n, e.tag, vs[i])
  }

  predicate ReadableFields(ts: seq<PlcType>, vs: seq<Value>) {
    && |ts| == |vs|
    && (forall i | 0 <= i < |vs| :: Matches(ts[i], vs[i]) && JavaReads(ts[i], vs[i]))
  }

  function ElemsView(n: int, e: PlcType, vs: seq<Value>): (xs: seq<JObject>)
    requires ReadableElems(n, e, vs)
    ensures |xs| == |vs|
    decreases vs
  {
    if vs == [] then []
    else
      assert ReadableElems(n, e, vs[1..]);
      [ElemView(n, e, vs[0])] + ElemsView(n, e, vs[1..])
  }

  function FieldsView(ts: seq<PlcType>, vs: seq<Value>): (xs: seq<JArgument>)
    requires ReadableFields(ts, vs)
    ensures |xs| == |vs|
    decreases vs
  {
    if vs == [] then []
    else
      assert ReadableFields(ts[1..], vs[1..]);
      [JArgument(ArgName(ts[0].typeName), ts[0].tag, ValueView(ts[0], vs[0]))] + FieldsView(ts[1..], vs[1..])
  }

  // ---------------------------------------------------------------------
  // Strings and types
  // ---------------------------------------------------------------------

  lemma IntLEAgrees(x: Int32, s: Bytes)
    ensures ReadIntLE(Le(x, 4) + s) == Done(x, s)
  {
    Int32Back(x, s);
  }

  lemma ShortLEAgrees(x: Int16, s: Bytes)
    ensures ReadShortLE(Le(x, 2) + s) == Done(x, s)
  {
    Int16Back(x, s);
  }

  /** A null string and an empty one are the same on the JVM side. */
  lemma StringAgrees(x: CString, s: Bytes)
    requires ShortString(x)
    ensures ReadString(EncCString(x) + s) == Done(if x.Some? then x.value else [], s)
  {
    hide Le, DecInt32;
    match x
    case None => Int32Back(-1, s);
    case Some(b) =>
      assert EncCString(x) + s == Le(|b|, 4) + (b + s);
      Int32Back(|b|, b + s);
      assert (b + s)[..|b|] == b;
      assert (b + s)[|b|..] == s;
  }

  lemma TypeNameAgrees(x: CString, s: Bytes)
    requires ShortString(x)
    ensures ReadTypeName(EncCString(x) + s) == Done(ArgName(x), s)
  {
    hide Le, DecInt32;
    match x
    case None => Int32Back(-1, s);
    case Some(b) =>
      assert EncCString(x) + s == Le(|b|, 4) + (b + s);
      Int32Back(|b|, b + s);
      assert (b + s)[..|b|] == b;
      assert (b + s)[|b|..] == s;
  }

  /** A type is read as itself if its data types are known at every depth; otherwise reading it throws. */
  lemma {:induction false} TypeAgrees(t: PlcType, s: Bytes)
    requires GoodType(t)
    ensures ReadType(EncType(t) + s) == if JavaType(t) then Done(TypeView(t), s) else Thrown
    decreases t, 1
  {
    hide Le, EncCString, ReadTypeName, ReadShortLE;
    var tail := if IsNested(t.tag) then Le(t.nSubTypes, 2) + EncTypes(t.subTypes) else [];
    assert EncType(t) + s == [t.tag % 256] + (EncCString(t.typeName) + (tail + s));
    TypeNameAgrees(t.typeName, tail + s);
    if IsNested(t.tag) {
      assert tail + s == Le(t.nSubTypes, 2) + (EncTypes(t.subTypes) + s);
      ShortLEAgrees(t.nSubTypes, EncTypes(t.subTypes) + s);
      TypesAgree(t.subTypes, s);
    } else {
      assert tail + s == s;
    }
  }

  lemma {:induction false} TypesAgree(ts: seq<PlcType>, s: Bytes)
    requires forall i | 0 <= i < |ts| :: GoodType(ts[i])
    ensures ReadTypes(|ts|, EncTypes(ts) + s)
         == if JavaTypes(ts) then Done(TypesView(ts), s) else Thrown
    decreases ts, 0
  {
    hide EncType, TypeView, GoodType, JavaTypes, ReadType;
    if ts == [] {
      assert EncTypes(ts) + s == s;
      JavaTypesCons(ts);
    } else {
      assert EncTypes(ts) + s == EncType(ts[0]) + (EncTypes(ts[1..]) + s);
      TypeAgrees(ts[0], EncTypes(ts[1..]) + s);
      TypesAgree(ts[1..], s);
      JavaTypesCons(ts);
    }
  }

  lemma JavaTypesCons(ts: seq<PlcType>)
    ensures JavaTypes([])
    ensures ts != [] ==> (JavaTypes(ts) <==> JavaType(ts[0]) && JavaTypes(ts[1..]))
  {
    hide JavaType;
    assert forall i | 1 <= i < |ts| :: ts[i] == ts[1..][i - 1];
  }

  // ---------------------------------------------------------------------
  // Values
  // ---------------------------------------------------------------------

  /**
    An argument is read as its value, and no byte of what follows is touched, if the
    JVM side has a representation for it; otherwise reading it throws.
  */
  lemma {:induction false} TypedAgrees(t: PlcType, v: Value, name: Name, s: Bytes)
    requires JavaType(t) && Matches(t, v)
    ensures ReadTyped(TypeView(t), name, EncRaw(v) + s)
         == if JavaReads(t, v) then Done(JArgument(ArgName(name), t.tag, ValueView(t, v)), s) else Thrown
    decreases v, 1
  {
    hide EncBody, ReadData;
    if v.Null? {
      assert (EncRaw(v) + s)[1..] == s;
    } else {
      assert EncRaw(v) + s == [DATA] + (EncBody(v) + s);
      DataAgrees(t, v, s);
    }
  }

  lemma BlockAgrees(b: Bytes, s: Bytes)
    requires |b| <= INT_MAX
    ensures ReadBlock(Le(|b|, 4) + b + s) == Done(b, s)
  {
    hide Le, ReadIntLE;
    assert Le(|b|, 4) + b + s == Le(|b|, 4) + (b + s);
    IntLEAgrees(|b|, b + s);
    assert (b + s)[..|b|] == b;
    assert (b + s)[|b|..] == s;
  }

  lemma NullBlockThrows(s: Bytes)
    ensures ReadBlock(EncCString(None) + s) == Thrown
  {
    hide Le, ReadIntLE;
    IntLEAgrees(-1, s);
  }

  lemma ScalarAgrees(tag: int, b: Bytes, s: Bytes)
    requires IsScalar(tag) && |b| == Width(tag)
    ensures ReadScalar(tag, b + s) == Done(if tag == PLC_DATA_INT1 then JBool(b[0] != 0) else JNum(b), s)
  {
    assert (b + s)[..|b|] == b;
    assert (b + s)[|b|..] == s;
  }

  lemma {:induction false} DataAgrees(t: PlcType, v: Value, s: Bytes)
    requires JavaType(t) && Matches(t, v) && !v.Null?
    ensures ReadData(TypeView(t), EncBody(v) + s) == if JavaReads(t, v) then Done(ValueView(t, v), s) else Thrown
    decreases v, 0
  {
    hide Le, ReadIntLE, ReadScalar, ReadBlock, EncCString, ReadArray;
    match v
    case Scalar(b) => ScalarAgrees(t.tag, b, s);
    case Text(x) =>
      if x.Some? { TextIsBlock(x.value); BlockAgrees(x.value, s); } else { NullBlockThrows(s); }
    case Bytea(b) => BlockAgrees(b, s);
    case Array(_, _, _) => ArrayAgrees(t, v, s);
    case Udt(fields) => FieldsAgree(t.subTypes, fields, s);
    case Unsupported =>
  }

  lemma TextIsBlock(b: Bytes)
    ensures EncCString(Some(b)) == Le(|b|, 4) + b
  {
  }

  lemma {:induction false} ArrayAgrees(t: PlcType, v: Value, s: Bytes)
    requires JavaType(t) && Matches(t, v) && v.Array?
    ensures ReadArray(TypeView(t.subTypes[0]), EncBody(v) + s)
         == if JavaReads(t, v) then Done(ValueView(t, v), s) else Thrown
    decreases v, 0, 0
  {
    hide Le, ReadIntLE, ReadNested, Nest, EncInts;
    var n, dims, elems, e := v.ndims, v.dims, v.elems, t.subTypes[0];
    assert EncBody(v) + s == Le(n, 4) + (EncInts(dims) + (EncRaws(elems) + s));
    IntLEAgrees(n, EncInts(dims) + (EncRaws(elems) + s));
    if n >= 0 {
      IntsAgree(dims, EncRaws(elems) + s);
      IntsTake4(dims);
      if 1 <= n <= 3 && AllNat(dims) {
        SizeIsProduct(1, dims);
        ProdIsNat(dims);
        NestedAgrees(n, dims, e, elems, s);
      }
    }
  }

  lemma {:induction false} IntsAgree(xs: seq<Int32>, s: Bytes)
    ensures ReadInts(|xs|, EncInts(xs) + s) == Done(xs, s)
  {
    hide Le, ReadIntLE;
    if xs == [] {
      assert EncInts(xs) + s == s;
    } else {
      assert EncInts(xs) + s == Le(xs[0], 4) + (EncInts(xs[1..]) + s);
      IntLEAgrees(xs[0], EncInts(xs[1..]) + s);
      IntsAgree(xs[1..], s);
      HeadTail(xs);
    }
  }

  lemma {:induction false} IntsTake4(xs: seq<Int32>)
    ensures |EncInts(xs)| == 4 * |xs|
  {
    hide Le;
    if xs != [] {
      IntsTake4(xs[1..]);
    }
  }

  lemma {:induction false} RawsSplit(xs: seq<Value>, ys: seq<Value>)
    ensures EncRaws(xs + ys) == EncRaws(xs) + EncRaws(ys)
    decreases |xs|
  {
    hide EncRaw;
    if xs == [] {
      assert xs + ys == ys;
    } else {
      assert (xs + ys)[1..] == xs[1..] + ys;
      RawsSplit(xs[1..], ys);
      assert EncRaw(xs[0]) + (EncRaws(xs[1..]) + EncRaws(ys)) == EncRaw(xs[0]) + EncRaws(xs[1..]) + EncRaws(ys);
    }
  }

  lemma ReadableSplit(n: int, e: PlcType, vs: seq<Value>, k: nat)
    requires k <= |vs|
    ensures ReadableElems(n, e, vs) <==> ReadableElems(n, e, vs[..k]) && ReadableElems(n, e, vs[k..])
  {
    hide Matches, JavaReads, Storable;
    assert forall i | k <= i < |vs| :: vs[i] == vs[k..][i - k];
  }

  lemma {:induction false} ElemsViewSplit(n: int, e: PlcType, vs: seq<Value>, k: nat)
    requires ReadableElems(n, e, vs) && k <= |vs|
    ensures ReadableElems(n, e, vs[..k]) && ReadableElems(n, e, vs[k..])
    ensures ElemsView(n, e, vs)[..k] == ElemsView(n, e, vs[..k])
    ensures ElemsView(n, e, vs)[k..] == ElemsView(n, e, vs[k..])
  {
    hide ElemView, Matches, JavaReads, Storable;
    if k > 0 {
      assert ReadableElems(n, e, vs[1..]);
      ElemsViewSplit(n, e, vs[1..], k - 1);
      assert vs[..k][1..] == vs[1..][..k - 1];
    }
  }

  /** The nested loops rebuild the array from its flat element list, row-major. */
  lemma {:induction false} NestedAgrees(n: int, dims: seq<Int32>, e: PlcType, vs: seq<Value>, s: Bytes)
    requires JavaType(e) && AllNat(dims) && |vs| == Prod(dims)
    requires forall i | 0 <= i < |vs| :: Matches(e, vs[i])
    ensures ReadNested(n, dims, TypeView(e), EncRaws(vs) + s)
         == if ReadableElems(n, e, vs) then Done(Nest(dims, ElemsView(n, e, vs)), s) else Thrown
    decreases vs, 1, |dims|, 0
  {
    if dims == [] {
      ElementAgrees(n, e, vs, s);
    } else {
      assert AllNat(dims[1..]);
      RepeatedAgrees(n, dims[0], dims[1..], e, vs, s);
    }
  }

  lemma {:induction false} ElementAgrees(n: int, e: PlcType, vs: seq<Value>, s: Bytes)
    requires JavaType(e) && |vs| == 1 && Matches(e, vs[0])
    ensures ReadNested(n, [], TypeView(e), EncRaws(vs) + s)
         == if ReadableElems(n, e, vs) then Done(ElemsView(n, e, vs)[0], s) else Thrown
    decreases vs, 0
  {
    hide ReadTyped, EncRaw;
    var v := vs[0];
    assert EncRaws(vs) + s == EncRaw(v) + s;
    TypedAgrees(e, v, None, s);
    if JavaReads(e, v) {
      StoredIsElemView(n, e, v);
    }
  }

  lemma StoredIsElemView(n: int, e: PlcType, v: Value)
    requires JavaType(e) && Matches(e, v) && JavaReads(e, v)
    ensures Stored(n, e.tag, ValueView(e, v)) == if Storable(n, e.tag, v) then Some(ElemView(n, e, v)) else None
  {
  }

  lemma NoRaws(s: Bytes)
    ensures EncRaws([]) + s == s
  {
  }

  lemma {:induction false} RepeatedAgrees(n: int, k: nat, dims: seq<Int32>, e: PlcType, vs: seq<Value>, s: Bytes)
    requires JavaType(e) && AllNat(dims) && |vs| == k * Prod(dims)
    requires forall i | 0 <= i < |vs| :: Matches(e, vs[i])
    ensures ReadRepeated(n, k, dims, TypeView(e), EncRaws(vs) + s)
         == if ReadableElems(n, e, vs) then Done(Cut(k, dims, ElemsView(n, e, vs)), s) else Thrown
    decreases vs, 1, |dims|, 1 + k
  {
    hide ReadNested, Nest, ElemsView, ReadableElems, JavaType, Matches, EncRaws, Prod;
    if k == 0 {
      assert vs == [];
      NoRaws(s);
      NoElems(n, e);
    } else {
      var p := Prod(dims);
      OneLess(k, dims);
      var xs, ys := vs[..p], vs[p..];
      assert vs == xs + ys;
      if p == |vs| { assert xs == vs; }
      RawsSplit(xs, ys);
      ReadableSplit(n, e, vs, p);
      assert EncRaws(vs) + s == EncRaws(xs) + (EncRaws(ys) + s);
      NestedAgrees(n, dims, e, xs, EncRaws(ys) + s);
      if ReadableElems(n, e, xs) {
        RepeatedAgrees(n, k - 1, dims, e, ys, s);
        if ReadableElems(n, e, ys) {
          ElemsViewSplit(n, e, vs, p);
        }
      }
    }
  }

  lemma NoElems(n: int, e: PlcType)
    ensures ReadableElems(n, e, [])
  {
  }

  lemma {:induction false} FieldsAgree(ts: seq<PlcType>, vs: seq<Value>, s: Bytes)
    requires |ts| == |vs|
    requires forall i | 0 <= i < |ts| :: JavaType(ts[i]) && Matches(ts[i], vs[i])
    ensures ReadFields(TypesView(ts), EncRaws(vs) + s)
         == if ReadableFields(ts, vs) then Done(FieldsView(ts, vs), s) else Thrown
    decreases vs, 0
  {
    hide ReadTyped, EncRaw, JavaReads, Matches, JavaType, TypeView;
    if vs == [] {
      assert EncRaws(vs) + s == s;
    } else {
      var s' := EncRaws(vs[1..]) + s;
      assert EncRaws(vs) + s == EncRaw(vs[0]) + s';
      TypedAgrees(ts[0], vs[0], ArgName(ts[0].typeName), s');
      FieldsAgree(ts[1..], vs[1..], s);
      ReadableCons(ts, vs);
      assert TypesView(ts)[1..] == TypesView(ts[1..]);
      TypeViewName(ts[0]);
    }
  }

  lemma TypeViewName(t: PlcType)
    ensures TypeView(t).typeName == ArgName(t.typeName)
  {
  }

  lemma ReadableCons(ts: seq<PlcType>, vs: seq<Value>)
    requires |ts| == |vs| > 0 && Matches(ts[0], vs[0])
    ensures ReadableFields(ts, vs) <==> JavaReads(ts[0], vs[0]) && ReadableFields(ts[1..], vs[1..])
  {
    hide JavaReads, Matches;
    assert forall i | 1 <= i < |vs| :: vs[i] == vs[1..][i - 1] && ts[i] == ts[1..][i - 1];
  }

  // ---------------------------------------------------------------------
  // Requests
  // ---------------------------------------------------------------------

  predicate JavaArgument(a: Argument)
    requires GoodArgument(a)
  {
    JavaType(a.typ) && JavaReads(a.typ, a.data)
  }

  predicate JavaCall(m: Message)
    requires m.Call? && GoodMsg(m)
  {
    JavaType(m.retType) && (forall i | 0 <= i < |m.args| :: JavaArgument(m.args[i]))
  }

  function ArgumentView(a: Argument): JArgument
    requires GoodArgument(a) && JavaArgument(a)
  {
    JArgument(ArgName(a.name), a.typ.tag, ValueView(a.typ, a.data))
  }

  predicate Readable(args: seq<Argument>) { forall i | 0 <= i < |args| :: GoodArgument(args[i]) && JavaArgument(args[i]) }

  function ArgumentsView(args: seq<Argument>): (js: seq<JArgument>)
    requires Readable(args)
    ensures |js| == |args|
  {
    seq(|args|, i requires 0 <= i < |args| => ArgumentView(args[i]))
  }

  /** An oid is unsigned on one side and an int on the other. */
  function AsInt(x: UInt32): Int32 { if x <= INT_MAX then x else x - 0x1_0000_0000 }

  /** The request that says what the call says, as far as the JVM side can: null and empty strings are one. */
  function RequestView(m: Message): CallRequest
    requires m.Call? && GoodMsg(m) && JavaCall(m)
  {
    CallRequest(ArgName(m.name), ArgName(m.src), AsInt(m.objectid), m.hasChanged == 1,
                Some(TypeView(m.retType)), m.retset == 1, |m.args|, ArgumentsView(m.args))
  }

  lemma OidAgrees(x: UInt32, s: Bytes)
    ensures ReadIntLE(Le(x, 4) + s) == Done(AsInt(x), s)
  {
    hide Le, ReadIntLE;
    Powers();
    LeWraps(AsInt(x), 4);
    IntLEAgrees(AsInt(x), s);
  }

  lemma ArgumentAgrees(a: Argument, s: Bytes)
    requires GoodArgument(a)
    ensures ReadArgument(EncArgument(a) + s) == if JavaArgument(a) then Done(ArgumentView(a), s) else Thrown
  {
    hide EncCString, EncType, EncRaw, ReadString, ReadType, ReadTyped;
    var r := EncRaw(a.data) + s;
    assert EncArgument(a) + s == EncCString(a.name) + (EncType(a.typ) + r);
    StringAgrees(a.name, EncType(a.typ) + r);
    TypeAgrees(a.typ, r);
    if JavaType(a.typ) {
      var name := if a.name.Some? then a.name.value else [];
      TypedAgrees(a.typ, a.data, Some(name), s);
      assert ArgName(Some(name)) == ArgName(a.name);
    }
  }

  /** A step that hands nothing on is followed by the rest of the run. */
  lemma Advance(d: State, b: Bytes, d': State, r: Bytes)
    requires b != [] && |r| < |b|
    requires DecodeStep(d, b) == Stepped(d', r, None)
    ensures DecodeAll(d, b) == DecodeAll(d', r)
  {
    hide DecodeStep;
    assert [] + DecodeAll(d', r).out == DecodeAll(d', r).out;
  }

  predicate Spent(d: State) { d.step == ARGUMENTS && d.argNumber >= d.request.numArgs }

  /** Once a request with arguments has been handed on, the decoder never reads again. */
  lemma SpentReadsNothing(d: State, s: Bytes)
    requires Spent(d)
    ensures DecodeAll(d, s) == Outcome(d, s, [], false)
  {
  }

  /** The state once the arguments `args` still to come have been read. */
  function After(d: State, args: seq<Argument>): State
    requires Readable(args)
  {
    d.(argNumber := d.argNumber + |args|, request := d.request.(args := d.request.args + ArgumentsView(args)))
  }

  lemma {:induction false} ArgumentsAgree(d: State, args: seq<Argument>, s: Bytes)
    requires d.step == ARGUMENTS && args != [] && d.argNumber + |args| == d.request.numArgs
    requires forall i | 0 <= i < |args| :: GoodArgument(args[i])
    ensures if Readable(args) then DecodeAll(d, EncArguments(args) + s) == Outcome(After(d, args), s, [After(d, args).request], false)
            else var o := DecodeAll(d, EncArguments(args) + s); o.failed && o.out == []
    decreases |args|
  {
    hide EncArgument, ReadArgument, ArgumentView, GoodArgument, JavaArgument, Readable, DecodeAll, DecodeStep;
    var a, s' := args[0], EncArguments(args[1..]) + s;
    assert EncArguments(args) + s == EncArgument(a) + s';
    FirstArgumentAgrees(d, a, s');
    ReadableFirst(args);
    if JavaArgument(a) {
      var d' := Took(d, a);
      if |args| == 1 {
        assert s' == s;
        ReadableFirst(args[1..]);
        assert ArgumentsView(args) == [ArgumentView(a)];
      } else {
        ArgumentsAgree(d', args[1..], s);
        if Readable(args[1..]) {
          assert [ArgumentView(a)] + ArgumentsView(args[1..]) == ArgumentsView(args);
          ConcatAssoc(d.request.args, [ArgumentView(a)], ArgumentsView(args[1..]));
        }
      }
    }
  }

  lemma ReadableFirst(args: seq<Argument>)
    ensures args == [] ==> Readable(args)
    ensures args != [] && GoodArgument(args[0]) ==> (Readable(args) <==> JavaArgument(args[0]) && Readable(args[1..]))
  {
    hide GoodArgument, JavaArgument;
    assert forall i | 1 <= i < |args| :: args[i] == args[1..][i - 1];
  }

  function Took(d: State, a: Argument): State
    requires GoodArgument(a) && JavaArgument(a)
  {
    d.(request := d.request.(args := d.request.args + [ArgumentView(a)]), argNumber := d.argNumber + 1)
  }

  lemma FirstArgumentAgrees(d: State, a: Argument, s: Bytes)
    requires d.step == ARGUMENTS && d.argNumber < d.request.numArgs && GoodArgument(a)
    ensures var o := DecodeAll(d, EncArgument(a) + s);
      if !JavaArgument(a) then o.failed && o.out == []
      else if d.argNumber + 1 < d.request.numArgs then o == DecodeAll(Took(d, a), s)
      else o == Outcome(Took(d, a), s, [Took(d, a).request], false)
  {
    hide EncArgument, ReadArgument, ArgumentView, GoodArgument, JavaArgument;
    ArgumentIsSome(a);
    ArgumentAgrees(a, s);
    if JavaArgument(a) {
      if d.argNumber + 1 < d.request.numArgs {
        Advance(d, EncArgument(a) + s, Took(d, a), s);
      } else {
        SpentReadsNothing(Took(d, a), s);
      }
    }
  }

  lemma ArgumentIsSome(a: Argument)
    ensures |EncArgument(a)| > 0
  {
  }

  /** From the return type on. */
  lemma TailAgrees(d: State, m: Message, s: Bytes)
    requires m.Call? && GoodMsg(m) && JavaType(m.retType) && d.step == RETURN_TYPE
    ensures var b := EncType(m.retType) + (Le(m.retset, 4) + (Le(|m.args|, 4) + (EncArguments(m.args) + s)));
      DecodeAll(d, b) == DecodeAll(Ready(d, m), Le(|m.args|, 4) + (EncArguments(m.args) + s))
  {
    hide Le, EncType, EncArguments, ReadType, ReadIntLE, TypeView, JavaType, GoodType, DecodeAll;
    var s7 := Le(|m.args|, 4) + (EncArguments(m.args) + s);
    var s6 := Le(m.retset, 4) + s7;
    TypeAgrees(m.retType, s6);
    TypeIsSome(m.retType);
    var d5 := d.(step := SET_RETURNING, request := d.request.(returnType := Some(TypeView(m.retType))));
    Advance(d, EncType(m.retType) + s6, d5, s6);
    IntLEAgrees(m.retset, s7);
    Advance(d5, s6, Ready(d, m), s7);
  }

  lemma TypeIsSome(t: PlcType)
    ensures |EncType(t)| > 0
  {
  }

  function Ready(d: State, m: Message): State
    requires m.Call?
  {
    d.(step := NUM_ARGUMENTS,
       request := d.request.(returnType := Some(TypeView(m.retType)), setReturning := m.retset == 1))
  }

  /** Up to the return type. */
  lemma HeadAgrees(d: State, m: Message, r: Bytes)
    requires m.Call? && GoodMsg(m) && d.step == WAITING
    ensures var b := [MT_CALLREQ] + (EncCString(m.name) + (EncCString(m.src) + (Le(m.objectid, 4) + (Le(m.hasChanged, 4) + r))));
      DecodeAll(d, b) == DecodeAll(Headed(d, m), r)
  {
    hide Le, EncCString, ReadString, ReadIntLE, DecodeAll;
    var s4 := Le(m.hasChanged, 4) + r;
    var s3 := Le(m.objectid, 4) + s4;
    var s2 := EncCString(m.src) + s3;
    var s1 := EncCString(m.name) + s2;
    var d1 := d.(step := FUNCTION_NAME, request := NEW_REQUEST);
    Advance(d, [MT_CALLREQ] + s1, d1, s1);
    StringAgrees(m.name, s2);
    var d2 := d1.(step := FUNCTION_DEFINITION, request := d1.request.(name := ArgName(m.name)));
    Advance(d1, s1, d2, s2);
    StringAgrees(m.src, s3);
    var d3 := d2.(step := OID, request := d2.request.(definition := ArgName(m.src)));
    Advance(d2, s2, d3, s3);
    OidAgrees(m.objectid, s4);
    var d4 := d3.(step := HAS_CHANGED, request := d3.request.(oid := AsInt(m.objectid)));
    Advance(d3, s3, d4, s4);
    IntLEAgrees(m.hasChanged, r);
    Advance(d4, s4, Headed(d, m), r);
  }

  function Headed(d: State, m: Message): State
    requires m.Call?
  {
    State(RETURN_TYPE, CallRequest(ArgName(m.name), ArgName(m.src), AsInt(m.objectid), m.hasChanged == 1, None, false, 0, []),
          d.argNumber)
  }

  lemma CallInParts(m: Message, s: Bytes)
    requires m.Call?
    ensures EncMsg(m) + s
         == [MT_CALLREQ] + (EncCString(m.name) + (EncCString(m.src) + (Le(m.objectid, 4) + (Le(m.hasChanged, 4)
            + (EncType(m.retType) + (Le(m.retset, 4) + (Le(|m.args|, 4) + (EncArguments(m.args) + s))))))))
  {
    hide Le, EncCString, EncType, EncArguments;
  }

  /**
    A buffered call from the backend makes the JVM side hand on exactly one request,
    the equal one, if it can read the call at all; otherwise it throws and hands on
    nothing.  A call without arguments leaves the decoder waiting for the next; a
    call with arguments leaves it at the first byte after the call, for good.
  */
  lemma RequestAgrees(d: State, m: Message, s: Bytes)
    requires m.Call? && GoodMsg(m) && d.step == WAITING
    ensures var o := DecodeAll(d, EncMsg(m) + s);
      if !JavaCall(m) then o.failed && o.out == []
      else if m.args == [] then o == Before([RequestView(m)], DecodeAll(State(WAITING, RequestView(m), d.argNumber), s))
      else o == Outcome(State(ARGUMENTS, RequestView(m), |m.args|), s, [RequestView(m)], false)
  {
    hide Le, EncMsg, EncCString, EncType, EncArguments, ReadType, ReadIntLE, TypeView, JavaType, GoodType, JavaArgument, GoodArgument;
    var r := Le(|m.args|, 4) + (EncArguments(m.args) + s);
    var s5 := EncType(m.retType) + (Le(m.retset, 4) + r);
    CallInParts(m, s);
    HeadAgrees(d, m, s5);
    var d4 := Headed(d, m);
    if JavaType(m.retType) {
      TailAgrees(d4, m, s);
      IntLEAgrees(|m.args|, EncArguments(m.args) + s);
      CountAgrees(Ready(d4, m), m, s);
    } else {
      TypeAgrees(m.retType, Le(m.retset, 4) + r);
      TypeIsSome(m.retType);
    }
  }

  /** From the argument count on. */
  lemma CountAgrees(d: State, m: Message, s: Bytes)
    requires m.Call? && GoodMsg(m) && d.step == NUM_ARGUMENTS
    ensures var o := DecodeAll(d, Le(|m.args|, 4) + (EncArguments(m.args) + s));
      if !Readable(m.args) then o.failed && o.out == []
      else var req := d.request.(numArgs := |m.args|, args := ArgumentsView(m.args));
        if m.args == [] then o == Before([req], DecodeAll(State(WAITING, req, d.argNumber), s))
        else o == Outcome(State(ARGUMENTS, req, |m.args|), s, [req], false)
  {
    hide Le, ReadIntLE, GoodArgument, JavaArgument, EncArgument;
    var r := EncArguments(m.args) + s;
    IntLEAgrees(|m.args|, r);
    if m.args == [] {
      assert r == s;
    } else {
      var d' := d.(step := ARGUMENTS, request := d.request.(numArgs := |m.args|, args := []), argNumber := 0);
      Advance(d, Le(|m.args|, 4) + r, d', r);
      ArgumentsAgree(d', m.args, s);
      if Readable(m.args) {
        assert [] + ArgumentsView(m.args) == ArgumentsView(m.args);
      }
    }
  }

  function RequestsView(ms: seq<Message>): seq<CallRequest>
    requires forall i | 0 <= i < |ms| :: ms[i].Call? && GoodMsg(ms[i]) && JavaCall(ms[i])
  {
    seq(|ms|, i requires 0 <= i < |ms| => RequestView(ms[i]))
  }

  /** A stream of calls without arguments becomes the same requests, in order, and no byte over. */
  lemma {:induction false} RequestsAgree(d: State, ms: seq<Message>)
    requires d.step == WAITING
    requires forall i | 0 <= i < |ms| :: ms[i].Call? && GoodMsg(ms[i]) && JavaCall(ms[i]) && ms[i].args == []
    ensures var o := DecodeAll(d, EncMsgs(ms)); !o.failed && o.rest == [] && o.out == RequestsView(ms)
    decreases |ms|
  {
    hide EncMsg, GoodMsg, JavaCall, RequestView;
    if ms != [] {
      RequestAgrees(d, ms[0], EncMsgs(ms[1..]));
      RequestsAgree(State(WAITING, RequestView(ms[0]), d.argNumber), ms[1..]);
      assert RequestsView(ms) == [RequestView(ms[0])] + RequestsView(ms[1..]);
    }
  }

  /**
    Why the whole request has to be buffered: a buffer that ends between a name's
    length and its body leaves the decoder as if the length had never come.
  */
  lemma LengthIsForgotten(d: State, n: Int32)
    requires d.step == WAITING && n > 0
    ensures DecodeAll(d, [MT_CALLREQ] + Le(n, 4)) == DecodeAll(d, [MT_CALLREQ])
  {
    hide Le, DecInt32;
    var d1 := d.(step := FUNCTION_NAME, request := NEW_REQUEST);
    Advance(d, [MT_CALLREQ] + Le(n, 4), d1, Le(n, 4));
    Advance(d, [MT_CALLREQ], d1, []);
    Int32Back(n, []);
    assert Le(n, 4) + [] == Le(n, 4);
    Advance(d1, Le(n, 4), d1, []);
  }
}
