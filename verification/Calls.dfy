/**
  A call from the catalog to the JVM: the names, types and values it bears, stated
  apart from the code that builds the request, sends it and reads it.
*/
module Calls {
  import opened Primitives
  import opened Wire
  import opened Shapes
  import opened Catalog
  import opened Descriptions
  import opened TypeIO
  import opened TypeIn
  import QA = RequestAgreement
  import JR = JavaRequests

  // ---------------------------------------------------------------------
  // The request as it is built
  // ---------------------------------------------------------------------

  /** The wire type says what the catalog says of the type, without its dropped attributes. */
  ghost predicate BearsType(cat: Snapshot, call: Option<TupleDesc>, oid: Oid, w: PlcType) {
    exists t :: Describes(cat, call, oid, t, None, false, false) && Copied(w, t)
  }

  /** The same of an argument, which bears its declared name and the value of its datum too. */
  ghost predicate BearsArgument(cat: Snapshot, call: Option<TupleDesc>, row: ProcRow, i: nat, d: Datum, a: Argument)
    requires i < |row.proargtypes|
  {
    && IsArgumentName(row, i, a.name)
    && (exists t :: Describes(cat, call, row.proargtypes[i], t, None, false, false) && Copied(a.typ, t) && Holding(t, d, a.data))
  }

  /** The message calls the function as the catalog has it, on these arguments. */
  ghost predicate IsCallOf(m: Message, cat: Snapshot, call: Option<TupleDesc>, oid: Oid, hasChanged: Int32, args: seq<Datum>) {
    && m.Call? && oid in cat.procs
    && var row := cat.procs[oid];
    && m.name.Some? && m.name == row.proname && m.src.Some? && m.src == row.prosrc
    && m.objectid == oid && m.hasChanged == hasChanged
    && m.retset == (if row.retset then 1 else 0)
    && BearsType(cat, call, row.prorettype, m.retType)
    && |m.args| == |args| == |row.proargtypes|
    && (forall i | 0 <= i < |args| :: BearsArgument(cat, call, row, i, args[i], m.args[i]))
  }

  /** From catalog row and datums to request. */
  lemma CreatedIsCall(cat: Snapshot, call: Option<TupleDesc>, oid: Oid, hasChanged: Int32, args: seq<Datum>)
    requires WellFormed(cat) && oid < 0x1_0000_0000
    requires Build(cat, call, oid).Some? && ArgumentsFit(Build(cat, call, oid).value, args)
    ensures IsCallOf(CreateCall(Build(cat, call, oid).value, hasChanged, args), cat, call, oid, hasChanged, args)
  {
    hide Build, WellFormed, Describes, IsArgumentName, Copied, Holding, Fits, OutFunc, CopyType;
    var d := Build(cat, call, oid).value;
    BuiltDescribes(cat, call, oid, d);
    var row := cat.procs[oid];
    CopyIsCopied(d.rettype);
    var m := CreateCall(d, hasChanged, args);
    forall i | 0 <= i < |args| ensures BearsArgument(cat, call, row, i, args[i], m.args[i]) {
      CopyIsCopied(d.argtypes[i]);
      OutIsHolding(d.argtypes[i], args[i]);
    }
  }

  // ---------------------------------------------------------------------
  // The request as the JVM side sees it
  // ---------------------------------------------------------------------

  /** On the JVM side an empty name is none. */
  predicate NameShown(n: CString, j: JR.Name) {
    if n.Some? && n.value != [] then j == n else j == None
  }

  predicate ShowsType(t: TypeInfo, j: JR.JType)
    decreases t
  {
    && j.dataType == t.tag && NameShown(t.typeName, j.typeName)
    && |j.subTypes| == LiveBefore(t.subTypes, |t.subTypes|)
    && (forall p | 0 <= p < |t.subTypes| && !t.subTypes[p].attisdropped ::
          && LiveBefore(t.subTypes, p) < |j.subTypes|
          && ShowsType(t.subTypes[p], j.subTypes[LiveBefore(t.subTypes, p)]))
  }

  /**
    The object shows the datum: scalars by their bytes, arrays element by element
    at every index, rows attribute by attribute and under its name.  In three
    dimensions a short is widened to an int of the same value.
  */
  ghost predicate Shows(t: TypeInfo, d: Datum, x: JR.JObject)
    decreases d
  {
    match d
    case NullDatum => x == if t.tag == PLC_DATA_BYTEA then JR.JBytes([]) else JR.JNull
    case Fixed(b) =>
      if t.tag == PLC_DATA_INT1 then b != [] && x == JR.JBool(b[0] != 0) else x == JR.JNum(b)
    case TextDatum(b) => x == JR.JString(b)
    case ByteaDatum(b) => x == JR.JBytes(b)
    case ArrayDatum(dims, _, elems) =>
      && |t.subTypes| == 1
      && (forall path | InRange(path, dims) ::
            && 0 <= Offset(path, dims) < |elems| && QA.At(x, path).Some?
            && var e, y := elems[Offset(path, dims)], QA.At(x, path).value;
               if |dims| == 3 && t.subTypes[0].tag == PLC_DATA_INT2 then Widened(e, y)
               else Shows(t.subTypes[0], e, y))
    case RowDatum(attrs) =>
      && x.JArgs? && |attrs| == |t.subTypes| && |x.args| == LiveBefore(t.subTypes, |t.subTypes|)
      && (forall p | 0 <= p < |attrs| && !t.subTypes[p].attisdropped ::
            && LiveBefore(t.subTypes, p) < |x.args|
            && var a := x.args[LiveBefore(t.subTypes, p)];
               NameShown(t.subTypes[p].typeName, a.name) && a.dataType == t.subTypes[p].tag
               && Shows(t.subTypes[p], attrs[p], a.value))
  }

  predicate Widened(d: Datum, x: JR.JObject) {
    && d.Fixed? && |d.bytes| == 2 && x.JNum? && |x.image| == 4 && Signed(x.image) == Signed(d.bytes)
  }

  ghost predicate ShowsArgument(cat: Snapshot, call: Option<TupleDesc>, row: ProcRow, i: nat, d: Datum, a: JR.JArgument)
    requires i < |row.proargtypes|
  {
    && IsArgumentName(row, i, a.name)
    && (exists t :: Describes(cat, call, row.proargtypes[i], t, None, false, false) && a.dataType == t.tag && Shows(t, d, a.value))
  }

  ghost predicate ShowsResult(cat: Snapshot, call: Option<TupleDesc>, oid: Oid, j: JR.JType) {
    exists t :: Describes(cat, call, oid, t, None, false, false) && ShowsType(t, j)
  }

  /** The request calls the function as the catalog has it, on these arguments. */
  ghost predicate IsRequestOf(q: JR.CallRequest, cat: Snapshot, call: Option<TupleDesc>, oid: Oid, hasChanged: Int32, args: seq<Datum>) {
    && oid in cat.procs
    && var row := cat.procs[oid];
    && NameShown(row.proname, q.name) && NameShown(row.prosrc, q.definition)
    && q.oid == (if oid <= INT_MAX then oid else oid - 0x1_0000_0000)
    && (q.hasChanged <==> hasChanged == 1) && (q.setReturning <==> row.retset)
    && q.returnType.Some? && ShowsResult(cat, call, row.prorettype, q.returnType.value)
    && q.numArgs == |q.args| == |args| == |row.proargtypes|
    && (forall i | 0 <= i < |args| :: ShowsArgument(cat, call, row, i, args[i], q.args[i]))
  }

  lemma {:induction false} ViewShowsType(t: TypeInfo)
    ensures ShowsType(t, QA.TypeView(CopyType(t)))
    decreases t
  {
    hide LiveBefore, CopyTypes, QA.TypesView;
    CopiesInPlace(t.subTypes);
    forall p | 0 <= p < |t.subTypes| ensures ShowsType(t.subTypes[p], QA.TypeView(CopyType(t.subTypes[p]))) {
      ViewShowsType(t.subTypes[p]);
    }
  }

  /**
    The JVM side can represent the datum: arrays that are not null, have one to three
    dimensions, hold shorts or ints if they have three, and no null of a primitive type.
  */
  predicate JvmHolds(t: TypeInfo, d: Datum)
    requires Fits(t, d)
    decreases d
  {
    match d
    case NullDatum => t.tag != PLC_DATA_ARRAY
    case ArrayDatum(dims, _, elems) =>
      && 1 <= |dims| <= 3 && (forall i | 0 <= i < |dims| :: dims[i] >= 0)
      && (forall i | 0 <= i < |elems| ::
            && JvmHolds(t.subTypes[0], elems[i])
            && (|dims| == 3 ==> t.subTypes[0].tag == PLC_DATA_INT2 || t.subTypes[0].tag == PLC_DATA_INT4)
            && (IsScalar(t.subTypes[0].tag) ==> elems[i] != NullDatum))
    case RowDatum(attrs) =>
      forall p | 0 <= p < |attrs| && !t.subTypes[p].attisdropped :: JvmHolds(t.subTypes[p], attrs[p])
    case _ => true
  }

  /** The JVM side reads the wire value exactly when it can represent the datum. */
  lemma {:induction false} ReadsWhatItHolds(t: TypeInfo, d: Datum, e: bool, u: bool)
    requires WellFilled(t, e, u) && Fits(t, d)
    ensures Matches(CopyType(t), OutFunc(t, d))
    ensures QA.JavaReads(CopyType(t), OutFunc(t, d)) <==> JvmHolds(t, d)
    decreases d
  {
    OutMatchesType(t, d, e, u);
    match d
    case ArrayDatum(dims, _, elems) => ArrayIsRead(t, dims, d.lbounds, elems, e, u);
    case RowDatum(attrs) => RowIsRead(t, attrs, e, u);
    case _ =>
  }

  lemma {:induction false} ArrayIsRead(t: TypeInfo, dims: seq<Int32>, lbounds: seq<Int32>, elems: seq<Datum>, e: bool, u: bool)
    requires WellFilled(t, e, u) && Fits(t, ArrayDatum(dims, lbounds, elems))
    requires Matches(CopyType(t), OutFunc(t, ArrayDatum(dims, lbounds, elems)))
    ensures var d := ArrayDatum(dims, lbounds, elems);
      QA.JavaReads(CopyType(t), OutFunc(t, d)) <==> JvmHolds(t, d)
    decreases elems, 0
  {
    var sub := t.subTypes[0];
    ElemsInPlace(sub, elems);
    CopiesInPlace(t.subTypes);
    var w := CopyType(t).subTypes[0];
    assert LiveBefore(t.subTypes, 0) == 0 && w == CopyType(sub);
    forall i | 0 <= i < |elems|
      ensures Matches(w, OutFunc(sub, elems[i]))
      ensures QA.JavaReads(w, OutFunc(sub, elems[i])) <==> JvmHolds(sub, elems[i])
      ensures QA.Storable(|dims|, w.tag, OutFunc(sub, elems[i]))
         <==> (|dims| == 3 ==> sub.tag == PLC_DATA_INT2 || sub.tag == PLC_DATA_INT4)
              && (IsScalar(sub.tag) ==> elems[i] != NullDatum)
    {
      ReadsWhatItHolds(sub, elems[i], true, u);
      if IsScalar(sub.tag) {
        ScalarOrNull(sub, elems[i]);
      }
    }
  }

  lemma {:induction false} RowIsRead(t: TypeInfo, attrs: seq<Datum>, e: bool, u: bool)
    requires WellFilled(t, e, u) && Fits(t, RowDatum(attrs))
    requires Matches(CopyType(t), OutFunc(t, RowDatum(attrs)))
    ensures QA.JavaReads(CopyType(t), OutFunc(t, RowDatum(attrs))) <==> JvmHolds(t, RowDatum(attrs))
    decreases attrs, 0
  {
    hide OutFields, CopyTypes, LiveBefore;
    var ts, ws, vs := t.subTypes, CopyTypes(t.subTypes), OutFields(t.subTypes, attrs);
    FieldsInPlace(ts, attrs);
    CopiesInPlace(ts);
    forall p | 0 <= p < |ts| && !ts[p].attisdropped
      ensures Matches(CopyType(ts[p]), OutFunc(ts[p], attrs[p]))
      ensures QA.JavaReads(CopyType(ts[p]), OutFunc(ts[p], attrs[p])) <==> JvmHolds(ts[p], attrs[p])
    {
      ReadsWhatItHolds(ts[p], attrs[p], false, true);
    }
    hide Fits, WellFilled, CopyType, OutFunc;
    if JvmHolds(t, RowDatum(attrs)) {
      forall k | 0 <= k < |vs| ensures QA.JavaReads(ws[k], vs[k]) {
        var p := LiveAt(ts, k);
        assert JvmHolds(ts[p], attrs[p]);
      }
    }
    if forall k | 0 <= k < |vs| :: QA.JavaReads(ws[k], vs[k]) {
      forall p | 0 <= p < |ts| && !ts[p].attisdropped ensures JvmHolds(ts[p], attrs[p]) {
        assert QA.JavaReads(ws[LiveBefore(ts, p)], vs[LiveBefore(ts, p)]);
      }
    }
  }

  /** Every place in the copy is that of some attribute. */
  lemma {:induction false} LiveAt(ts: seq<TypeInfo>, k: nat) returns (p: nat)
    requires k < LiveBefore(ts, |ts|)
    ensures p < |ts| && !ts[p].attisdropped && LiveBefore(ts, p) == k
  {
    p := |ts|;
    while LiveBefore(ts, p) > k
      invariant p <= |ts| && LiveBefore(ts, p) >= k && (p == |ts| || p < |ts|)
      invariant LiveBefore(ts, p) == k ==> p < |ts| && !ts[p].attisdropped
      decreases p
    {
      p := p - 1;
    }
  }

  lemma ScalarOrNull(t: TypeInfo, d: Datum)
    requires Fits(t, d) && IsScalar(t.tag)
    ensures OutFunc(t, d).Scalar? <==> d != NullDatum
  {
  }

  lemma {:induction false} ElemsViewAt(n: int, e: PlcType, vs: seq<Value>, i: nat)
    requires QA.ReadableElems(n, e, vs) && i < |vs|
    ensures QA.ElemsView(n, e, vs)[i] == QA.ElemView(n, e, vs[i])
    decreases i
  {
    hide QA.ElemView, Matches, QA.JavaReads, QA.Storable;
    if i > 0 {
      assert QA.ReadableElems(n, e, vs[1..]);
      ElemsViewAt(n, e, vs[1..], i - 1);
    }
  }

  lemma {:induction false} FieldsViewAt(ts: seq<PlcType>, vs: seq<Value>, i: nat)
    requires QA.ReadableFields(ts, vs) && i < |vs|
    ensures QA.FieldsView(ts, vs)[i] == JR.JArgument(JR.ArgName(ts[i].typeName), ts[i].tag, QA.ValueView(ts[i], vs[i]))
    decreases i
  {
    hide QA.ValueView, Matches, QA.JavaReads;
    if i > 0 {
      assert QA.ReadableFields(ts[1..], vs[1..]);
      FieldsViewAt(ts[1..], vs[1..], i - 1);
    }
  }

  /** What the JVM side makes of the wire value shows the datum, at every depth. */
  lemma {:induction false} ViewShows(t: TypeInfo, d: Datum, e: bool, u: bool)
    requires WellFilled(t, e, u) && Fits(t, d) && JvmHolds(t, d)
    ensures Matches(CopyType(t), OutFunc(t, d)) && QA.JavaReads(CopyType(t), OutFunc(t, d))
    ensures Shows(t, d, QA.ValueView(CopyType(t), OutFunc(t, d)))
    decreases d, 1
  {
    ReadsWhatItHolds(t, d, e, u);
    match d
    case ArrayDatum(dims, lbounds, elems) => ViewShowsArray(t, dims, lbounds, elems, e, u);
    case RowDatum(attrs) => ViewShowsRow(t, attrs, e, u);
    case _ =>
  }

  lemma {:induction false} ViewShowsRow(t: TypeInfo, attrs: seq<Datum>, e: bool, u: bool)
    requires WellFilled(t, e, u) && Fits(t, RowDatum(attrs)) && JvmHolds(t, RowDatum(attrs))
    requires Matches(CopyType(t), OutFunc(t, RowDatum(attrs))) && QA.JavaReads(CopyType(t), OutFunc(t, RowDatum(attrs)))
    ensures Shows(t, RowDatum(attrs), QA.ValueView(CopyType(t), OutFunc(t, RowDatum(attrs))))
    decreases attrs, 0
  {
    var ts, ws, vs := t.subTypes, CopyTypes(t.subTypes), OutFields(t.subTypes, attrs);
    hide OutFields, CopyTypes, LiveBefore, QA.FieldsView;
    FieldsInPlace(ts, attrs);
    CopiesInPlace(ts);
    assert QA.ReadableFields(ws, vs);
    forall p | 0 <= p < |ts| && !ts[p].attisdropped
      ensures QA.FieldsView(ws, vs)[LiveBefore(ts, p)].name == JR.ArgName(ts[p].typeName)
      ensures QA.FieldsView(ws, vs)[LiveBefore(ts, p)].dataType == ts[p].tag
      ensures Shows(ts[p], attrs[p], QA.FieldsView(ws, vs)[LiveBefore(ts, p)].value)
    {
      ViewShows(ts[p], attrs[p], false, true);
      FieldsViewAt(ws, vs, LiveBefore(ts, p));
    }
  }

  lemma {:induction false} ViewShowsArray(t: TypeInfo, dims: seq<Int32>, lbounds: seq<Int32>, elems: seq<Datum>, e: bool, u: bool)
    requires WellFilled(t, e, u) && Fits(t, ArrayDatum(dims, lbounds, elems)) && JvmHolds(t, ArrayDatum(dims, lbounds, elems))
    requires var d := ArrayDatum(dims, lbounds, elems);
      Matches(CopyType(t), OutFunc(t, d)) && QA.JavaReads(CopyType(t), OutFunc(t, d))
    ensures var d := ArrayDatum(dims, lbounds, elems);
      Shows(t, d, QA.ValueView(CopyType(t), OutFunc(t, d)))
    decreases elems, 0
  {
    var d, sub, n := ArrayDatum(dims, lbounds, elems), t.subTypes[0], |dims|;
    var w, vs, x := CopyType(t).subTypes[0], OutElems(sub, elems), QA.ValueView(CopyType(t), OutFunc(t, d));
    CopiesInPlace(t.subTypes);
    assert LiveBefore(t.subTypes, 0) == 0 && w == CopyType(sub);
    ElemsInPlace(sub, elems);
    SizeIsProduct(1, dims);
    forall path | InRange(path, dims)
      ensures 0 <= Offset(path, dims) < |elems| && QA.At(x, path).Some?
      ensures var e, y := elems[Offset(path, dims)], QA.At(x, path).value;
        if n == 3 && sub.tag == PLC_DATA_INT2 then Widened(e, y) else Shows(sub, e, y)
    {
      var i := Offset(path, dims);
      QA.NestIsRowMajor(dims, QA.ElemsView(n, w, vs), path);
      ElemsViewAt(n, w, vs, i);
      ViewShows(sub, elems[i], true, u);
      if n == 3 && sub.tag == PLC_DATA_INT2 {
        ViewIsWidened(sub, elems[i], w);
      }
    }
  }

  lemma ViewIsWidened(t: TypeInfo, d: Datum, w: PlcType)
    requires Fits(t, d) && d != NullDatum && t.tag == PLC_DATA_INT2 && w.tag == t.tag
    requires Matches(w, OutFunc(t, d)) && QA.JavaReads(w, OutFunc(t, d)) && QA.Storable(3, w.tag, OutFunc(t, d))
    ensures Widened(d, QA.ElemView(3, w, OutFunc(t, d)))
  {
    assert Pow256(2) == 0x1_0000;
    assert Pow256(4) == 0x1_0000_0000;
    SignedInvertsLe(Signed(d.bytes), 4);
  }

  // ---------------------------------------------------------------------
  // From the catalog to the JVM
  // ---------------------------------------------------------------------

  /**
    The function can be described, the arguments are values of the declared types, and
    strings and counts stay within what the wire can carry.
  */
  predicate Callable(cat: Snapshot, call: Option<TupleDesc>, oid: Oid, args: seq<Datum>) {
    && Bounded(cat, call) && WellFormed(cat) && oid < 0x1_0000_0000
    && Build(cat, call, oid).Some? && ArgumentsFit(Build(cat, call, oid).value, args)
    && var d := Build(cat, call, oid).value;
    && ShortString(Some(d.name)) && ShortString(Some(d.src)) && |args| <= INT_MAX
    && (forall i | 0 <= i < |d.argnames| :: ShortString(d.argnames[i]))
  }

  function CallFor(cat: Snapshot, call: Option<TupleDesc>, oid: Oid, hasChanged: Int32, args: seq<Datum>): (m: Message)
    requires Callable(cat, call, oid, args)
    ensures m.Call?
  {
    CreateCall(Build(cat, call, oid).value, hasChanged, args)
  }

  lemma {:induction false} FilledIsJava(t: TypeInfo, e: bool, u: bool)
    requires WellFilled(t, e, u)
    ensures QA.JavaType(CopyType(t))
    decreases t
  {
    hide CopyTypes, LiveBefore;
    CopiesInPlace(t.subTypes);
    forall k | 0 <= k < |CopyTypes(t.subTypes)| ensures QA.JavaType(CopyTypes(t.subTypes)[k]) {
      var p := LiveAt(t.subTypes, k);
      FilledIsJava(t.subTypes[p], t.tag == PLC_DATA_ARRAY, if t.tag == PLC_DATA_ARRAY then u else true);
    }
  }

  /** The JVM side can read the call exactly when it can represent every argument. */
  lemma CallIsJava(cat: Snapshot, call: Option<TupleDesc>, oid: Oid, hasChanged: Int32, args: seq<Datum>)
    requires Callable(cat, call, oid, args)
    ensures var m, d := CallFor(cat, call, oid, hasChanged, args), Build(cat, call, oid).value;
      GoodMsg(m) && (QA.JavaCall(m) <==> forall i | 0 <= i < |args| :: JvmHolds(d.argtypes[i], args[i]))
  {
    CallIsDeliverable(cat, call, oid, hasChanged, args);
    var d, m := Build(cat, call, oid).value, CallFor(cat, call, oid, hasChanged, args);
    var row := cat.procs[oid];
    FilledWell(cat, call, row.prorettype, false, false);
    TypesFilledWell(cat, call, row.proargtypes);
    FilledIsJava(d.rettype, false, false);
    hide GoodMsg, WellFilled, WellFormed, Bounded, Fits, JvmHolds, QA.JavaType, QA.JavaReads, CopyType, OutFunc, Build, FillTypes, FillInner;
    assert m.args == CallArguments(d, args);
    forall i | 0 <= i < |args|
      ensures GoodArgument(m.args[i]) && (QA.JavaArgument(m.args[i]) <==> JvmHolds(d.argtypes[i], args[i]))
    {
      ArgumentIsGood(m, i);
      FilledIsJava(d.argtypes[i], false, false);
      ReadsWhatItHolds(d.argtypes[i], args[i], false, false);
    }
  }

  lemma ArgumentIsGood(m: Message, i: nat)
    requires m.Call? && GoodMsg(m) && i < |m.args|
    ensures GoodArgument(m.args[i])
  {
  }

  /** The request the JVM side hands on calls the function as the catalog has it, on these arguments. */
  lemma ViewIsRequest(cat: Snapshot, call: Option<TupleDesc>, oid: Oid, hasChanged: Int32, args: seq<Datum>)
    requires Callable(cat, call, oid, args)
    requires var m := CallFor(cat, call, oid, hasChanged, args); GoodMsg(m) && QA.JavaCall(m)
    ensures IsRequestOf(QA.RequestView(CallFor(cat, call, oid, hasChanged, args)), cat, call, oid, hasChanged, args)
  {
    hide GoodMsg, WellFilled, WellFormed, Bounded, Fits, JvmHolds, Build, FillTypes, FillInner, Describes, IsArgumentName;
    hide QA.JavaType, QA.JavaReads, QA.TypeView, QA.ValueView, CopyType, OutFunc, Shows, ShowsType, ShowsArgument;
    CallIsJava(cat, call, oid, hasChanged, args);
    var d, m := Build(cat, call, oid).value, CallFor(cat, call, oid, hasChanged, args);
    BuiltDescribes(cat, call, oid, d);
    ViewShowsType(d.rettype);
    var row, q := cat.procs[oid], QA.RequestView(m);
    assert ShowsResult(cat, call, row.prorettype, q.returnType.value);
    forall i | 0 <= i < |args| ensures ShowsArgument(cat, call, row, i, args[i], q.args[i]) {
      ArgumentIsGood(m, i);
      ArgumentShows(cat, call, oid, args, i);
    }
  }

  /** One argument. */
  lemma ArgumentShows(cat: Snapshot, call: Option<TupleDesc>, oid: Oid, args: seq<Datum>, i: nat)
    requires Callable(cat, call, oid, args) && i < |args|
    requires JvmHolds(Build(cat, call, oid).value.argtypes[i], args[i])
    requires GoodArgument(CallArguments(Build(cat, call, oid).value, args)[i])
    requires QA.JavaArgument(CallArguments(Build(cat, call, oid).value, args)[i])
    ensures oid in cat.procs && i < |cat.procs[oid].proargtypes|
    ensures ShowsArgument(cat, call, cat.procs[oid], i, args[i],
                          QA.ArgumentView(CallArguments(Build(cat, call, oid).value, args)[i]))
  {
    hide GoodArgument, QA.JavaArgument, QA.ValueView;
    hide WellFilled, WellFormed, Bounded, Fits, JvmHolds, FillTypes, FillInner, Describes, OutFunc, Shows;
    var d := Build(cat, call, oid).value;
    TypesFilledWell(cat, call, cat.procs[oid].proargtypes);
    BuiltDescribes(cat, call, oid, d);
    hide Build;
    ViewShows(d.argtypes[i], args[i], false, false);
    OneArgumentShows(cat, call, cat.procs[oid], i, d.argtypes[i], args[i], CallArguments(d, args)[i]);
  }

  lemma OneArgumentShows(cat: Snapshot, call: Option<TupleDesc>, row: ProcRow, i: nat, t: TypeInfo, d: Datum, a: Argument)
    requires GoodArgument(a) && QA.JavaArgument(a) && i < |row.proargtypes| && IsArgumentName(row, i, a.name)
    requires Describes(cat, call, row.proargtypes[i], t, None, false, false)
    requires a.typ.tag == t.tag && Shows(t, d, QA.ValueView(a.typ, a.data))
    ensures ShowsArgument(cat, call, row, i, d, QA.ArgumentView(a))
  {
    hide GoodType, Matches, QA.JavaType, QA.JavaReads, Describes, Shows, QA.ValueView;
  }

  /**
    The whole path of a call: whatever the catalog and the arguments, the bytes sent for
    it, in front of any others, make the JVM side's decoder hand on a request that calls
    the function by its name and source, with its types and arguments in order, every
    field of a row under its attribute's name; or, exactly when some argument has no
    representation there, throw and hand on nothing.
  */
  lemma CallReachesJvm(cat: Snapshot, call: Option<TupleDesc>, oid: Oid, hasChanged: Int32, args: seq<Datum>,
                       decoder: JR.State, s: Bytes)
    requires Callable(cat, call, oid, args) && decoder.step == JR.WAITING
    ensures var o := JR.DecodeAll(decoder, EncMsg(CallFor(cat, call, oid, hasChanged, args)) + s);
      if forall i | 0 <= i < |args| :: JvmHolds(Build(cat, call, oid).value.argtypes[i], args[i]) then
        o.out != [] && IsRequestOf(o.out[0], cat, call, oid, hasChanged, args)
      else o.failed && o.out == []
  {
    hide IsRequestOf, GoodMsg, EncMsg, QA.JavaCall, QA.RequestView, JvmHolds, JR.DecodeAll, CallFor, Build, Callable;
    var m := CallFor(cat, call, oid, hasChanged, args);
    CallIsJava(cat, call, oid, hasChanged, args);
    QA.RequestAgrees(decoder, m, s);
    if QA.JavaCall(m) {
      ViewIsRequest(cat, call, oid, hasChanged, args);
    }
  }

  // ---------------------------------------------------------------------
  // Rows under the names of their attributes
  // ---------------------------------------------------------------------

  /** How many of the first `n` attributes are not dropped. */
  function LiveColumns(attrs: seq<Attribute>, n: nat): (k: nat)
    requires n <= |attrs|
    ensures k <= n
  {
    if n == 0 then 0 else LiveColumns(attrs, n - 1) + (if attrs[n - 1].attisdropped then 0 else 1)
  }

  lemma {:induction false} LiveAlike(ts: seq<TypeInfo>, attrs: seq<Attribute>, n: nat)
    requires |ts| == |attrs| && n <= |ts|
    requires forall i | 0 <= i < |ts| :: ts[i].attisdropped == attrs[i].attisdropped
    ensures LiveBefore(ts, n) == LiveColumns(attrs, n)
  {
    if n > 0 {
      LiveAlike(ts, attrs, n - 1);
    }
  }

  lemma RowShown(t: TypeInfo, attrs: seq<Datum>, x: JR.JObject)
    requires Shows(t, RowDatum(attrs), x)
    ensures x.JArgs? && |x.args| == LiveBefore(t.subTypes, |t.subTypes|)
    ensures forall p | 0 <= p < |t.subTypes| && !t.subTypes[p].attisdropped ::
      LiveBefore(t.subTypes, p) < |x.args| && NameShown(t.subTypes[p].typeName, x.args[LiveBefore(t.subTypes, p)].name)
  {
  }

  /**
    In the request every row argument has one field for each attribute of its type that
    is not dropped, in order and under the name the catalog gives it.
  */
  lemma RowsBearNames(q: JR.CallRequest, cat: Snapshot, call: Option<TupleDesc>, oid: Oid, hasChanged: Int32,
                      args: seq<Datum>, i: nat)
    requires IsRequestOf(q, cat, call, oid, hasChanged, args) && i < |args|
    requires IsRowType(cat, cat.procs[oid].proargtypes[i]) && args[i].RowDatum?
    ensures var columns, x := ColumnsOf(cat, call, cat.procs[oid].proargtypes[i]), q.args[i].value;
      && columns.Some? && x.JArgs?
      && var attrs := columns.value.attrs;
      && |x.args| == LiveColumns(attrs, |attrs|)
      && (forall p | 0 <= p < |attrs| && !attrs[p].attisdropped ::
            && LiveColumns(attrs, p) < |x.args|
            && NameShown(Some(attrs[p].attname), x.args[LiveColumns(attrs, p)].name))
  {
    hide LiveBefore, LiveColumns, Shows;
    var row := cat.procs[oid];
    assert ShowsArgument(cat, call, row, i, args[i], q.args[i]);
    var t :| Describes(cat, call, row.proargtypes[i], t, None, false, false) && Shows(t, args[i], q.args[i].value);
    assert DescribesRow(cat, call, row.proargtypes[i], t, false);
    var attrs := ColumnsOf(cat, call, row.proargtypes[i]).value.attrs;
    forall k | 0 <= k < |attrs|
      ensures t.subTypes[k].attisdropped == attrs[k].attisdropped
      ensures !attrs[k].attisdropped ==> t.subTypes[k].typeName == Some(attrs[k].attname)
    {
      AttributeBears(cat, call, attrs[k], t.subTypes[k]);
    }
    LiveAlike(t.subTypes, attrs, |attrs|);
    var x := q.args[i].value;
    RowShown(t, args[i].attrs, x);
    forall p | 0 <= p < |attrs| && !attrs[p].attisdropped
      ensures LiveColumns(attrs, p) < |x.args| && NameShown(Some(attrs[p].attname), x.args[LiveColumns(attrs, p)].name)
    {
      LiveAlike(t.subTypes, attrs, p);
    }
  }
}
