/**
  The receive half of the channel.  Each function is tied to the decoder of the
  bytes in front of the connection.

  A function that fails goes on, like the source, with whatever its variables
  happen to hold; those values are left arbitrary here.
*/
module ChannelReceive {
  import opened Primitives
  import opened Wire
  import opened Transport

  /**
    A receive runs to its end with a code and a value, or is stopped on the way by
    a raised error or a step C gives no meaning to.
  */
  datatype Run<+T> = Trap | Ran(res: int, value: T) {
    predicate IsFailure() { Trap? }
    function PropagateFailure<U>(): Run<U>
      requires Trap?
    {
      Trap
    }
    function Extract(): Run<T>
      requires Ran?
    {
      this
    }
  }

  /**
    Code 0 means that the value and the bytes left are what the decoder makes of
    the stream; and when no recv failed with bytes waiting, the code is 0 whenever
    the decoder succeeds.  In every case only bytes at the front are taken.
  */
  twostate predicate Tells<T(!new)>(conn: PlcConn, new r: Run<T>, new p: Parse<T>)
    reads conn, conn.input, conn.output, conn.input.data, conn.output.data, conn.rx, conn.tx
  {
    && Shrinks(conn)
    && (r.Ran? && r.res == 0 ==>
          p == Got(r.value, conn.Stream()) && conn.rx.faults == old(conn.rx.faults))
    && (p.Got? && conn.rx.faults == old(conn.rx.faults) ==> r.Ran? && r.res == 0)
  }

  /** The same, with the codes of everything below the message level. */
  twostate predicate Takes<T(!new)>(conn: PlcConn, new r: Run<T>, new p: Parse<T>)
    reads conn, conn.input, conn.output, conn.input.data, conn.output.data, conn.rx, conn.tx
  {
    Tells(conn, r, p) && (r.Ran? ==> r.res == 0 || r.res == -1)
  }

  twostate predicate Shrinks(conn: PlcConn)
    reads conn, conn.input, conn.output, conn.input.data, conn.output.data, conn.rx, conn.tx
  {
    && old(conn.Valid()) && conn.Valid() && fresh(conn.InRepr() - old(conn.InRepr()))
    && conn.rx.consumed + conn.Stream() == old(conn.rx.consumed + conn.Stream())
    && |conn.Stream()| <= |old(conn.Stream())|
    && old(conn.rx.faults) <= conn.rx.faults
  }

  method ReceiveBytes(conn: PlcConn, n: nat) returns (r: Run<Bytes>)
    requires conn.Valid()
    modifies conn.InRepr()
    ensures r.Ran? && Takes(conn, r, DecBytes(n, old(conn.Stream())))
    ensures r.res != 0 ==> conn.Stream() == old(conn.Stream())
  {
    hide PlcConn.Valid;
    var res, bytes := conn.Read(n);
    return Ran(res, bytes);
  }

  method ReceiveChar(conn: PlcConn) returns (r: Run<Byte>)
    requires conn.Valid()
    modifies conn.InRepr()
    ensures r.Ran? && Takes(conn, r, DecByte(old(conn.Stream())))
    ensures r.res != 0 ==> conn.Stream() == old(conn.Stream())
  {
    hide PlcConn.Valid;
    var c: Byte := *;
    var bytes := ReceiveBytes(conn, 1);
    if bytes.res == 0 {
      c := bytes.value[0];
    }
    return Ran(bytes.res, c);
  }

  method ReceiveInt16(conn: PlcConn) returns (r: Run<Int16>)
    requires conn.Valid()
    modifies conn.InRepr()
    ensures r.Ran? && Takes(conn, r, DecInt16(old(conn.Stream())))
  {
    hide PlcConn.Valid;
    var x: Int16 := *;
    var bytes := ReceiveBytes(conn, 2);
    if bytes.res == 0 {
      assert Pow256(2) == 0x1_0000;
      x := Signed(bytes.value);
    }
    return Ran(bytes.res, x);
  }

  method ReceiveInt32(conn: PlcConn) returns (r: Run<Int32>)
    requires conn.Valid()
    modifies conn.InRepr()
    ensures r.Ran? && Takes(conn, r, DecInt32(old(conn.Stream())))
  {
    hide PlcConn.Valid;
    var x: Int32 := *;
    var bytes := ReceiveBytes(conn, 4);
    if bytes.res == 0 {
      assert Pow256(2) == 0x1_0000;
      assert Pow256(4) == 0x1_0000_0000;
      x := Signed(bytes.value);
    }
    return Ran(bytes.res, x);
  }

  method ReceiveUInt32(conn: PlcConn) returns (r: Run<UInt32>)
    requires conn.Valid()
    modifies conn.InRepr()
    ensures r.Ran? && Takes(conn, r, DecUInt32(old(conn.Stream())))
  {
    hide PlcConn.Valid;
    var x: UInt32 := *;
    var bytes := ReceiveBytes(conn, 4);
    if bytes.res == 0 {
      assert Pow256(2) == 0x1_0000;
      assert Pow256(4) == 0x1_0000_0000;
      x := FromLe(bytes.value);
    }
    return Ran(bytes.res, x);
  }

  method ReceiveCString(conn: PlcConn) returns (r: Run<CString>)
    requires conn.Valid()
    modifies conn.InRepr()
    ensures Takes(conn, r, DecCString(old(conn.Stream())))
  {
    hide PlcConn.Valid, DecInt32;
    var s: CString := *;
    var cnt := ReceiveInt32(conn);
    if cnt.res < 0 {
      return Ran(-1, s);
    }
    if cnt.value == -1 {
      return Ran(0, None);
    }
    if cnt.value < -1 || cnt.value == INT_MAX {
      return Trap;  // the allocation of cnt + 1 bytes
    }
    if cnt.value == 0 {
      return Ran(0, Some([]));
    }
    var bytes := ReceiveBytes(conn, cnt.value);
    return Ran(bytes.res, Some(BeforeZero(bytes.value)));
  }

  method ReceiveBytea(conn: PlcConn) returns (r: Run<Bytes>)
    requires conn.Valid()
    modifies conn.InRepr()
    ensures Takes(conn, r, DecBytea(old(conn.Stream())))
  {
    hide PlcConn.Valid, DecInt32;
    var s: Bytes := *;
    var len := ReceiveInt32(conn);
    if len.res < 0 {
      return Ran(-1, s);
    }
    if len.value < 0 || len.value > INT_MAX - 4 {
      return Trap;  // the allocation of len + 4 bytes, and the header put into it
    }
    if len.value == 0 {
      return Ran(0, []);
    }
    r := ReceiveBytes(conn, len.value);
  }

  method ReceiveType(conn: PlcConn) returns (r: Run<PlcType>)
    requires conn.Valid()
    modifies conn.InRepr()
    ensures Takes(conn, r, DecType(old(conn.Stream())))
    decreases |conn.Stream()|, 0
  {
    hide PlcConn.Valid, DecByte, DecInt16, DecCString;
    var typ := ReceiveChar(conn);
    var name :- ReceiveCString(conn);
    var res := Or(typ.res, name.res);
    var tag := TagOf(typ.value);
    if !IsNested(tag) {
      return Ran(res, PlcType(tag, 0, name.value, []));
    }
    var n := ReceiveInt16(conn);
    res := Or(res, n.res);
    var subs: seq<PlcType> := [];
    if res == 0 {
      var s :- ReceiveSubTypes(conn, Max(n.value, 0));
      res, subs := s.res, s.value;
    }
    return Ran(res, PlcType(tag, n.value, name.value, subs));
  }

  /** Puts what was already read in front of the outcome of the rest. */
  function Prepend<T>(xs: seq<T>, p: Parse<seq<T>>): Parse<seq<T>> {
    match p
    case Got(v, r) => Got(xs + v, r)
    case Short => Short
    case Bad => Bad
  }

  lemma PrependNone<T>(p: Parse<seq<T>>)
    ensures Prepend([], p) == p
  {
    if p.Got? {
      assert [] + p.value == p.value;
    }
  }

  lemma PrependAll<T>(xs: seq<T>, r: Bytes)
    ensures Prepend(xs, Got([], r)) == Got(xs, r)
  {
    assert xs + [] == xs;
  }

  lemma PrependOne<T>(xs: seq<T>, x: T, p: Parse<seq<T>>)
    ensures Prepend(xs, Prepend([x], p)) == Prepend(xs + [x], p)
  {
    if p.Got? {
      assert xs + ([x] + p.value) == xs + [x] + p.value;
    }
  }

  /** The subtype loop of receive_type. */
  method ReceiveSubTypes(conn: PlcConn, n: nat) returns (r: Run<seq<PlcType>>)
    requires conn.Valid()
    modifies conn.InRepr()
    ensures Takes(conn, r, DecTypes(n, old(conn.Stream())))
    decreases |conn.Stream()|, 1
  {
    hide PlcConn.Valid, DecType;
    ghost var p := DecTypes(n, conn.Stream());
    var res, ts := 0, [];
    var i := 0;
    PrependNone(p);
    while i < n && res == 0
      invariant 0 <= i <= n && i == |ts|
      invariant Shrinks(conn) && (res == 0 || res == -1)
      invariant res == 0 ==> p == Prepend(ts, DecTypes(n - i, conn.Stream()))
      invariant res == 0 ==> conn.rx.faults == old(conn.rx.faults)
      invariant res != 0 && conn.rx.faults == old(conn.rx.faults) ==> !p.Got?
      invariant i > 0 && res == 0 ==> |conn.Stream()| < |old(conn.Stream())|
    {
      ghost var b := conn.Stream();
      var t :- ReceiveType(conn);
      res := Or(res, t.res);
      if res == 0 {
        assert DecTypes(n - i, b) == Prepend([t.value], DecTypes(n - i - 1, conn.Stream()));
        PrependOne(ts, t.value, DecTypes(n - i - 1, conn.Stream()));
      }
      ts := ts + [t.value];
      i := i + 1;
    }
    PrependAll(ts, conn.Stream());
    return Ran(res, ts);
  }

  method ReceiveRawObject(conn: PlcConn, t: PlcType) returns (r: Run<Value>)
    requires conn.Valid()
    modifies conn.InRepr()
    ensures Takes(conn, r, DecRaw(t, old(conn.Stream())))
    decreases t, 3
  {
    hide PlcConn.Valid, DecByte, DecBytes, DecCString, DecBytea, DecArray, DecFields;
    var isn := ReceiveChar(conn);
    if isn.value == NULL {
      return Ran(isn.res, Null);
    }
    if IsScalar(t.tag) {
      var bytes := ReceiveBytes(conn, Width(t.tag));
      return Ran(Or(isn.res, bytes.res), Scalar(bytes.value));
    } else if t.tag == PLC_DATA_TEXT {
      var s :- ReceiveCString(conn);
      return Ran(Or(isn.res, s.res), Text(s.value));
    } else if t.tag == PLC_DATA_BYTEA {
      var s :- ReceiveBytea(conn);
      return Ran(Or(isn.res, s.res), Bytea(s.value));
    } else if t.tag == PLC_DATA_ARRAY {
      if t.subTypes == [] {
        return Trap;
      }
      var arr :- ReceiveArray(conn, t.subTypes[0]);
      return Ran(Or(isn.res, arr.res), arr.value);
    } else if t.tag == PLC_DATA_UDT {
      if t.nSubTypes < 0 {
        return Trap;  // the allocation of the fields
      }
      var fields :- ReceiveUdt(conn, t.subTypes);
      return Ran(Or(isn.res, fields.res), Udt(fields.value));
    }
    return Trap;
  }

  method ReceiveArray(conn: PlcConn, e: PlcType) returns (r: Run<Value>)
    requires conn.Valid()
    modifies conn.InRepr()
    ensures Takes(conn, r, DecArray(e, old(conn.Stream())))
    decreases e, 2
  {
    hide PlcConn.Valid, DecInt32, DecInts, DecElems, SizeOf;
    var ndims := ReceiveInt32(conn);
    var extents :- ReceiveDims(conn, ndims.value);
    var (dims, size) := extents.value;
    var res := Or(ndims.res, extents.res);
    var elems: seq<Value> := [];
    if size > 0 {
      if !DataFits(e.tag, size) {
        return Trap;  // plc_get_type_length, or size * entrylen
      }
      if res == 0 {
        var es :- ReceiveElements(conn, e, size);
        res, elems := es.res, es.value;
      }
    }
    return Ran(res, Array(ndims.value, dims, elems));
  }

  /** The extents of an array and the size they multiply up to. */
  function DecExtents(ndims: int, b: Bytes): Parse<(seq<Int32>, int)> {
    var (dims, r) :- DecInts(Max(ndims, 0), b);
    match SizeOf(ndims, dims)
    case None => Bad
    case Some(size) => Got((dims, size), r)
  }

  lemma {:induction false} SizeSnoc(acc: int, xs: seq<Int32>, y: Int32)
    ensures SizeFrom(acc, xs + [y]) ==
            match SizeFrom(acc, xs) { case None => None case Some(k) => SizeFrom(k, [y]) }
    decreases |xs|
  {
    if xs == [] {
      assert xs + [y] == [y];
    } else {
      assert (xs + [y])[1..] == xs[1..] + [y];
      SizeSnoc(acc * xs[0], xs[1..], y);
    }
  }

  lemma {:induction false} OverflowStays(acc: int, xs: seq<Int32>, ys: seq<Int32>)
    requires SizeFrom(acc, xs).None?
    ensures SizeFrom(acc, xs + ys).None?
    decreases |xs|
  {
    assert (xs + ys)[1..] == xs[1..] + ys;
    if FitsInt(acc * xs[0]) {
      OverflowStays(acc * xs[0], xs[1..], ys);
    }
  }

  /** The dimension loop of receive_array, which goes on after a failure. */
  method ReceiveDims(conn: PlcConn, ndims: Int32) returns (r: Run<(seq<Int32>, int)>)
    requires conn.Valid()
    modifies conn.InRepr()
    ensures Takes(conn, r, DecExtents(ndims, old(conn.Stream())))
    ensures r.Ran? ==> |r.value.0| == Max(ndims, 0)
  {
    hide PlcConn.Valid, DecInt32, DecInts, SizeFrom;
    ghost var n := Max(ndims, 0);
    ghost var p := DecInts(n, conn.Stream());
    var res := 0;
    var dims: seq<Int32> := [];
    var size: int := if ndims > 0 then 1 else 0;
    PrependNone(p);
    SizeOfNone();
    var i := 0;
    while i < ndims
      invariant 0 <= i <= n && i == |dims|
      invariant Shrinks(conn) && (res == 0 || res == -1)
      invariant res == 0 ==> p == Prepend(dims, DecInts(n - i, conn.Stream()))
      invariant res == 0 ==> conn.rx.faults == old(conn.rx.faults)
      invariant res != 0 && conn.rx.faults == old(conn.rx.faults) ==> !p.Got?
      invariant if ndims > 0 then SizeFrom(1, dims) == Some(size) else size == 0
    {
      ghost var b := conn.Stream();
      var d := ReceiveInt32(conn);
      res := Or(res, d.res);
      DecIntsStep(n - i, b);
      if res == 0 {
        PrependOne(dims, d.value, DecInts(n - i - 1, conn.Stream()));
      }
      SizeSnoc(1, dims, d.value);
      SizeOfOne(size, d.value);
      if !FitsInt(size * d.value) {
        if res == 0 && p.Got? {
          OverflowIn(dims + [d.value], DecInts(n - i - 1, conn.Stream()));
        }
        return Trap;
      }
      size := size * d.value;
      dims := dims + [d.value];
      i := i + 1;
    }
    DecIntsNone(conn.Stream());
    PrependAll(dims, conn.Stream());
    return Ran(res, (dims, size));
  }

  lemma SizeOfNone()
    ensures SizeFrom(1, []) == Some(1)
  {
  }

  lemma SizeOfOne(acc: int, y: Int32)
    ensures SizeFrom(acc, [y]) == if FitsInt(acc * y) then Some(acc * y) else None
  {
    assert [y][1..] == [];
  }

  lemma DecIntsNone(b: Bytes)
    ensures DecInts(0, b) == Got([], b)
  {
  }

  lemma DecIntsStep(n: nat, b: Bytes)
    requires n > 0
    ensures DecInt32(b).Got? ==>
      DecInts(n, b) == Prepend([DecInt32(b).value], DecInts(n - 1, DecInt32(b).rest))
    ensures !DecInt32(b).Got? ==> !DecInts(n, b).Got?
  {
    hide DecInt32;
  }

  lemma OverflowIn(xs: seq<Int32>, p: Parse<seq<Int32>>)
    requires SizeFrom(1, xs).None? && p.Got?
    ensures SizeFrom(1, Prepend(xs, p).value).None?
  {
    OverflowStays(1, xs, p.value);
  }

  /** The element loop of receive_array. */
  method ReceiveElements(conn: PlcConn, e: PlcType, n: nat) returns (r: Run<seq<Value>>)
    requires conn.Valid() && IsElement(e.tag)
    modifies conn.InRepr()
    ensures Takes(conn, r, DecElems(e, n, old(conn.Stream())))
    decreases e, 1
  {
    hide PlcConn.Valid, DecElem;
    ghost var p := DecElems(e, n, conn.Stream());
    var res, xs := 0, [];
    var i := 0;
    PrependNone(p);
    while i < n && res == 0
      invariant 0 <= i <= n && i == |xs|
      invariant Shrinks(conn) && (res == 0 || res == -1)
      invariant res == 0 ==> p == Prepend(xs, DecElems(e, n - i, conn.Stream()))
      invariant res == 0 ==> conn.rx.faults == old(conn.rx.faults)
      invariant res != 0 && conn.rx.faults == old(conn.rx.faults) ==> !p.Got?
    {
      ghost var b := conn.Stream();
      var x :- ReceiveElement(conn, e);
      res := Or(res, x.res);
      if res == 0 {
        assert DecElems(e, n - i, b) == Prepend([x.value], DecElems(e, n - i - 1, conn.Stream()));
        PrependOne(xs, x.value, DecElems(e, n - i - 1, conn.Stream()));
      }
      xs := xs + [x.value];
      i := i + 1;
    }
    PrependAll(xs, conn.Stream());
    return Ran(res, xs);
  }

  /** The element switch of receive_array. */
  method ReceiveElement(conn: PlcConn, e: PlcType) returns (r: Run<Value>)
    requires conn.Valid() && IsElement(e.tag)
    modifies conn.InRepr()
    ensures Takes(conn, r, DecElem(e, old(conn.Stream())))
    decreases e, 0
  {
    hide PlcConn.Valid, DecByte, DecBytes, DecCString, DecBytea, DecFields;
    var isnull := ReceiveChar(conn);
    if isnull.value == NULL {
      return Ran(isnull.res, Null);
    }
    if IsScalar(e.tag) {
      var bytes := ReceiveBytes(conn, Width(e.tag));
      return Ran(Or(isnull.res, bytes.res), Scalar(bytes.value));
    } else if e.tag == PLC_DATA_TEXT {
      var s :- ReceiveCString(conn);
      return Ran(Or(isnull.res, s.res), Text(s.value));
    } else if e.tag == PLC_DATA_BYTEA {
      var s :- ReceiveBytea(conn);
      return Ran(Or(isnull.res, s.res), Bytea(s.value));
    }
    if e.nSubTypes < 0 {
      return Trap;
    }
    var fields :- ReceiveUdt(conn, e.subTypes);
    return Ran(Or(isnull.res, fields.res), Udt(fields.value));
  }

  method ReceiveUdt(conn: PlcConn, ts: seq<PlcType>) returns (r: Run<seq<Value>>)
    requires conn.Valid()
    modifies conn.InRepr()
    ensures Takes(conn, r, DecFields(ts, old(conn.Stream())))
    ensures r.Ran? && r.res == 0 ==> |r.value| == |ts|
    decreases ts
  {
    hide PlcConn.Valid, DecRaw;
    ghost var p := DecFields(ts, conn.Stream());
    var res, xs := 0, [];
    var i := 0;
    PrependNone(p);
    while i < |ts| && res == 0
      invariant 0 <= i <= |ts| && i == |xs|
      invariant Shrinks(conn) && (res == 0 || res == -1)
      invariant res == 0 ==> p == Prepend(xs, DecFields(ts[i..], conn.Stream()))
      invariant res == 0 ==> conn.rx.faults == old(conn.rx.faults)
      invariant res != 0 && conn.rx.faults == old(conn.rx.faults) ==> !p.Got?
    {
      ghost var b := conn.Stream();
      assert ts[i..][1..] == ts[i + 1..];
      var x :- ReceiveRawObject(conn, ts[i]);
      res := Or(res, x.res);
      if res == 0 {
        assert DecFields(ts[i..], b) == Prepend([x.value], DecFields(ts[i + 1..], conn.Stream()));
        PrependOne(xs, x.value, DecFields(ts[i + 1..], conn.Stream()));
      }
      xs := xs + [x.value];
      i := i + 1;
    }
    PrependAll(xs, conn.Stream());
    return Ran(res, xs);
  }

  method ReceiveArgument(conn: PlcConn) returns (r: Run<Argument>)
    requires conn.Valid()
    modifies conn.InRepr()
    ensures Takes(conn, r, DecArgument(old(conn.Stream())))
  {
    hide PlcConn.Valid, DecCString, DecType, DecRaw;
    var name :- ReceiveCString(conn);
    var typ :- ReceiveType(conn);
    var data :- ReceiveRawObject(conn, typ.value);
    return Ran(Or(Or(name.res, typ.res), data.res), Argument(name.value, typ.value, data.value));
  }

  /** The argument loop of receive_call. */
  method ReceiveArguments(conn: PlcConn, n: nat) returns (r: Run<seq<Argument>>)
    requires conn.Valid()
    modifies conn.InRepr()
    ensures Takes(conn, r, DecArguments(n, old(conn.Stream())))
  {
    hide PlcConn.Valid, DecArgument;
    ghost var p := DecArguments(n, conn.Stream());
    var res, xs := 0, [];
    var i := 0;
    PrependNone(p);
    while i < n && res == 0
      invariant 0 <= i <= n && i == |xs|
      invariant Shrinks(conn) && (res == 0 || res == -1)
      invariant res == 0 ==> p == Prepend(xs, DecArguments(n - i, conn.Stream()))
      invariant res == 0 ==> conn.rx.faults == old(conn.rx.faults)
      invariant res != 0 && conn.rx.faults == old(conn.rx.faults) ==> !p.Got?
    {
      ghost var b := conn.Stream();
      var x :- ReceiveArgument(conn);
      res := Or(res, x.res);
      if res == 0 {
        assert DecArguments(n - i, b) == Prepend([x.value], DecArguments(n - i - 1, conn.Stream()));
        PrependOne(xs, x.value, DecArguments(n - i - 1, conn.Stream()));
      }
      xs := xs + [x.value];
      i := i + 1;
    }
    PrependAll(xs, conn.Stream());
    return Ran(res, xs);
  }

  /** A call request up to the function's OID. */
  function DecCallSource(b: Bytes): Parse<(CString, CString, UInt32)> {
    var (name, r1) :- DecCString(b);
    var (src, r2) :- DecCString(r1);
    var (oid, r3) :- DecUInt32(r2);
    Got((name, src, oid), r3)
  }

  /** A call request from there to the argument count. */
  function DecCallSignature(b: Bytes): Parse<(Int32, PlcType, Int32, Int32)> {
    var (changed, r4) :- DecInt32(b);
    var (ret, r5) :- DecType(r4);
    var (retset, r6) :- DecInt32(r5);
    var (nargs, r7) :- DecInt32(r6);
    Got((changed, ret, retset, nargs), r7)
  }

  method ReceiveCallSource(conn: PlcConn) returns (r: Run<(CString, CString, UInt32)>)
    requires conn.Valid()
    modifies conn.InRepr()
    ensures Takes(conn, r, DecCallSource(old(conn.Stream())))
  {
    hide PlcConn.Valid, DecCString, DecUInt32;
    var name :- ReceiveCString(conn);
    var src :- ReceiveCString(conn);
    var oid := ReceiveUInt32(conn);
    return Ran(Or(Or(name.res, src.res), oid.res), (name.value, src.value, oid.value));
  }

  method ReceiveCallSignature(conn: PlcConn) returns (r: Run<(Int32, PlcType, Int32, Int32)>)
    requires conn.Valid()
    modifies conn.InRepr()
    ensures Takes(conn, r, DecCallSignature(old(conn.Stream())))
  {
    hide PlcConn.Valid, DecInt32, DecType;
    var changed := ReceiveInt32(conn);
    var ret :- ReceiveType(conn);
    var retset := ReceiveInt32(conn);
    var nargs := ReceiveInt32(conn);
    var res := Or(Or(Or(changed.res, ret.res), retset.res), nargs.res);
    return Ran(res, (changed.value, ret.value, retset.value, nargs.value));
  }

  method ReceiveCall(conn: PlcConn) returns (r: Run<Message>)
    requires conn.Valid()
    modifies conn.InRepr()
    ensures Takes(conn, r, DecCall(old(conn.Stream())))
  {
    hide PlcConn.Valid, DecCString, DecUInt32, DecInt32, DecType, DecArguments;
    var source :- ReceiveCallSource(conn);
    var signature :- ReceiveCallSignature(conn);
    var (name, src, oid) := source.value;
    var (changed, ret, retset, nargs) := signature.value;
    var res := Or(source.res, signature.res);
    var args: seq<Argument> := [];
    if res == 0 {
      if nargs < 0 {
        return Trap;  // the allocation of the arguments
      }
      var a :- ReceiveArguments(conn, nargs);
      res, args := a.res, a.value;
    }
    return Ran(res, Call(name, src, oid, changed, ret, retset, args));
  }

  /** Prepend for the two parallel arrays of a result's columns. */
  function PrependColumns(ts: seq<PlcType>, ns: seq<CString>,
                          p: Parse<(seq<PlcType>, seq<CString>)>): Parse<(seq<PlcType>, seq<CString>)>
  {
    match p
    case Got(v, r) => Got((ts + v.0, ns + v.1), r)
    case Short => Short
    case Bad => Bad
  }

  lemma PrependColumnsNone(p: Parse<(seq<PlcType>, seq<CString>)>)
    ensures PrependColumns([], [], p) == p
  {
    if p.Got? {
      assert [] + p.value.0 == p.value.0;
      assert [] + p.value.1 == p.value.1;
    }
  }

  lemma PrependColumnsAll(ts: seq<PlcType>, ns: seq<CString>, r: Bytes)
    ensures PrependColumns(ts, ns, Got(([], []), r)) == Got((ts, ns), r)
  {
    assert ts + [] == ts;
    assert ns + [] == ns;
  }

  lemma PrependColumnsOne(ts: seq<PlcType>, ns: seq<CString>, t: PlcType, s: CString,
                          p: Parse<(seq<PlcType>, seq<CString>)>)
    ensures PrependColumns(ts, ns, PrependColumns([t], [s], p)) == PrependColumns(ts + [t], ns + [s], p)
  {
    if p.Got? {
      assert ts + ([t] + p.value.0) == ts + [t] + p.value.0;
      assert ns + ([s] + p.value.1) == ns + [s] + p.value.1;
    }
  }

  method ReceiveColumn(conn: PlcConn) returns (r: Run<(PlcType, CString)>)
    requires conn.Valid()
    modifies conn.InRepr()
    ensures Takes(conn, r, DecColumn(old(conn.Stream())))
  {
    hide PlcConn.Valid, DecCString, DecType;
    var typ :- ReceiveType(conn);
    var name :- ReceiveCString(conn);
    return Ran(Or(typ.res, name.res), (typ.value, name.value));
  }

  /** The column loop of receive_result, which goes on after a failure. */
  method ReceiveColumns(conn: PlcConn, n: nat) returns (r: Run<(seq<PlcType>, seq<CString>)>)
    requires conn.Valid()
    modifies conn.InRepr()
    ensures Takes(conn, r, DecColumns(n, old(conn.Stream())))
    ensures r.Ran? ==> |r.value.0| == |r.value.1| == n
  {
    hide PlcConn.Valid, DecColumn;
    ghost var p := DecColumns(n, conn.Stream());
    var res, ts, ns := 0, [], [];
    PrependColumnsNone(p);
    for i := 0 to n
      invariant i == |ts| == |ns|
      invariant Shrinks(conn) && (res == 0 || res == -1)
      invariant res == 0 ==> p == PrependColumns(ts, ns, DecColumns(n - i, conn.Stream()))
      invariant res == 0 ==> conn.rx.faults == old(conn.rx.faults)
      invariant res != 0 && conn.rx.faults == old(conn.rx.faults) ==> !p.Got?
    {
      ghost var b := conn.Stream();
      var col :- ReceiveColumn(conn);
      res := Or(res, col.res);
      if res == 0 {
        ghost var q := DecColumns(n - i - 1, conn.Stream());
        assert DecColumns(n - i, b) == PrependColumns([col.value.0], [col.value.1], q);
        PrependColumnsOne(ts, ns, col.value.0, col.value.1, q);
      }
      ts, ns := ts + [col.value.0], ns + [col.value.1];
    }
    PrependColumnsAll(ts, ns, conn.Stream());
    return Ran(res, (ts, ns));
  }

  /** One row of receive_result; within a row the columns go on after a failure. */
  method ReceiveRow(conn: PlcConn, ts: seq<PlcType>) returns (r: Run<seq<Value>>)
    requires conn.Valid()
    modifies conn.InRepr()
    ensures Takes(conn, r, DecFields(ts, old(conn.Stream())))
  {
    hide PlcConn.Valid, DecRaw;
    ghost var p := DecFields(ts, conn.Stream());
    var res, xs := 0, [];
    PrependNone(p);
    assert ts[0..] == ts;
    for j := 0 to |ts|
      invariant j == |xs|
      invariant Shrinks(conn) && (res == 0 || res == -1)
      invariant res == 0 ==> p == Prepend(xs, DecFields(ts[j..], conn.Stream()))
      invariant res == 0 ==> conn.rx.faults == old(conn.rx.faults)
      invariant res != 0 && conn.rx.faults == old(conn.rx.faults) ==> !p.Got?
    {
      ghost var b := conn.Stream();
      assert ts[j..][1..] == ts[j + 1..];
      var x :- ReceiveRawObject(conn, ts[j]);
      res := Or(res, x.res);
      if res == 0 {
        assert DecFields(ts[j..], b) == Prepend([x.value], DecFields(ts[j + 1..], conn.Stream()));
        PrependOne(xs, x.value, DecFields(ts[j + 1..], conn.Stream()));
      }
      xs := xs + [x.value];
    }
    PrependAll(xs, conn.Stream());
    return Ran(res, xs);
  }

  /** The row loop of receive_result. */
  method ReceiveRows(conn: PlcConn, n: int, ts: seq<PlcType>) returns (r: Run<seq<seq<Value>>>)
    requires conn.Valid()
    modifies conn.InRepr()
    ensures Takes(conn, r, DecRows(Max(n, 0), ts, old(conn.Stream())))
  {
    hide PlcConn.Valid, DecFields;
    ghost var k := Max(n, 0);
    ghost var p := DecRows(k, ts, conn.Stream());
    var res, rows := 0, [];
    var i := 0;
    PrependNone(p);
    while i < n && res == 0
      invariant 0 <= i <= k && i == |rows|
      invariant Shrinks(conn) && (res == 0 || res == -1)
      invariant res == 0 ==> p == Prepend(rows, DecRows(k - i, ts, conn.Stream()))
      invariant res == 0 ==> conn.rx.faults == old(conn.rx.faults)
      invariant res != 0 && conn.rx.faults == old(conn.rx.faults) ==> !p.Got?
    {
      ghost var b := conn.Stream();
      var row :- ReceiveRow(conn, ts);
      res := Or(res, row.res);
      if res == 0 {
        assert DecRows(k - i, ts, b) == Prepend([row.value], DecRows(k - i - 1, ts, conn.Stream()));
        PrependOne(rows, row.value, DecRows(k - i - 1, ts, conn.Stream()));
      }
      rows := rows + [row.value];
      i := i + 1;
    }
    PrependAll(rows, conn.Stream());
    return Ran(res, rows);
  }

  method ReceiveError(conn: PlcConn) returns (r: Run<Error>)
    requires conn.Valid()
    modifies conn.InRepr()
    ensures Takes(conn, r, DecError(old(conn.Stream())))
  {
    hide PlcConn.Valid, DecCString;
    var message :- ReceiveCString(conn);
    var stacktrace :- ReceiveCString(conn);
    return Ran(Or(message.res, stacktrace.res), Error(message.value, stacktrace.value));
  }

  /** The body of a result: its columns, then its rows. */
  function DecTable(rows: int, cols: nat, b: Bytes): Parse<(seq<PlcType>, seq<CString>, seq<seq<Value>>)> {
    var (columns, r3) :- DecColumns(cols, b);
    var (data, r4) :- DecRows(Max(rows, 0), columns.0, r3);
    Got((columns.0, columns.1, data), r4)
  }

  method ReceiveTable(conn: PlcConn, rows: int, cols: nat)
    returns (r: Run<(seq<PlcType>, seq<CString>, seq<seq<Value>>)>)
    requires conn.Valid()
    modifies conn.InRepr()
    ensures Takes(conn, r, DecTable(rows, cols, old(conn.Stream())))
  {
    hide PlcConn.Valid, DecColumns, DecRows;
    var columns :- ReceiveColumns(conn, cols);
    var (types, names) := columns.value;
    var res := columns.res;
    var data: seq<seq<Value>> := [];
    if res == 0 {
      var d :- ReceiveRows(conn, rows, types);
      res, data := d.res, d.value;
    }
    return Ran(res, (types, names, data));
  }

  /** A result up to its last row. */
  function DecBody(b: Bytes): Parse<Message> {
    var (rows, r1) :- DecInt32(b);
    var (cols, r2) :- DecInt32(r1);
    if cols < 0 then Bad
    else
      var (table, r3) :- DecTable(rows, cols, r2);
      Got(Result(rows, cols, table.0, table.1, table.2, None), r3)
  }

  method ReceiveBody(conn: PlcConn) returns (r: Run<Message>)
    requires conn.Valid()
    modifies conn.InRepr()
    ensures Takes(conn, r, DecBody(old(conn.Stream())))
  {
    hide PlcConn.Valid, DecInt32, DecTable;
    var m: Message := *;
    var rows := ReceiveInt32(conn);
    var cols := ReceiveInt32(conn);
    var res := Or(rows.res, cols.res);
    if res == 0 {
      if cols.value < 0 {
        return Trap;  // the allocation of the columns
      }
      var table :- ReceiveTable(conn, rows.value, cols.value);
      res := table.res;
      m := Result(rows.value, cols.value, table.value.0, table.value.1, table.value.2, None);
    }
    return Ran(res, m);
  }

  /** The flag after the rows decides between the result and an exception instead of it. */
  method ReceiveResult(conn: PlcConn) returns (r: Run<Message>)
    requires conn.Valid()
    modifies conn.InRepr()
    ensures Takes(conn, r, DecResult(old(conn.Stream())))
  {
    hide PlcConn.Valid, DecInt32, DecByte, DecColumns, DecRows, DecError;
    ghost var b := conn.Stream();
    var body :- ReceiveBody(conn);
    var exc := ReceiveChar(conn);
    var res := Or(body.res, exc.res);
    if exc.value == MT_EXCEPTION {
      var e :- ReceiveError(conn);
      return Ran(Or(res, e.res), Exception(e.value));
    }
    return Ran(res, body.value);
  }

  method ReceiveLog(conn: PlcConn) returns (r: Run<Message>)
    requires conn.Valid()
    modifies conn.InRepr()
    ensures Takes(conn, r, DecLog(old(conn.Stream())))
  {
    hide PlcConn.Valid, DecInt32, DecCString;
    var level := ReceiveInt32(conn);
    var message :- ReceiveCString(conn);
    return Ran(Or(level.res, message.res), Log(level.value, message.value));
  }

  method ReceivePing(conn: PlcConn) returns (r: Run<Message>)
    requires conn.Valid()
    modifies conn.InRepr()
    ensures Takes(conn, r, DecPing(old(conn.Stream())))
  {
    hide PlcConn.Valid, DecCString;
    var ping :- ReceiveCString(conn);
    if ping.res == 0 {
      if ping.value.None? {
        return Trap;  // strncmp of a NULL pointer
      }
      if !(PING <= ping.value.value) {
        return Ran(-1, Ping);
      }
    }
    return Ran(ping.res, Ping);
  }

  method ReceiveSql(conn: PlcConn) returns (r: Run<Message>)
    requires conn.Valid()
    modifies conn.InRepr()
    ensures Takes(conn, r, DecSql(old(conn.Stream())))
  {
    hide PlcConn.Valid, DecInt32, DecCString;
    var m: Message := *;
    var sqlType := ReceiveInt32(conn);
    if sqlType.res != 0 {
      return Ran(sqlType.res, m);
    }
    if sqlType.value != SQL_TYPE_STATEMENT {
      return Trap;  // the error raised for an unhandled type
    }
    var statement :- ReceiveCString(conn);
    return Ran(statement.res, Sql(SQL_TYPE_STATEMENT, statement.value));
  }

  /** The byte is peeked for, then taken. */
  method ReceiveMessageType(conn: PlcConn) returns (r: Run<Byte>)
    requires conn.Valid()
    modifies conn.InRepr()
    ensures r.Ran? && Takes(conn, r, DecByte(old(conn.Stream())))
    ensures r.res != 0 ==>
      && conn.Stream() == old(conn.Stream())
      && (conn.rx.faults == old(conn.rx.faults) ==> conn.Stream() == [])
  {
    hide PlcConn.Valid;
    var res := conn.Receive(1);
    if res != 0 {
      return Ran(res, 64);  // '@'
    }
    r := ReceiveChar(conn);
  }

  /**
    pljvm_channel_receive: on code 0 the message and the bytes left over are what
    the decoder makes of the stream, however the socket cut it up; -3 means that
    not even a message type could be read.
  */
  method ReceiveMessage(conn: PlcConn) returns (r: Run<Message>)
    requires conn.Valid()
    modifies conn.InRepr()
    ensures Tells(conn, r, DecMsg(old(conn.Stream())))
    ensures r.Ran? ==> r.res == 0 || r.res == -1 || r.res == -3
    ensures r.Ran? && r.res == -3 ==>
      && conn.Stream() == old(conn.Stream())
      && (conn.rx.faults == old(conn.rx.faults) ==> conn.Stream() == [])
    ensures old(conn.Stream()) == [] ==> r.Ran? && r.res == -3
  {
    hide PlcConn.Valid, DecByte, DecPing, DecCall, DecResult, DecError, DecLog, DecSql;
    var m: Message := *;
    var cType := ReceiveMessageType(conn);
    if cType.res < 0 {
      return Ran(-3, m);
    }
    if cType.value == MT_PING {
      r := ReceivePing(conn);
    } else if cType.value == MT_CALLREQ {
      r := ReceiveCall(conn);
    } else if cType.value == MT_RESULT {
      r := ReceiveResult(conn);
    } else if cType.value == MT_EXCEPTION {
      var e :- ReceiveError(conn);
      r := Ran(e.res, Exception(e.value));
    } else if cType.value == MT_LOG {
      r := ReceiveLog(conn);
    } else if cType.value == MT_SQL {
      r := ReceiveSql(conn);
    } else {
      return Trap;  // the error raised for an unknown type
    }
  }
}
