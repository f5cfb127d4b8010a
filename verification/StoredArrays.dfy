/**
  Arrays as the backend stores them, null bitmap and packed values, from the iterator
  through the sender and the wire back to a datum.
*/
module StoredArrays {
  import opened Primitives
  import opened Wire
  import opened Transport
  import opened Catalog
  import opened TypeIO
  import opened TypeIn
  import CS = ChannelSend
  import Conversation

  /** What the iterator hands to the object sender. */
  lemma ElementIsSendable(e: TypeInfo, d: Datum, u: bool)
    requires WellFilled(e, true, u) && Fits(e, d)
    ensures Matches(CopyType(e), OutFunc(e, d)) && CS.Supported(OutFunc(e, d))
  {
    OutMatchesType(e, d, true, u);
    Conversation.FlatIsSupported(CopyType(e), OutFunc(e, d));
  }

  /** The element loop of send_raw_array_iter, drawing from the iterator. */
  method SendElements(conn: PlcConn, e: TypeInfo, l: Layout, size: nat, ghost elems: seq<Datum>, ghost u: bool)
    returns (res: int)
    requires conn.Valid() && WellFilled(e, true, u)
    requires Holds(l, elems) && size == |elems| && forall i | 0 <= i < |elems| :: Fits(e, elems[i])
    modifies conn.OutRepr()
    ensures CS.Appends(conn, res, EncRaws(OutElems(e, elems)))
  {
    hide PlcConn.Valid, EncRaw, Matches, OutFunc, Fits, WellFilled, CopyType;
    ghost var a0 := conn.Appended();
    var iter := new ArrayIterator(l, size);
    res := 0;
    ghost var done: Bytes := [];
    var i := 0;
    while i < size && res == 0
      invariant 0 <= i <= size && CS.Appends(conn, res, done)
      invariant iter.Valid() && iter.position == i && iter.array_ == l && iter.size == size
      invariant fresh(iter) && iter !in conn.OutRepr()
      invariant res == 0 ==> done + EncRaws(OutElems(e, elems[i..])) == EncRaws(OutElems(e, elems))
    {
      var item := iter.Next();
      assert item == elems[i];
      ElementIsSendable(e, item, u);
      assert elems[i..][1..] == elems[i + 1..];
      assert OutElems(e, elems[i..])[1..] == OutElems(e, elems[i + 1..]);
      ConcatAssoc(done, EncRaw(OutFunc(e, item)), EncRaws(OutElems(e, elems[i + 1..])));
      ConcatAssoc(a0, done, EncRaw(OutFunc(e, item)));
      var more := CS.SendRawObject(conn, CopyType(e), OutFunc(e, item));
      res := Or(res, more.res);
      done := done + EncRaw(OutFunc(e, item));
      i := i + 1;
    }
  }

  /** send_raw_array_iter over a stored array, behind its flag. */
  method SendArray(conn: PlcConn, t: TypeInfo, dims: seq<Int32>, l: Layout, ghost lbounds: seq<Int32>, ghost elems: seq<Datum>)
    returns (res: int)
    requires conn.Valid() && WellFilled(t, false, false)
    requires Fits(t, ArrayDatum(dims, lbounds, elems)) && Holds(l, elems)
    modifies conn.OutRepr()
    ensures CS.Appends(conn, res, EncRaw(OutFunc(t, ArrayDatum(dims, lbounds, elems))))
  {
    hide PlcConn.Valid, Le, EncRaws, EncInts, WellFilled, CopyType, SizeOf;
    ghost var a0 := conn.Appended();
    var e := t.subTypes[0];
    assert WellFilled(e, true, false) by { ElementIsFilled(t); }
    res := CS.SendChar(conn, DATA);
    var more := CS.SendInt32(conn, |dims|);
    res := Or(res, more);
    more := CS.SendDims(conn, dims);
    res := Or(res, more);
    ghost var body := EncRaws(OutElems(e, elems));
    ConcatAssoc(a0, [DATA], Le(|dims|, 4));
    ConcatAssoc(a0, [DATA] + Le(|dims|, 4), EncInts(dims));
    ConcatAssoc(a0, [DATA] + Le(|dims|, 4) + EncInts(dims), body);
    Grouped(Le(|dims|, 4), EncInts(dims), body);
    if res == 0 {
      res := SendElements(conn, e, l, SizeOf(|dims|, dims).value, elems, false);
    }
  }

  lemma ElementIsFilled(t: TypeInfo)
    requires WellFilled(t, false, false) && t.tag == PLC_DATA_ARRAY
    ensures WellFilled(t.subTypes[0], true, false)
  {
  }

  lemma Grouped(a: Bytes, b: Bytes, c: Bytes)
    ensures [DATA] + a + b + c == [DATA] + (a + b + c)
  {
  }

  /** The bytes, in front of any others, decode to a value that becomes the given array. */
  ghost predicate Arrives(sent: Bytes, name: CString, t: TypeInfo, dims: seq<Int32>, elems: seq<Datum>, s: Bytes, junk: Datum) {
    var p := DecArgument(sent + s);
    && p.Got? && p.rest == s && p.value.name == name && p.value.typ == CopyType(t) && !p.value.data.Null?
    && var r := InFunc(t, p.value.data, false, junk);
    && r.Some? && SameButBounds(ArrayDatum(dims, [], elems), r.value) && BasedAtOne(r.value)
  }

  /**
    The whole path of a stored array: whatever its null bitmap, what is sent for it as
    an argument decodes, in front of any bytes, to a value that becomes the same
    array, with its dimensions, nulls and element order, and lower bounds of 1.
  */
  method SendArgument(conn: PlcConn, name: CString, t: TypeInfo, dims: seq<Int32>, l: Layout,
                      ghost lbounds: seq<Int32>, ghost elems: seq<Datum>)
    returns (res: int, ghost sent: Bytes)
    requires conn.Valid() && ShortString(name) && WellFilled(t, false, false) && NoDropped(t)
    requires Fits(t, ArrayDatum(dims, lbounds, elems)) && Holds(l, elems)
    modifies conn.OutRepr()
    ensures CS.Appends(conn, res, sent)
    ensures sent == EncArgument(Argument(name, CopyType(t), OutFunc(t, ArrayDatum(dims, lbounds, elems))))
    ensures forall s, junk :: Arrives(sent, name, t, dims, elems, s, junk)
  {
    hide PlcConn.Valid, EncRaw, EncCString, EncType, WellFilled, CopyType, OutFunc, Fits, InFunc, DecArgument, BasedAtOne;
    ghost var a0, d := conn.Appended(), ArrayDatum(dims, lbounds, elems);
    forall s, junk ensures Arrives(EncArgument(Argument(name, CopyType(t), OutFunc(t, d))), name, t, dims, elems, s, junk) {
      ArgumentPath(name, t, d, s, junk);
    }
    hide Arrives;
    CopyIsGood(t, false, false);
    sent := EncCString(name) + EncType(CopyType(t)) + EncRaw(OutFunc(t, d));
    res := CS.SendCString(conn, name);
    var more := CS.SendType(conn, CopyType(t));
    res := Or(res, more);
    ConcatAssoc(a0, EncCString(name), EncType(CopyType(t)));
    ConcatAssoc(a0, EncCString(name) + EncType(CopyType(t)), EncRaw(OutFunc(t, d)));
    more := SendArray(conn, t, dims, l, lbounds, elems);
    res := Or(res, more);
  }
}
