/**
  Locality: what a receive makes of a stream does not change when the stream
  grows, so a message cut short is never taken for another message.
*/
module Locality {
  import opened Primitives
  import opened Wire
  import opened RoundTrip

  /** `q` is the outcome on the stream of `p` extended by `s`. */
  ghost predicate Stable<T>(p: Parse<T>, q: Parse<T>, s: Bytes) {
    match p
    case Got(v, r) => q == Got(v, r + s)
    case Short => true
    case Bad => q.Bad?
  }

  lemma BytesStable(n: nat, b: Bytes, s: Bytes)
    ensures Stable(DecBytes(n, b), DecBytes(n, b + s), s)
  {
    if n <= |b| {
      assert (b + s)[..n] == b[..n];
      assert (b + s)[n..] == b[n..] + s;
    }
  }

  lemma IntsAreStable(b: Bytes, s: Bytes)
    ensures Stable(DecByte(b), DecByte(b + s), s)
    ensures Stable(DecInt16(b), DecInt16(b + s), s)
    ensures Stable(DecInt32(b), DecInt32(b + s), s)
    ensures Stable(DecUInt32(b), DecUInt32(b + s), s)
  {
    hide Signed, FromLe, DecBytes;
    BytesStable(1, b, s);
    BytesStable(2, b, s);
    BytesStable(4, b, s);
  }

  lemma Int32Stable(b: Bytes, s: Bytes)
    ensures Stable(DecInt32(b), DecInt32(b + s), s)
  {
    IntsAreStable(b, s);
  }

  lemma CStringStable(b: Bytes, s: Bytes)
    ensures Stable(DecCString(b), DecCString(b + s), s)
  {
    StringsAreStable(b, s);
  }

  lemma StringsAreStable(b: Bytes, s: Bytes)
    ensures Stable(DecCString(b), DecCString(b + s), s)
    ensures Stable(DecBytea(b), DecBytea(b + s), s)
  {
    hide DecInt32, DecBytes;
    IntsAreStable(b, s);
    var p := DecInt32(b);
    if p.Got? && p.value >= 0 {
      BytesStable(p.value, p.rest, s);
    }
  }

  lemma {:induction false} TypeStable(b: Bytes, s: Bytes)
    ensures Stable(DecType(b), DecType(b + s), s)
    decreases |b|, 0
  {
    hide DecByte, DecInt16, DecCString;
    IntsAreStable(b, s);
    var p1 := DecByte(b);
    if p1.Got? {
      StringsAreStable(p1.rest, s);
      var p2 := DecCString(p1.rest);
      if p2.Got? && IsNested(TagOf(p1.value)) {
        IntsAreStable(p2.rest, s);
        var p3 := DecInt16(p2.rest);
        if p3.Got? {
          TypesStable(Max(p3.value, 0), p3.rest, s);
        }
      }
    }
  }

  lemma {:induction false} TypesStable(n: nat, b: Bytes, s: Bytes)
    ensures Stable(DecTypes(n, b), DecTypes(n, b + s), s)
    decreases |b|, 1, n
  {
    hide DecType;
    if n > 0 {
      TypeStable(b, s);
      var p := DecType(b);
      if p.Got? {
        TypesStable(n - 1, p.rest, s);
      }
    }
  }

  lemma {:induction false} DimsStable(n: nat, b: Bytes, s: Bytes)
    ensures Stable(DecInts(n, b), DecInts(n, b + s), s)
  {
    hide DecInt32;
    if n > 0 {
      IntsAreStable(b, s);
      var p := DecInt32(b);
      if p.Got? {
        DimsStable(n - 1, p.rest, s);
      }
    }
  }

  lemma {:induction false} RawStable(t: PlcType, b: Bytes, s: Bytes)
    ensures Stable(DecRaw(t, b), DecRaw(t, b + s), s)
    decreases t, 4
  {
    hide DecByte, DecBytes, DecCString, DecBytea, DecArray, DecFields;
    IntsAreStable(b, s);
    var p := DecByte(b);
    if p.Got? && p.value != NULL {
      if IsScalar(t.tag) {
        BytesStable(Width(t.tag), p.rest, s);
      } else if t.tag == PLC_DATA_ARRAY {
        if t.subTypes != [] {
          ArrayStable(t.subTypes[0], p.rest, s);
        }
      } else if t.tag == PLC_DATA_UDT {
        FieldsStable(t.subTypes, p.rest, s);
      } else {
        StringsAreStable(p.rest, s);
      }
    }
  }

  lemma {:induction false} ArrayStable(e: PlcType, b: Bytes, s: Bytes)
    ensures Stable(DecArray(e, b), DecArray(e, b + s), s)
    decreases e, 3
  {
    hide DecInt32, DecInts, DecElems, SizeOf;
    IntsAreStable(b, s);
    var p1 := DecInt32(b);
    if p1.Got? {
      DimsStable(Max(p1.value, 0), p1.rest, s);
      var p2 := DecInts(Max(p1.value, 0), p1.rest);
      if p2.Got? {
        var size := SizeOf(p1.value, p2.value);
        if size.Some? && size.value > 0 && IsElement(e.tag) {
          ElemsStable(e, size.value, p2.rest, s);
        }
      }
    }
  }

  lemma {:induction false} ElemsStable(e: PlcType, n: nat, b: Bytes, s: Bytes)
    requires IsElement(e.tag)
    ensures Stable(DecElems(e, n, b), DecElems(e, n, b + s), s)
    decreases e, 2, n
  {
    hide DecElem;
    if n > 0 {
      ElemStable(e, b, s);
      var p := DecElem(e, b);
      if p.Got? {
        ElemsStable(e, n - 1, p.rest, s);
      }
    }
  }

  lemma {:induction false} ElemStable(e: PlcType, b: Bytes, s: Bytes)
    requires IsElement(e.tag)
    ensures Stable(DecElem(e, b), DecElem(e, b + s), s)
    decreases e, 1
  {
    hide DecByte, DecBytes, DecCString, DecBytea, DecFields;
    IntsAreStable(b, s);
    var p := DecByte(b);
    if p.Got? && p.value != NULL {
      if IsScalar(e.tag) {
        BytesStable(Width(e.tag), p.rest, s);
      } else if e.tag == PLC_DATA_UDT {
        FieldsStable(e.subTypes, p.rest, s);
      } else {
        StringsAreStable(p.rest, s);
      }
    }
  }

  lemma {:induction false} FieldsStable(ts: seq<PlcType>, b: Bytes, s: Bytes)
    ensures Stable(DecFields(ts, b), DecFields(ts, b + s), s)
    decreases ts, 0
  {
    hide DecRaw;
    if ts != [] {
      RawStable(ts[0], b, s);
      var p := DecRaw(ts[0], b);
      if p.Got? {
        FieldsStable(ts[1..], p.rest, s);
      }
    }
  }

  lemma ArgumentStable(b: Bytes, s: Bytes)
    ensures Stable(DecArgument(b), DecArgument(b + s), s)
  {
    hide DecCString, DecType, DecRaw;
    StringsAreStable(b, s);
    var p1 := DecCString(b);
    if p1.Got? {
      TypeStable(p1.rest, s);
      var p2 := DecType(p1.rest);
      if p2.Got? {
        RawStable(p2.value, p2.rest, s);
      }
    }
  }

  lemma {:induction false} ArgumentsStable(n: nat, b: Bytes, s: Bytes)
    ensures Stable(DecArguments(n, b), DecArguments(n, b + s), s)
  {
    hide DecArgument;
    if n > 0 {
      ArgumentStable(b, s);
      var p := DecArgument(b);
      if p.Got? {
        ArgumentsStable(n - 1, p.rest, s);
      }
    }
  }

  lemma {:induction false} ColumnsStable(n: nat, b: Bytes, s: Bytes)
    ensures Stable(DecColumns(n, b), DecColumns(n, b + s), s)
  {
    hide DecType, DecCString;
    if n > 0 {
      TypeStable(b, s);
      var p := DecType(b);
      if p.Got? {
        StringsAreStable(p.rest, s);
        var q := DecCString(p.rest);
        if q.Got? {
          ColumnsStable(n - 1, q.rest, s);
        }
      }
    }
  }

  lemma {:induction false} RowsStable(n: nat, types: seq<PlcType>, b: Bytes, s: Bytes)
    ensures Stable(DecRows(n, types, b), DecRows(n, types, b + s), s)
  {
    hide DecFields;
    if n > 0 {
      FieldsStable(types, b, s);
      var p := DecFields(types, b);
      if p.Got? {
        RowsStable(n - 1, types, p.rest, s);
      }
    }
  }

  lemma ErrorStable(b: Bytes, s: Bytes)
    ensures Stable(DecError(b), DecError(b + s), s)
  {
    hide DecCString;
    StringsAreStable(b, s);
    var p := DecCString(b);
    if p.Got? {
      StringsAreStable(p.rest, s);
    }
  }

  lemma CallStable(b: Bytes, s: Bytes)
    ensures Stable(DecCall(b), DecCall(b + s), s)
  {
    hide DecCString, DecUInt32, DecInt32, DecType, DecArguments;
    CStringStable(b, s);
    var p1 := DecCString(b);
    if !p1.Got? { return; }
    CStringStable(p1.rest, s);
    var p2 := DecCString(p1.rest);
    if !p2.Got? { return; }
    IntsAreStable(p2.rest, s);
    var p3 := DecUInt32(p2.rest);
    if !p3.Got? { return; }
    Int32Stable(p3.rest, s);
    var p4 := DecInt32(p3.rest);
    if !p4.Got? { return; }
    TypeStable(p4.rest, s);
    var p5 := DecType(p4.rest);
    if !p5.Got? { return; }
    Int32Stable(p5.rest, s);
    var p6 := DecInt32(p5.rest);
    if !p6.Got? { return; }
    Int32Stable(p6.rest, s);
    var p7 := DecInt32(p6.rest);
    if !p7.Got? || p7.value < 0 { return; }
    ArgumentsStable(p7.value, p7.rest, s);
  }

  lemma ResultStable(b: Bytes, s: Bytes)
    ensures Stable(DecResult(b), DecResult(b + s), s)
  {
    hide DecInt32, DecColumns, DecRows, DecByte, DecError;
    Int32Stable(b, s);
    var p1 := DecInt32(b);
    if !p1.Got? { return; }
    Int32Stable(p1.rest, s);
    var p2 := DecInt32(p1.rest);
    if !p2.Got? || p2.value < 0 { return; }
    ColumnsStable(p2.value, p2.rest, s);
    var p3 := DecColumns(p2.value, p2.rest);
    if !p3.Got? { return; }
    RowsStable(Max(p1.value, 0), p3.value.0, p3.rest, s);
    var p4 := DecRows(Max(p1.value, 0), p3.value.0, p3.rest);
    if !p4.Got? { return; }
    IntsAreStable(p4.rest, s);
    var p5 := DecByte(p4.rest);
    if !p5.Got? { return; }
    ErrorStable(p5.rest, s);
  }

  lemma IntThenStringStable(b: Bytes, s: Bytes)
    ensures Stable(DecLog(b), DecLog(b + s), s)
    ensures Stable(DecSql(b), DecSql(b + s), s)
  {
    hide DecInt32, DecCString;
    IntsAreStable(b, s);
    var p := DecInt32(b);
    if p.Got? {
      StringsAreStable(p.rest, s);
    }
  }

  /**
    Locality: on a longer stream a received message is the same message, with the
    same bytes consumed, and a refused stream is still refused.
  */
  lemma MessageStable(b: Bytes, s: Bytes)
    ensures Stable(DecMsg(b), DecMsg(b + s), s)
  {
    hide DecByte, DecCString, DecCall, DecResult, DecError, DecLog, DecSql;
    IntsAreStable(b, s);
    var p := DecByte(b);
    if p.Got? {
      StringsAreStable(p.rest, s);
      CallStable(p.rest, s);
      ResultStable(p.rest, s);
      ErrorStable(p.rest, s);
      IntThenStringStable(p.rest, s);
    }
  }

  /**
    Truncation: cut anywhere inside a message, a stream runs short; it is neither
    refused nor taken for some other message.
  */
  lemma TruncationIsShort(b: Bytes, k: nat)
    requires DecMsg(b).Got?
    requires k < |b| - |DecMsg(b).rest|
    ensures DecMsg(b[..k]) == Short
  {
    hide DecMsg;
    assert b == b[..k] + b[k..];
    MessageStable(b[..k], b[k..]);
  }

  /** In particular a receiver that has only part of a sent message never takes it for a message. */
  lemma SentPrefixIsShort(m: Message, k: nat)
    requires GoodMsg(m) && Deliverable(m)
    requires k < |EncMsg(m)|
    ensures DecMsg(EncMsg(m)[..k]) == Short
  {
    hide EncMsg, DecMsg;
    MessageBack(m, []);
    assert EncMsg(m) + [] == EncMsg(m);
    TruncationIsShort(EncMsg(m), k);
  }
}
