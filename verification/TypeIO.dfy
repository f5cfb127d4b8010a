/**
  Backend values and their wire form: the null-bitmap iterator over arrays, rows
  with dropped attributes, and the way back.

  Datums of types that go through their text in/out functions are represented by
  their text; arrays and rows by their elements and attributes.
*/
module TypeIO {
  import opened Primitives
  import opened Wire
  import opened Catalog

  datatype Datum =
    | NullDatum
    | Fixed(bytes: Bytes)
    | TextDatum(bytes: Bytes)
    | ByteaDatum(bytes: Bytes)
    | ArrayDatum(dims: seq<Int32>, lbounds: seq<Int32>, elems: seq<Datum>)
    | RowDatum(attrs: seq<Datum>)

  // ---------------------------------------------------------------------
  // The null-bitmap iterator
  // ---------------------------------------------------------------------

  /** The stored form of an array: an optional null bitmap, and the values that are not null. */
  datatype Layout = Layout(bitmap: Option<seq<bv8>>, packed: seq<Datum>)

  /** Bit i mod 8 of byte i / 8 is clear. */
  predicate NullAt(l: Layout, i: nat)
    requires l.bitmap.Some? ==> i / 8 < |l.bitmap.value|
  {
    l.bitmap.Some? && (l.bitmap.value[i / 8] >> (i % 8)) & 1 == 0
  }

  predicate Covers(l: Layout, size: nat) {
    l.bitmap.Some? ==> size <= 8 * |l.bitmap.value|
  }

  /** How many of the first `n` elements are not null. */
  function Present(l: Layout, n: nat): (k: nat)
    requires Covers(l, n)
    ensures k <= n
  {
    if n == 0 then 0 else Present(l, n - 1) + (if NullAt(l, n - 1) then 0 else 1)
  }

  predicate Stored(l: Layout, size: nat) {
    Covers(l, size) && |l.packed| == Present(l, size)
  }

  lemma {:induction false} PresentGrows(l: Layout, i: nat, n: nat)
    requires Covers(l, n) && i <= n
    ensures Present(l, i) <= Present(l, n)
    decreases n
  {
    if i < n {
      PresentGrows(l, i, n - 1);
    }
  }

  /** The i-th element: null, or the next of the packed values. */
  function ElementAt(l: Layout, size: nat, i: nat): Datum
    requires Stored(l, size) && i < size
  {
    PresentGrows(l, i + 1, size);
    if NullAt(l, i) then NullDatum else l.packed[Present(l, i)]
  }

  /** The stored form holds these elements. */
  predicate Holds(l: Layout, elems: seq<Datum>) {
    && Stored(l, |elems|) && NullDatum !in l.packed
    && (forall i | 0 <= i < |elems| :: elems[i] == ElementAt(l, |elems|, i))
  }

  predicate Clear(b: bv8, mask: bv16) { (b as bv16) & mask == 0 }

  function Shifted(mask: bv16): bv16 { mask << 1 }

  function Mask(k: nat): bv16
    requires k <= 8
  {
    1 << k
  }

  lemma MaskTests(b: bv8, k: nat)
    requires k < 8
    ensures Clear(b, Mask(k)) <==> (b >> k) & 1 == 0
    ensures Shifted(Mask(k)) == Mask(k + 1)
    ensures Mask(k + 1) == 0x100 <==> k == 7
  {
    if k == 0 {} else if k == 1 {} else if k == 2 {} else if k == 3 {}
    else if k == 4 {} else if k == 5 {} else if k == 6 {} else {}
  }

  lemma NeverNull(l: Layout, i: nat)
    requires l.bitmap.None?
    ensures !NullAt(l, i)
  {
  }

  /** The iterator's test, and where its bit moves. */
  lemma BitTest(l: Layout, i: nat)
    requires l.bitmap.Some? && i / 8 < |l.bitmap.value|
    ensures Clear(l.bitmap.value[i / 8], Mask(i % 8)) <==> NullAt(l, i)
    ensures if Shifted(Mask(i % 8)) == 0x100 then (i + 1) / 8 == i / 8 + 1 && Mask((i + 1) % 8) == 1
            else (i + 1) / 8 == i / 8 && Mask((i + 1) % 8) == Shifted(Mask(i % 8))
  {
    MaskTests(l.bitmap.value[i / 8], i % 8);
  }

  /** plcIterator over a backend array; positions are indices in place of pointers. */
  class ArrayIterator {
    const array_: Layout
    const size: nat
    var data: nat
    var bitmap: nat
    var bitmask: bv16
    ghost var position: nat

    constructor (l: Layout, size: nat)
      requires Stored(l, size)
      ensures Valid() && position == 0 && array_ == l && this.size == size
    {
      array_, this.size := l, size;
      data, bitmap, bitmask, position := 0, 0, 1, 0;
    }

    ghost predicate Valid()
      reads this
    {
      && Stored(array_, size) && position <= size
      && data == Present(array_, position)
      && (array_.bitmap.Some? ==> bitmap == position / 8 && bitmask == Mask(position % 8))
    }

    /** plc_backend_array_next, before the element is converted */
    method Next() returns (item: Datum)
      requires Valid() && position < size
      modifies this
      ensures Valid() && position == old(position) + 1
      ensures item == ElementAt(array_, size, old(position))
    {
      hide NullAt, Mask, Clear, Shifted;
      PresentGrows(array_, position + 1, size);
      if array_.bitmap.Some? {
        BitTest(array_, position);
      } else {
        NeverNull(array_, position);
      }
      if array_.bitmap.Some? && Clear(array_.bitmap.value[bitmap], bitmask) {
        item := NullDatum;
      } else {
        item := array_.packed[data];
        data := data + 1;
      }
      if array_.bitmap.Some? {
        bitmask := Shifted(bitmask);
        if bitmask == 0x100 {
          bitmap := bitmap + 1;
          bitmask := 1;
        }
      }
      position := position + 1;
    }
  }

  /** Running the iterator to its end yields the elements, in order. */
  method Drain(l: Layout, ghost elems: seq<Datum>, size: nat) returns (items: seq<Datum>)
    requires Holds(l, elems) && size == |elems|
    ensures items == elems
  {
    var iter := new ArrayIterator(l, size);
    items := [];
    for i := 0 to size
      invariant iter.Valid() && iter.position == i && iter.array_ == l && iter.size == size
      invariant items == elems[..i]
    {
      var item := iter.Next();
      items := items + [item];
    }
  }

  // ---------------------------------------------------------------------
  // What fill_type_info produces
  // ---------------------------------------------------------------------

  // PostgreSQL's limits: attributes of a row, and elements of an array (a gigabyte of datums).
  const MAX_ATTRIBUTES := 1600
  const MAX_ARRAY_SIZE := 0x3fff_ffff / 8

  /** The types whose array slots hold pointers. */
  predicate ByPointer(tag: int) { tag == PLC_DATA_TEXT || tag == PLC_DATA_BYTEA || tag == PLC_DATA_UDT }

  /**
    The shape of a filled type: arrays never hold arrays, rows occur on the first
    level only, and input functions go through a pointer exactly in array slots.
  */
  predicate WellFilled(t: TypeInfo, isArrayElement: bool, isUDTElement: bool) {
    && ShortString(t.typeName) && !t.attisdropped
    && t.byPointer == (isArrayElement && ByPointer(t.tag))
    && (if t.tag == PLC_DATA_ARRAY then
          !isArrayElement && |t.subTypes| == 1 && WellFilled(t.subTypes[0], true, isUDTElement)
        else if t.tag == PLC_DATA_UDT then
          && !isUDTElement && |t.subTypes| <= MAX_ATTRIBUTES
          && (forall i | 0 <= i < |t.subTypes| :: t.subTypes[i].attisdropped || WellFilled(t.subTypes[i], false, true))
        else
          (IsScalar(t.tag) || t.tag == PLC_DATA_TEXT || t.tag == PLC_DATA_BYTEA) && t.subTypes == [])
  }

  /** Names and attribute counts stay within PostgreSQL's limits. */
  predicate Bounded(cat: Snapshot, call: Option<TupleDesc>) {
    && (forall oid | oid in cat.types :: BoundedName(cat.types[oid].typname))
    && (forall oid | oid in cat.rels :: BoundedDesc(cat.rels[oid].desc))
    && (call.Some? ==> BoundedDesc(call.value))
  }

  predicate BoundedName(n: Name) { |n| < 64 && 0 !in n }

  predicate BoundedDesc(d: TupleDesc) {
    |d.attrs| <= MAX_ATTRIBUTES && forall i | 0 <= i < |d.attrs| :: BoundedName(d.attrs[i].attname)
  }

  lemma WellFilledIgnoresName(t: TypeInfo, name: CString, e: bool, u: bool)
    requires WellFilled(t, e, u) && ShortString(name)
    ensures WellFilled(t.(typeName := name), e, u)
  {
  }

  /** Every type the backend fills has that shape. */
  lemma {:induction false} FilledWell(cat: Snapshot, call: Option<TupleDesc>, oid: Oid, e: bool, u: bool)
    requires Bounded(cat, call) && WellFormed(cat)
    ensures var t := FillInner(cat, call, oid, e, u); t.Some? ==> WellFilled(t.value, e, u)
    decreases if u then 0 else 1, if e then 0 else 1
  {
    if oid in cat.types {
      var row := cat.types[oid];
      if !e && row.typelem != 0 && row.isArrayOut {
        FilledWell(cat, call, row.typelem, true, u);
      } else if !u && row.isComposite && row.typrelid in cat.rels {
        AttributesFilledWell(cat, call, cat.rels[row.typrelid].desc.attrs);
      } else if !u && oid == RECORDOID && call.Some? {
        AttributesFilledWell(cat, call, call.value.attrs);
      }
    }
  }

  lemma {:induction false} AttributesFilledWell(cat: Snapshot, call: Option<TupleDesc>, attrs: seq<Attribute>)
    requires Bounded(cat, call) && WellFormed(cat)
    requires forall i | 0 <= i < |attrs| :: BoundedName(attrs[i].attname)
    ensures var ts := FillAttributes(cat, call, attrs); ts.Some? ==>
      && |ts.value| == |attrs|
      && (forall i | 0 <= i < |attrs| :: ts.value[i].attisdropped || WellFilled(ts.value[i], false, true))
    decreases 0, 2, |attrs|
  {
    hide FillInner, WellFilled, Bounded, WellFormed;
    if attrs != [] {
      var a := attrs[0];
      FilledWell(cat, call, a.atttypid, false, true);
      AttributesFilledWell(cat, call, attrs[1..]);
      var t := FillInner(cat, call, a.atttypid, false, true);
      if t.Some? {
        WellFilledIgnoresName(t.value, Some(a.attname), false, true);
      }
    }
  }

  // ---------------------------------------------------------------------
  // Out: datum to wire value
  // ---------------------------------------------------------------------

  /** The datum is a value of the type; dropped attributes may hold anything. */
  predicate Fits(t: TypeInfo, d: Datum)
    decreases d
  {
    match d
    case NullDatum => true
    case Fixed(b) => IsScalar(t.tag) && |b| == Width(t.tag)
    case TextDatum(b) => t.tag == PLC_DATA_TEXT && ShortString(Some(b))
    case ByteaDatum(b) => t.tag == PLC_DATA_BYTEA && |b| <= INT_MAX - 4
    case ArrayDatum(dims, lbounds, elems) =>
      && t.tag == PLC_DATA_ARRAY && |t.subTypes| == 1
      && |lbounds| == |dims| <= 6 && SizeOf(|dims|, dims) == Some(|elems|) && |elems| <= MAX_ARRAY_SIZE
      && (forall i | 0 <= i < |elems| :: Fits(t.subTypes[0], elems[i]))
    case RowDatum(attrs) =>
      && t.tag == PLC_DATA_UDT && |attrs| == |t.subTypes|
      && (forall i | 0 <= i < |attrs| && !t.subTypes[i].attisdropped :: Fits(t.subTypes[i], attrs[i]))
  }

  /** The outfunc of a type. */
  function OutFunc(t: TypeInfo, d: Datum): Value
    requires Fits(t, d)
    decreases d, 0
  {
    match d
    case NullDatum => Null
    case Fixed(b) => Scalar(b)
    case TextDatum(b) => Text(Some(b))
    case ByteaDatum(b) => Bytea(b)
    case ArrayDatum(dims, _, elems) => Array(|dims|, dims, OutElems(t.subTypes[0], elems))
    case RowDatum(attrs) => Udt(OutFields(t.subTypes, attrs))
  }

  function OutElems(e: TypeInfo, elems: seq<Datum>): (vs: seq<Value>)
    requires forall i | 0 <= i < |elems| :: Fits(e, elems[i])
    ensures |vs| == |elems|
    decreases elems
  {
    if elems == [] then []
    else [OutFunc(e, elems[0])] + OutElems(e, elems[1..])
  }

  /** The fields of a row: one for each attribute that is not dropped. */
  function OutFields(ts: seq<TypeInfo>, attrs: seq<Datum>): (vs: seq<Value>)
    requires |attrs| == |ts|
    requires forall i | 0 <= i < |attrs| && !ts[i].attisdropped :: Fits(ts[i], attrs[i])
    decreases attrs
  {
    if ts == [] then []
    else if ts[0].attisdropped then OutFields(ts[1..], attrs[1..])
    else [OutFunc(ts[0], attrs[0])] + OutFields(ts[1..], attrs[1..])
  }

  /** C's conversion of a count to short. */
  function ToShort(n: int): Int16 { (n + 0x8000) % 0x1_0000 - 0x8000 }

  /** copy_type_info: the wire type, without dropped attributes. */
  function CopyType(t: TypeInfo): PlcType
    decreases t, 1
  {
    var subs := CopyTypes(t.subTypes);
    PlcType(t.tag, ToShort(|subs|), t.typeName, subs)
  }

  function CopyTypes(ts: seq<TypeInfo>): (r: seq<PlcType>)
    ensures |r| <= |ts|
    decreases ts, 0
  {
    if ts == [] then []
    else if ts[0].attisdropped then CopyTypes(ts[1..])
    else [CopyType(ts[0])] + CopyTypes(ts[1..])
  }

  // ---------------------------------------------------------------------
  // What the copy and the wire value hold, position by position
  // ---------------------------------------------------------------------

  /** How many of the first `n` attributes are not dropped: where attribute `n` goes if it is not. */
  function LiveBefore(ts: seq<TypeInfo>, n: nat): (k: nat)
    requires n <= |ts|
    ensures k <= n
  {
    if n == 0 then 0 else LiveBefore(ts, n - 1) + (if ts[n - 1].attisdropped then 0 else 1)
  }

  /** `w` has the tag and name of `t`, and a copy of each subtype that is not dropped in its place, at every depth. */
  predicate Copied(w: PlcType, t: TypeInfo)
    decreases t
  {
    && w.tag == t.tag && w.typeName == t.typeName
    && |w.subTypes| == LiveBefore(t.subTypes, |t.subTypes|)
    && (|w.subTypes| < 0x8000 ==> w.nSubTypes == |w.subTypes|)
    && (forall p | 0 <= p < |t.subTypes| && !t.subTypes[p].attisdropped ::
          && LiveBefore(t.subTypes, p) < |w.subTypes|
          && Copied(w.subTypes[LiveBefore(t.subTypes, p)], t.subTypes[p]))
  }

  /** `v` holds the value of `d`: elements in order, and each attribute that is not dropped in its place. */
  predicate Holding(t: TypeInfo, d: Datum, v: Value)
    decreases d
  {
    match d
    case NullDatum => v == Null
    case Fixed(b) => v == Scalar(b)
    case TextDatum(b) => v == Text(Some(b))
    case ByteaDatum(b) => v == Bytea(b)
    case ArrayDatum(dims, _, elems) =>
      && v.Array? && v.ndims == |dims| && v.dims == dims && |v.elems| == |elems| && |t.subTypes| == 1
      && (forall i | 0 <= i < |elems| :: Holding(t.subTypes[0], elems[i], v.elems[i]))
    case RowDatum(attrs) =>
      && v.Udt? && |attrs| == |t.subTypes| && |v.fields| == LiveBefore(t.subTypes, |t.subTypes|)
      && (forall p | 0 <= p < |attrs| && !t.subTypes[p].attisdropped ::
            && LiveBefore(t.subTypes, p) < |v.fields|
            && Holding(t.subTypes[p], attrs[p], v.fields[LiveBefore(t.subTypes, p)]))
  }

  lemma {:induction false} LiveBeforeRest(ts: seq<TypeInfo>, n: nat)
    requires 0 < n <= |ts|
    ensures LiveBefore(ts, n) == (if ts[0].attisdropped then 0 else 1) + LiveBefore(ts[1..], n - 1)
  {
    if n > 1 {
      LiveBeforeRest(ts, n - 1);
    }
  }

  lemma {:induction false} CopiesInPlace(ts: seq<TypeInfo>)
    ensures |CopyTypes(ts)| == LiveBefore(ts, |ts|)
    ensures forall p | 0 <= p < |ts| && !ts[p].attisdropped ::
      LiveBefore(ts, p) < |CopyTypes(ts)| && CopyTypes(ts)[LiveBefore(ts, p)] == CopyType(ts[p])
  {
    hide CopyType;
    if ts != [] {
      CopiesInPlace(ts[1..]);
      LiveBeforeRest(ts, |ts|);
      assert !ts[0].attisdropped ==> CopyTypes(ts)[1..] == CopyTypes(ts[1..]);
      forall p | 0 <= p < |ts| && !ts[p].attisdropped
        ensures LiveBefore(ts, p) < |CopyTypes(ts)| && CopyTypes(ts)[LiveBefore(ts, p)] == CopyType(ts[p])
      {
        if p > 0 {
          LiveBeforeRest(ts, p);
          assert CopyTypes(ts[1..])[LiveBefore(ts[1..], p - 1)] == CopyType(ts[1..][p - 1]);
        }
      }
    }
  }

  /** The copy has every name and tag in its place, at every depth. */
  lemma {:induction false} CopyIsCopied(t: TypeInfo)
    ensures Copied(CopyType(t), t)
    decreases t
  {
    hide LiveBefore, CopyTypes;
    CopiesInPlace(t.subTypes);
    forall p | 0 <= p < |t.subTypes| ensures Copied(CopyType(t.subTypes[p]), t.subTypes[p]) {
      CopyIsCopied(t.subTypes[p]);
    }
  }

  lemma {:induction false} ElemsInPlace(e: TypeInfo, elems: seq<Datum>)
    requires forall i | 0 <= i < |elems| :: Fits(e, elems[i])
    ensures forall i | 0 <= i < |elems| :: OutElems(e, elems)[i] == OutFunc(e, elems[i])
  {
    hide OutFunc, Fits;
    if elems != [] {
      ElemsInPlace(e, elems[1..]);
    }
  }

  lemma {:induction false} FieldsInPlace(ts: seq<TypeInfo>, attrs: seq<Datum>)
    requires |attrs| == |ts|
    requires forall i | 0 <= i < |attrs| && !ts[i].attisdropped :: Fits(ts[i], attrs[i])
    ensures |OutFields(ts, attrs)| == LiveBefore(ts, |ts|)
    ensures forall p | 0 <= p < |ts| && !ts[p].attisdropped ::
      LiveBefore(ts, p) < |OutFields(ts, attrs)| && OutFields(ts, attrs)[LiveBefore(ts, p)] == OutFunc(ts[p], attrs[p])
  {
    hide OutFunc, Fits;
    if ts != [] {
      FieldsInPlace(ts[1..], attrs[1..]);
      LiveBeforeRest(ts, |ts|);
      forall p | 0 <= p < |ts| && !ts[p].attisdropped
        ensures LiveBefore(ts, p) < |OutFields(ts, attrs)| && OutFields(ts, attrs)[LiveBefore(ts, p)] == OutFunc(ts[p], attrs[p])
      {
        if p > 0 {
          LiveBeforeRest(ts, p);
          assert ts[p] == ts[1..][p - 1];
        }
      }
    }
  }

  /** The wire value holds every element and attribute in its place, at every depth. */
  lemma {:induction false} OutIsHolding(t: TypeInfo, d: Datum)
    requires Fits(t, d)
    ensures Holding(t, d, OutFunc(t, d))
    decreases d
  {
    match d
    case ArrayDatum(dims, _, elems) =>
      ElemsInPlace(t.subTypes[0], elems);
      forall i | 0 <= i < |elems| ensures Holding(t.subTypes[0], elems[i], OutFunc(t.subTypes[0], elems[i])) {
        OutIsHolding(t.subTypes[0], elems[i]);
      }
    case RowDatum(attrs) =>
      FieldsInPlace(t.subTypes, attrs);
      forall p | 0 <= p < |attrs| && !t.subTypes[p].attisdropped
        ensures Holding(t.subTypes[p], attrs[p], OutFunc(t.subTypes[p], attrs[p]))
      {
        OutIsHolding(t.subTypes[p], attrs[p]);
      }
    case _ =>
  }

  // ---------------------------------------------------------------------
  // Alignment
  // ---------------------------------------------------------------------

  /**
    The value and the wire type agree at every depth, field for field, although
    one skips the dropped attributes while filling fields and the other while
    copying types; and no wire array holds arrays.
  */
  lemma {:induction false} OutMatchesType(t: TypeInfo, d: Datum, e: bool, u: bool)
    requires WellFilled(t, e, u) && Fits(t, d)
    ensures Matches(CopyType(t), OutFunc(t, d)) && Flat(CopyType(t), OutFunc(t, d))
    decreases d, 1
  {
    match d
    case ArrayDatum(dims, _, elems) =>
      assert CopyType(t).subTypes[0] == CopyType(t.subTypes[0]);
      ElemsMatch(t.subTypes[0], elems, u);
      var vs := OutElems(t.subTypes[0], elems);
      assert forall i | 0 <= i < |vs| :: vs[i] in vs;
    case RowDatum(attrs) =>
      assert |CopyTypes(t.subTypes)| <= MAX_ATTRIBUTES;
      FieldsMatch(t.subTypes, attrs);
    case _ =>
  }

  lemma {:induction false} ElemsMatch(e: TypeInfo, elems: seq<Datum>, u: bool)
    requires WellFilled(e, true, u)
    requires forall i | 0 <= i < |elems| :: Fits(e, elems[i])
    ensures forall v | v in OutElems(e, elems) :: Matches(CopyType(e), v) && Flat(CopyType(e), v)
    decreases elems, 0
  {
    hide Matches, Flat, CopyType, OutFunc, Fits, WellFilled;
    if elems != [] {
      OutMatchesType(e, elems[0], true, u);
      ElemsMatch(e, elems[1..], u);
    }
  }

  lemma {:induction false} FieldsMatch(ts: seq<TypeInfo>, attrs: seq<Datum>)
    requires |attrs| == |ts|
    requires forall i | 0 <= i < |ts| :: ts[i].attisdropped || WellFilled(ts[i], false, true)
    requires forall i | 0 <= i < |attrs| && !ts[i].attisdropped :: Fits(ts[i], attrs[i])
    ensures var ws, vs := CopyTypes(ts), OutFields(ts, attrs);
      |ws| == |vs| && forall i | 0 <= i < |vs| :: Matches(ws[i], vs[i]) && Flat(ws[i], vs[i])
    decreases attrs, 0
  {
    hide Matches, Flat, CopyType, OutFunc, Fits, WellFilled;
    if ts != [] {
      FieldsMatch(ts[1..], attrs[1..]);
      if !ts[0].attisdropped {
        OutMatchesType(ts[0], attrs[0], false, true);
      }
    }
  }

  /** The wire type is one the channel can carry. */
  lemma {:induction false} CopyIsGood(t: TypeInfo, e: bool, u: bool)
    requires WellFilled(t, e, u)
    ensures GoodType(CopyType(t))
    decreases t, 1
  {
    if t.tag == PLC_DATA_ARRAY {
      CopyIsGood(t.subTypes[0], true, u);
      assert CopyTypes(t.subTypes) == [CopyType(t.subTypes[0])];
    } else if t.tag == PLC_DATA_UDT {
      CopiesAreGood(t.subTypes);
    }
  }

  lemma {:induction false} CopiesAreGood(ts: seq<TypeInfo>)
    requires forall i | 0 <= i < |ts| :: ts[i].attisdropped || WellFilled(ts[i], false, true)
    ensures forall i | 0 <= i < |CopyTypes(ts)| :: GoodType(CopyTypes(ts)[i])
    decreases ts, 0
  {
    if ts != [] {
      CopiesAreGood(ts[1..]);
      if !ts[0].attisdropped {
        CopyIsGood(ts[0], false, true);
      }
    }
  }
}
