/**
  The way back: wire values to datums, the loops that convert rows, and the calls
  the backend makes.
*/
module TypeIn {
  import opened Primitives
  import opened Wire
  import opened Catalog
  import opened TypeIO
  import opened RoundTrip

  /** A fresh lower bound of 1 in every dimension. */
  function Ones(n: nat): seq<Int32> { seq(n, _ => 1) }

  /**
    The infunc of a type; None where it would go wrong: a dropped attribute has no
    infunc, a value of another type would be misread, and so would a value reached
    through one pointer too many or too few.  `junk` is what memory that is never
    written happens to hold.
  */
  function InFunc(t: TypeInfo, v: Value, inSlot: bool, junk: Datum): Option<Datum>
    requires !v.Null?
    decreases v, 1, 0
  {
    if t.attisdropped || t.byPointer != (inSlot && ByPointer(t.tag)) then None
    else match v
      case Scalar(b) => if IsScalar(t.tag) && |b| == Width(t.tag) then Some(Fixed(b)) else None
      case Text(s) => if t.tag == PLC_DATA_TEXT && s.Some? then Some(TextDatum(s.value)) else None
      case Bytea(b) => if t.tag == PLC_DATA_BYTEA then Some(ByteaDatum(b)) else None
      case Array(n, dims, elems) =>
        if t.tag == PLC_DATA_ARRAY && |t.subTypes| == 1 && n == |dims| then
          match InElems(t.subTypes[0], elems, junk)
          case None => None
          case Some(ds) => Some(ArrayDatum(dims, Ones(|dims|), ds))
        else None
      case Udt(fields) =>
        if t.tag == PLC_DATA_UDT then
          match InFields(t.subTypes, fields, 0, 0, junk)
          case None => None
          case Some(ds) => Some(RowDatum(ds))
        else None
      case Unsupported => None
  }

  /** plc_datum_from_array: one datum per slot, nulls where the flags say so. */
  function InElems(e: TypeInfo, vs: seq<Value>, junk: Datum): (r: Option<seq<Datum>>)
    ensures r.Some? ==> |r.value| == |vs|
    decreases vs, 0, 0
  {
    if vs == [] then Some([])
    else
      var first := if vs[0].Null? then Some(NullDatum) else InFunc(e, vs[0], true, junk);
      match (first, InElems(e, vs[1..], junk))
      case (Some(d), Some(ds)) => Some([d] + ds)
      case _ => None
  }

  /**
    plc_datum_from_udt from attribute `i` and field `j` on.  The infunc is taken
    from attribute j, and the slot of a dropped attribute is not written.
  */
  function InFields(ts: seq<TypeInfo>, fields: seq<Value>, i: nat, j: nat, junk: Datum): (r: Option<seq<Datum>>)
    requires j <= i <= |ts|
    ensures r.Some? ==> |r.value| == |ts| - i
    decreases fields, 0, |ts| - i
  {
    if i == |ts| then Some([])
    else if ts[i].attisdropped then
      match InFields(ts, fields, i + 1, j, junk)
      case None => None
      case Some(ds) => Some([junk] + ds)
    else if j >= |fields| then None
    else
      var first := if fields[j].Null? then Some(NullDatum) else InFunc(ts[j], fields[j], false, junk);
      match (first, InFields(ts, fields, i + 1, j + 1, junk))
      case (Some(d), Some(ds)) => Some([d] + ds)
      case _ => None
  }

  /** The same value with every array's lower bounds at 1. */
  function Rebased(d: Datum): Datum
    decreases d, 0
  {
    match d
    case ArrayDatum(dims, _, elems) => ArrayDatum(dims, Ones(|dims|), RebasedAll(elems))
    case RowDatum(attrs) => RowDatum(RebasedAll(attrs))
    case _ => d
  }

  function RebasedAll(ds: seq<Datum>): (r: seq<Datum>)
    ensures |r| == |ds| && forall i | 0 <= i < |ds| :: r[i] == Rebased(ds[i])
    decreases ds
  {
    if ds == [] then [] else [Rebased(ds[0])] + RebasedAll(ds[1..])
  }

  /** Every array, at any depth, has one lower bound for each dimension, and it is 1. */
  predicate BasedAtOne(d: Datum) {
    match d
    case ArrayDatum(dims, lbounds, elems) =>
      && |lbounds| == |dims| && (forall k | 0 <= k < |lbounds| :: lbounds[k] == 1)
      && (forall i | 0 <= i < |elems| :: BasedAtOne(elems[i]))
    case RowDatum(attrs) => forall i | 0 <= i < |attrs| :: BasedAtOne(attrs[i])
    case _ => true
  }

  predicate AllBasedAtOne(ds: seq<Datum>) { forall i | 0 <= i < |ds| :: BasedAtOne(ds[i]) }

  lemma OneMoreBased(d: Datum, ds: seq<Datum>)
    requires BasedAtOne(d) && AllBasedAtOne(ds)
    ensures AllBasedAtOne([d] + ds)
  {
    hide BasedAtOne;
  }

  lemma NullIsBased()
    ensures BasedAtOne(NullDatum) && AllBasedAtOne([])
  {
  }

  /** The infuncs set every lower bound to 1; only what they never write may differ. */
  lemma {:induction false} InIsBasedAtOne(t: TypeInfo, v: Value, e: bool, junk: Datum)
    requires !v.Null? && BasedAtOne(junk)
    ensures var r := InFunc(t, v, e, junk); r.Some? ==> BasedAtOne(r.value)
    decreases v, 1, 0
  {
    match v
    case Array(n, dims, elems) =>
      if t.tag == PLC_DATA_ARRAY && |t.subTypes| == 1 {
        ElemsAreBasedAtOne(t.subTypes[0], elems, junk);
      }
    case Udt(fields) => FieldsAreBasedAtOne(t.subTypes, fields, 0, 0, junk);
    case _ =>
  }

  lemma {:induction false} ElemsAreBasedAtOne(e: TypeInfo, vs: seq<Value>, junk: Datum)
    requires BasedAtOne(junk)
    ensures var r := InElems(e, vs, junk); r.Some? ==> AllBasedAtOne(r.value)
    decreases vs, 0, 0
  {
    hide InFunc, BasedAtOne, AllBasedAtOne;
    NullIsBased();
    if vs != [] && InElems(e, vs, junk).Some? {
      ElemsAreBasedAtOne(e, vs[1..], junk);
      if !vs[0].Null? {
        InIsBasedAtOne(e, vs[0], true, junk);
      }
      var d := if vs[0].Null? then NullDatum else InFunc(e, vs[0], true, junk).value;
      OneMoreBased(d, InElems(e, vs[1..], junk).value);
    }
  }

  lemma {:induction false} FieldsAreBasedAtOne(ts: seq<TypeInfo>, fields: seq<Value>, i: nat, j: nat, junk: Datum)
    requires j <= i <= |ts| && BasedAtOne(junk)
    ensures var r := InFields(ts, fields, i, j, junk); r.Some? ==> AllBasedAtOne(r.value)
    decreases fields, 0, |ts| - i
  {
    hide InFunc, BasedAtOne, AllBasedAtOne;
    NullIsBased();
    if i < |ts| && InFields(ts, fields, i, j, junk).Some? {
      if ts[i].attisdropped {
        FieldsAreBasedAtOne(ts, fields, i + 1, j, junk);
        OneMoreBased(junk, InFields(ts, fields, i + 1, j, junk).value);
      } else {
        FieldsAreBasedAtOne(ts, fields, i + 1, j + 1, junk);
        if !fields[j].Null? {
          InIsBasedAtOne(ts[j], fields[j], false, junk);
        }
        var d := if fields[j].Null? then NullDatum else InFunc(ts[j], fields[j], false, junk).value;
        OneMoreBased(d, InFields(ts, fields, i + 1, j + 1, junk).value);
      }
    }
  }

  /** The two differ in nothing but lower bounds. */
  predicate SameButBounds(d: Datum, r: Datum) {
    match d
    case ArrayDatum(dims, _, elems) =>
      && r.ArrayDatum? && r.dims == dims && |r.elems| == |elems|
      && (forall i | 0 <= i < |elems| :: SameButBounds(elems[i], r.elems[i]))
    case RowDatum(attrs) =>
      && r.RowDatum? && |r.attrs| == |attrs|
      && (forall i | 0 <= i < |attrs| :: SameButBounds(attrs[i], r.attrs[i]))
    case _ => r == d
  }

  lemma {:induction false} RebasedIsSame(d: Datum)
    ensures SameButBounds(d, Rebased(d)) && BasedAtOne(Rebased(d))
    decreases d
  {
    match d
    case ArrayDatum(_, _, elems) =>
      forall i | 0 <= i < |elems| ensures SameButBounds(elems[i], Rebased(elems[i])) && BasedAtOne(Rebased(elems[i])) {
        RebasedIsSame(elems[i]);
      }
    case RowDatum(attrs) =>
      forall i | 0 <= i < |attrs| ensures SameButBounds(attrs[i], Rebased(attrs[i])) && BasedAtOne(Rebased(attrs[i])) {
        RebasedIsSame(attrs[i]);
      }
    case _ =>
  }

  predicate NoDropped(t: TypeInfo) {
    !t.attisdropped && forall i | 0 <= i < |t.subTypes| :: NoDropped(t.subTypes[i])
  }

  /**
    Without dropped attributes the way back undoes the way out, whatever unwritten
    memory holds; only array lower bounds are lost.
  */
  lemma {:induction false} InInvertsOut(t: TypeInfo, d: Datum, e: bool, u: bool, junk: Datum)
    requires WellFilled(t, e, u) && Fits(t, d) && NoDropped(t) && d != NullDatum
    ensures var r := InFunc(t, OutFunc(t, d), e, junk);
      r == Some(Rebased(d)) && SameButBounds(d, r.value) && BasedAtOne(r.value)
    decreases d, 1, 0
  {
    RebasedIsSame(d);
    hide SameButBounds, BasedAtOne, InElems, OutElems, InFields, OutFields, SizeOf, RebasedAll, ShortString;
    match d
    case ArrayDatum(dims, _, elems) => ElemsInvert(t.subTypes[0], elems, u, junk);
    case RowDatum(attrs) =>
      assert forall k | 0 <= k < |t.subTypes| :: !t.subTypes[k].attisdropped by {
        assert forall k | 0 <= k < |t.subTypes| :: NoDropped(t.subTypes[k]);
      }
      FieldsInvert(t.subTypes, attrs, 0, junk);
      assert attrs[0..] == attrs;
    case _ =>
  }

  lemma {:induction false} ElemsInvert(e: TypeInfo, elems: seq<Datum>, u: bool, junk: Datum)
    requires WellFilled(e, true, u) && NoDropped(e)
    requires forall i | 0 <= i < |elems| :: Fits(e, elems[i])
    ensures InElems(e, OutElems(e, elems), junk) == Some(RebasedAll(elems))
    decreases elems, 0, 0
  {
    hide InFunc, OutFunc, WellFilled, Fits, NoDropped, Rebased;
    if elems != [] {
      ElemsInvert(e, elems[1..], u, junk);
      assert OutElems(e, elems)[1..] == OutElems(e, elems[1..]);
      OnlyNullIsNull(e, elems[0]);
      if elems[0] != NullDatum {
        InInvertsOut(e, elems[0], true, u, junk);
      }
    }
  }

  lemma OnlyNullIsNull(t: TypeInfo, d: Datum)
    requires Fits(t, d)
    ensures OutFunc(t, d).Null? <==> d == NullDatum
    ensures Rebased(NullDatum) == NullDatum
  {
  }

  /** With nothing dropped fields and attributes are the same positions. */
  lemma {:induction false} FieldsInvert(ts: seq<TypeInfo>, attrs: seq<Datum>, i: nat, junk: Datum)
    requires |attrs| == |ts| && i <= |ts|
    requires forall k | 0 <= k < |ts| :: WellFilled(ts[k], false, true) && NoDropped(ts[k]) && Fits(ts[k], attrs[k])
    ensures |OutFields(ts, attrs)| == |ts|
    ensures InFields(ts, OutFields(ts, attrs), i, i, junk) == Some(RebasedAll(attrs[i..]))
    decreases attrs, 0, |ts| - i
  {
    hide InFunc, OutFunc, WellFilled, Fits, Rebased;
    OutFieldsAt(ts, attrs);
    if i < |ts| {
      FieldsInvert(ts, attrs, i + 1, junk);
      assert attrs[i..][1..] == attrs[i + 1..];
      OnlyNullIsNull(ts[i], attrs[i]);
      if attrs[i] != NullDatum {
        InInvertsOut(ts[i], attrs[i], false, true, junk);
      }
    }
  }

  lemma {:induction false} OutFieldsAt(ts: seq<TypeInfo>, attrs: seq<Datum>)
    requires |attrs| == |ts|
    requires forall k | 0 <= k < |ts| :: !ts[k].attisdropped && Fits(ts[k], attrs[k])
    ensures var vs := OutFields(ts, attrs);
      |vs| == |ts| && forall k | 0 <= k < |ts| :: vs[k] == OutFunc(ts[k], attrs[k])
    decreases |ts|
  {
    hide OutFunc, Fits;
    if ts != [] {
      OutFieldsAt(ts[1..], attrs[1..]);
    }
  }

  /** The slot of a dropped attribute holds whatever memory held. */
  lemma {:induction false} DroppedSlotIsJunk(ts: seq<TypeInfo>, fields: seq<Value>, i: nat, j: nat, k: nat, junk: Datum)
    requires j <= i <= k < |ts| && ts[k].attisdropped
    ensures var r := InFields(ts, fields, i, j, junk); r.Some? ==> r.value[k - i] == junk
    decreases k - i
  {
    hide InFunc;
    if i < k {
      if ts[i].attisdropped {
        DroppedSlotIsJunk(ts, fields, i + 1, j, k, junk);
      } else {
        DroppedSlotIsJunk(ts, fields, i + 1, j + 1, k, junk);
      }
    }
  }

  predicate Survives(t: TypeInfo, d: Datum, e: bool, junk: Datum)
    requires Fits(t, d) && d != NullDatum
  {
    && !OutFunc(t, d).Null?
    && var r := InFunc(t, OutFunc(t, d), e, junk);
    && r.Some? && SameButBounds(d, r.value) && BasedAtOne(r.value)
  }

  lemma WholeWithoutDropped(t: TypeInfo, attrs: seq<Datum>, e: bool, junk: Datum)
    requires WellFilled(t, e, false) && Fits(t, RowDatum(attrs))
    requires forall k | 0 <= k < |t.subTypes| :: !t.subTypes[k].attisdropped
    ensures Survives(t, RowDatum(attrs), e, junk)
  {
    hide InFunc, Rebased, OutFields;
    forall k | 0 <= k < |t.subTypes| ensures NoDropped(t.subTypes[k]) {
      FirstLevelOnly(t.subTypes[k]);
    }
    InInvertsOut(t, RowDatum(attrs), e, false, junk);
  }

  lemma NotWholeWithDropped(t: TypeInfo, attrs: seq<Datum>, e: bool, k: nat)
    requires WellFilled(t, e, false) && Fits(t, RowDatum(attrs))
    requires k < |t.subTypes| && t.subTypes[k].attisdropped
    ensures exists junk :: !Survives(t, RowDatum(attrs), e, junk)
  {
    var junk := if attrs[k] == NullDatum then Fixed([]) else NullDatum;
    DroppedSlotIsJunk(t.subTypes, OutFields(t.subTypes, attrs), 0, 0, k, junk);
    var back := InFunc(t, OutFunc(t, RowDatum(attrs)), e, junk);
    assert back.Some? ==> !SameButBounds(attrs[k], back.value.attrs[k]);
    assert !Survives(t, RowDatum(attrs), e, junk);
  }

  /**
    A row survives the trip with all its slots, whatever unwritten memory holds, if
    and only if its type has no dropped attribute: a dropped slot is never written.
  */
  lemma WholeRowSurvives(t: TypeInfo, attrs: seq<Datum>, e: bool)
    requires WellFilled(t, e, false) && Fits(t, RowDatum(attrs))
    ensures (forall junk :: Survives(t, RowDatum(attrs), e, junk))
       <==> (forall k | 0 <= k < |t.subTypes| :: !t.subTypes[k].attisdropped)
  {
    hide Survives, WellFilled, Fits;
    if forall k | 0 <= k < |t.subTypes| :: !t.subTypes[k].attisdropped {
      forall junk ensures Survives(t, RowDatum(attrs), e, junk) {
        WholeWithoutDropped(t, attrs, e, junk);
      }
    } else {
      var k :| 0 <= k < |t.subTypes| && t.subTypes[k].attisdropped;
      NotWholeWithDropped(t, attrs, e, k);
    }
  }

  /** No dropped attribute precedes a live one. */
  predicate DroppedLast(ts: seq<TypeInfo>) {
    forall i, k | 0 <= i < k < |ts| && ts[i].attisdropped :: ts[k].attisdropped
  }

  /** A row comes back with every live attribute as it was, lower bounds of 1 apart. */
  predicate LiveSurvive(t: TypeInfo, attrs: seq<Datum>, e: bool, junk: Datum)
    requires Fits(t, RowDatum(attrs))
  {
    var r := InFunc(t, OutFunc(t, RowDatum(attrs)), e, junk);
    && r.Some? && r.value.RowDatum? && |r.value.attrs| == |attrs|
    && (forall k | 0 <= k < |attrs| && !t.subTypes[k].attisdropped ::
          SameButBounds(attrs[k], r.value.attrs[k]) && BasedAtOne(r.value.attrs[k]))
  }

  /** With the dropped attributes last, the fields are the live attributes, at the same positions. */
  lemma {:induction false} OutFieldsInFront(ts: seq<TypeInfo>, attrs: seq<Datum>)
    requires |attrs| == |ts| && DroppedLast(ts)
    requires forall k | 0 <= k < |ts| && !ts[k].attisdropped :: Fits(ts[k], attrs[k])
    ensures var vs := OutFields(ts, attrs);
      && |vs| <= |ts|
      && (forall k | 0 <= k < |vs| :: !ts[k].attisdropped && vs[k] == OutFunc(ts[k], attrs[k]))
      && (forall k | |vs| <= k < |ts| :: ts[k].attisdropped)
    decreases |ts|
  {
    hide OutFunc, Fits;
    if ts != [] {
      OutFieldsInFront(ts[1..], attrs[1..]);
      assert forall k | 1 <= k < |ts| :: ts[k] == ts[1..][k - 1];
      if ts[0].attisdropped {
        assert forall k | 0 <= k < |ts| :: ts[k].attisdropped;
      }
    }
  }

  predicate LiveFrom(ts: seq<TypeInfo>, attrs: seq<Datum>, i: nat, ds: Option<seq<Datum>>)
    requires i <= |ts| == |attrs|
  {
    && ds.Some? && |ds.value| == |ts| - i
    && (forall k | i <= k < |ts| && !ts[k].attisdropped :: ds.value[k - i] == Rebased(attrs[k]))
  }

  /** From attribute `i` on, with the fields at hand. */
  lemma {:induction false} LiveFieldsInvert(ts: seq<TypeInfo>, attrs: seq<Datum>, i: nat, junk: Datum)
    requires |attrs| == |ts| && i <= |ts| && DroppedLast(ts)
    requires forall k | 0 <= k < |ts| && !ts[k].attisdropped :: WellFilled(ts[k], false, true) && Fits(ts[k], attrs[k])
    ensures var vs := OutFields(ts, attrs); LiveFrom(ts, attrs, i, InFields(ts, vs, i, Min(i, |vs|), junk))
    decreases |ts| - i
  {
    hide InFunc, OutFunc, WellFilled, Fits, Rebased, NoDropped, DroppedLast, InFields, LiveFrom;
    OutFieldsInFront(ts, attrs);
    var vs := OutFields(ts, attrs);
    if i == |ts| {
      LiveFromEnd(ts, attrs);
      InFieldsEnd(ts, vs, junk);
    } else {
      LiveFieldsInvert(ts, attrs, i + 1, junk);
      if ts[i].attisdropped {
        InFieldsDropped(ts, vs, i, |vs|, junk);
        LiveFromStep(ts, attrs, i, junk, InFields(ts, vs, i + 1, |vs|, junk));
      } else {
        LiveFieldInverts(ts, vs, i, attrs[i], junk);
        LiveFromStep(ts, attrs, i, Rebased(attrs[i]), InFields(ts, vs, i + 1, i + 1, junk));
      }
    }
  }

  lemma InFieldsEnd(ts: seq<TypeInfo>, fields: seq<Value>, junk: Datum)
    ensures forall j: nat | j <= |ts| :: InFields(ts, fields, |ts|, j, junk) == Some([])
  {
  }

  lemma InFieldsDropped(ts: seq<TypeInfo>, fields: seq<Value>, i: nat, j: nat, junk: Datum)
    requires j <= i < |ts| && ts[i].attisdropped
    ensures InFields(ts, fields, i, j, junk) == Onto([junk], InFields(ts, fields, i + 1, j, junk))
  {
    hide InFunc;
  }

  lemma LiveFieldInverts(ts: seq<TypeInfo>, fields: seq<Value>, i: nat, d: Datum, junk: Datum)
    requires i < |ts| && i < |fields| && WellFilled(ts[i], false, true) && Fits(ts[i], d)
    requires fields[i] == OutFunc(ts[i], d) && !ts[i].attisdropped
    ensures InFields(ts, fields, i, i, junk) == Onto([Rebased(d)], InFields(ts, fields, i + 1, i + 1, junk))
  {
    hide InFunc, OutFunc, Fits, Rebased;
    OnlyNullIsNull(ts[i], d);
    FirstLevelOnly(ts[i]);
    if d != NullDatum {
      InInvertsOut(ts[i], d, false, true, junk);
    }
  }

  lemma LiveFromEnd(ts: seq<TypeInfo>, attrs: seq<Datum>)
    requires |ts| == |attrs|
    ensures LiveFrom(ts, attrs, |ts|, Some([]))
  {
  }

  lemma LiveFromStep(ts: seq<TypeInfo>, attrs: seq<Datum>, i: nat, d: Datum, rest: Option<seq<Datum>>)
    requires i < |ts| == |attrs| && LiveFrom(ts, attrs, i + 1, rest)
    requires !ts[i].attisdropped ==> d == Rebased(attrs[i])
    ensures LiveFrom(ts, attrs, i, Onto([d], rest))
  {
    hide Rebased;
  }

  /** The field of the first live attribute `q` behind the first dropped one `p` is field `p`. */
  lemma {:induction false} FieldBehind(ts: seq<TypeInfo>, attrs: seq<Datum>, p: nat, q: nat)
    requires |attrs| == |ts| && p <= q < |ts| && !ts[q].attisdropped
    requires forall k | 0 <= k < |ts| && !ts[k].attisdropped :: Fits(ts[k], attrs[k])
    requires (forall k | 0 <= k < p :: !ts[k].attisdropped) && (forall k | p <= k < q :: ts[k].attisdropped)
    ensures var vs := OutFields(ts, attrs); p < |vs| && vs[p] == OutFunc(ts[q], attrs[q])
    decreases |ts|
  {
    hide OutFunc, Fits;
    if q > 0 {
      assert forall k | 1 <= k < |ts| :: ts[k] == ts[1..][k - 1];
      FieldBehind(ts[1..], attrs[1..], if p == 0 then 0 else p - 1, q - 1);
    }
  }

  /** That field is handed to the infunc of attribute `p`, and a dropped attribute has none. */
  lemma {:induction false} FieldBehindIsLost(ts: seq<TypeInfo>, fields: seq<Value>, i: nat, p: nat, q: nat, junk: Datum)
    requires i <= q < |ts| && p < q && p < |fields| && !fields[p].Null? && !ts[q].attisdropped
    requires (forall k | 0 <= k < p :: !ts[k].attisdropped) && (forall k | p <= k < q :: ts[k].attisdropped)
    ensures InFields(ts, fields, i, Min(i, p), junk) == None
    decreases q - i
  {
    if i < q {
      FieldBehindIsLost(ts, fields, i + 1, p, q, junk);
    }
  }

  /** Some value of the type that is not null. */
  function Sample(t: TypeInfo): (d: Datum)
    requires WellFilled(t, false, true)
    ensures Fits(t, d) && d != NullDatum
  {
    if t.tag == PLC_DATA_ARRAY then ArrayDatum([], [], [])
    else if t.tag == PLC_DATA_TEXT then TextDatum([])
    else if t.tag == PLC_DATA_BYTEA then ByteaDatum([])
    else Fixed(seq(Width(t.tag), _ => 0))
  }

  /** A dropped attribute in front of a live one loses the row of any value for that one. */
  lemma RowIsLost(t: TypeInfo, attrs: seq<Datum>, p: nat, q: nat, e: bool, junk: Datum)
    requires Fits(t, RowDatum(attrs)) && p < q < |attrs| && attrs[q] != NullDatum && !t.subTypes[q].attisdropped
    requires (forall k | 0 <= k < p :: !t.subTypes[k].attisdropped) && (forall k | p <= k < q :: t.subTypes[k].attisdropped)
    ensures InFunc(t, OutFunc(t, RowDatum(attrs)), e, junk) == None
  {
    FieldBehind(t.subTypes, attrs, p, q);
    OnlyNullIsNull(t.subTypes[q], attrs[q]);
    FieldBehindIsLost(t.subTypes, OutFields(t.subTypes, attrs), 0, p, q, junk);
  }

  /**
    All rows of a type come back with their live attributes, whatever unwritten
    memory holds, if and only if no dropped attribute precedes a live one.  This is
    about the values handed to heap_form_tuple; what that does with the unwritten value
    and null flag of a dropped slot is another matter: for a type passed by reference
    it may follow a pointer nobody wrote.
  */
  lemma RowSurvives(t: TypeInfo, e: bool)
    requires WellFilled(t, e, false) && t.tag == PLC_DATA_UDT
    ensures (forall attrs, junk | Fits(t, RowDatum(attrs)) :: LiveSurvive(t, attrs, e, junk)) <==> DroppedLast(t.subTypes)
  {
    var ts := t.subTypes;
    if DroppedLast(ts) {
      forall attrs, junk | Fits(t, RowDatum(attrs)) ensures LiveSurvive(t, attrs, e, junk) {
        LiveFieldsInvert(ts, attrs, 0, junk);
        forall k | 0 <= k < |attrs| ensures SameButBounds(attrs[k], Rebased(attrs[k])) && BasedAtOne(Rebased(attrs[k])) {
          RebasedIsSame(attrs[k]);
        }
      }
    } else {
      var p, q := FirstBehind(ts);
      var attrs := seq(|ts|, k requires 0 <= k < |ts| => if k == q then Sample(ts[q]) else NullDatum);
      assert Fits(t, RowDatum(attrs));
      RowIsLost(t, attrs, p, q, e, NullDatum);
      assert !LiveSurvive(t, attrs, e, NullDatum);
    }
  }

  /** The first dropped attribute, and the first live one behind it. */
  lemma {:induction false} FirstBehind(ts: seq<TypeInfo>) returns (p: nat, q: nat)
    requires !DroppedLast(ts)
    ensures p < q < |ts| && !ts[q].attisdropped
    ensures (forall k | 0 <= k < p :: !ts[k].attisdropped) && (forall k | p <= k < q :: ts[k].attisdropped)
  {
    var i, j :| 0 <= i < j < |ts| && ts[i].attisdropped && !ts[j].attisdropped;
    p := 0;
    while !ts[p].attisdropped
      invariant 0 <= p <= i && forall k | 0 <= k < p :: !ts[k].attisdropped
      decreases i - p
    {
      p := p + 1;
    }
    q := p;
    while ts[q].attisdropped
      invariant p <= q <= j && forall k | p <= k < q :: ts[k].attisdropped
      decreases j - q
    {
      q := q + 1;
    }
  }

  /** Inside a row nothing is a row, so nothing is dropped there. */
  lemma FirstLevelOnly(t: TypeInfo)
    requires WellFilled(t, false, true)
    ensures NoDropped(t)
  {
    if t.tag == PLC_DATA_ARRAY {
      assert t.subTypes[0].subTypes == [];
    }
  }

  /** With a dropped attribute in front the conversion goes wrong even on an integer. */
  lemma DroppedInFrontBreaks(junk: Datum)
    ensures var int4 := TypeInfo(PLC_DATA_INT4, INT4OID, 0, 0, -1, false, false, false, false, 0, None, Some([98]), []);
      var t := TypeInfo(PLC_DATA_UDT, 5000, 0, 0, -1, false, true, false, false, 0, None, None, [DroppedInfo([97]), int4]);
      var d := RowDatum([NullDatum, Fixed([1, 0, 0, 0])]);
      && WellFilled(t, false, false) && Fits(t, d)
      && OutFunc(t, d) == Udt([Scalar([1, 0, 0, 0])])
      && InFunc(t, OutFunc(t, d), false, junk) == None
  {
    var int4 := TypeInfo(PLC_DATA_INT4, INT4OID, 0, 0, -1, false, false, false, false, 0, None, Some([98]), []);
    var ts := [DroppedInfo([97]), int4];
    assert ts[1..] == [int4];
    var attrs := [NullDatum, Fixed([1, 0, 0, 0])];
    assert attrs[1..] == [Fixed([1, 0, 0, 0])];
    assert OutFields([int4], [Fixed([1, 0, 0, 0])]) == [Scalar([1, 0, 0, 0])];
    assert InFields(ts, [Scalar([1, 0, 0, 0])], 1, 0, junk) == None;
  }

  /**
    The whole path of an argument: datum, wire value, bytes, wire value, datum.
    Dimensions, nulls and element order are kept, and lower bounds become 1.
  */
  lemma ArgumentPath(name: CString, t: TypeInfo, d: Datum, s: Bytes, junk: Datum)
    requires ShortString(name) && WellFilled(t, false, false) && Fits(t, d) && NoDropped(t) && d != NullDatum
    ensures var p := DecArgument(EncArgument(Argument(name, CopyType(t), OutFunc(t, d))) + s);
      && p.Got? && p.rest == s && p.value.name == name && p.value.typ == CopyType(t)
      && !p.value.data.Null?
      && var r := InFunc(t, p.value.data, false, junk);
         r.Some? && SameButBounds(d, r.value) && BasedAtOne(r.value)
  {
    OutMatchesType(t, d, false, false);
    CopyIsGood(t, false, false);
    ArgumentBack(Argument(name, CopyType(t), OutFunc(t, d)), s);
    OnlyNullIsNull(t, d);
    InInvertsOut(t, d, false, false, junk);
  }

  // ---------------------------------------------------------------------
  // The loops
  // ---------------------------------------------------------------------

  lemma ToShortCounts(k: int)
    ensures ToShort(ToShort(k) + 1) == ToShort(k + 1)
  {
  }

  /** The counting loop of copy_type_info: a C short. */
  method CountLive(ts: seq<TypeInfo>) returns (n: Int16)
    ensures n == ToShort(|CopyTypes(ts)|)
  {
    hide CopyType;
    assert ToShort(0) == 0;
    hide ToShort;
    n := 0;
    for i := 0 to |ts|
      invariant n == ToShort(|CopyTypes(ts)| - |CopyTypes(ts[i..])|)
    {
      assert ts[i..][1..] == ts[i + 1..];
      if !ts[i].attisdropped {
        ToShortCounts(|CopyTypes(ts)| - |CopyTypes(ts[i..])|);
        n := ToShort(n + 1);
      }
    }
  }

  method CopyTypeInfo(t: TypeInfo) returns (p: PlcType)
    ensures p == CopyType(t) && Copied(p, t)
    decreases t
  {
    CopyIsCopied(t);
    hide ToShort, Copied;
    var n := CountLive(t.subTypes);
    var subs: seq<PlcType> := [];
    for i := 0 to |t.subTypes|
      invariant CopyTypes(t.subTypes) == subs + CopyTypes(t.subTypes[i..])
    {
      assert t.subTypes[i..][1..] == t.subTypes[i + 1..];
      if !t.subTypes[i].attisdropped {
        var sub := CopyTypeInfo(t.subTypes[i]);
        subs := subs + [sub];
      }
    }
    return PlcType(t.tag, n, t.typeName, subs);
  }

  /** What send_raw_array_iter gets out of the iterator, whatever the null bitmap. */
  method IterateArray(e: TypeInfo, l: Layout, size: nat, ghost elems: seq<Datum>) returns (vs: seq<Value>)
    requires Holds(l, elems) && size == |elems|
    requires forall i | 0 <= i < |elems| :: Fits(e, elems[i])
    ensures vs == OutElems(e, elems)
  {
    hide OutFunc, Fits, ElementAt, Present, NullAt;
    var iter := new ArrayIterator(l, size);
    vs := [];
    for i := 0 to size
      invariant iter.Valid() && iter.position == i && iter.array_ == l && iter.size == size
      invariant OutElems(e, elems) == vs + OutElems(e, elems[i..])
    {
      assert elems[i..][1..] == elems[i + 1..];
      var item := iter.Next();
      vs := vs + [OutFunc(e, item)];
    }
  }

  method PlcDatumAsUdt(ts: seq<TypeInfo>, attrs: seq<Datum>) returns (fields: seq<Value>)
    requires |attrs| == |ts|
    requires forall i | 0 <= i < |attrs| && !ts[i].attisdropped :: Fits(ts[i], attrs[i])
    ensures fields == OutFields(ts, attrs)
  {
    hide OutFunc, Fits;
    fields := [];
    for i := 0 to |ts|
      invariant OutFields(ts, attrs) == fields + OutFields(ts[i..], attrs[i..])
    {
      assert ts[i..][1..] == ts[i + 1..];
      assert attrs[i..][1..] == attrs[i + 1..];
      if !ts[i].attisdropped {
        fields := fields + [OutFunc(ts[i], attrs[i])];
      }
    }
  }

  method PlcDatumFromArray(e: TypeInfo, vs: seq<Value>, junk: Datum) returns (r: Option<seq<Datum>>)
    ensures r == InElems(e, vs, junk)
  {
    hide InFunc;
    var elems: seq<Datum> := [];
    OntoNone(InElems(e, vs, junk));
    for i := 0 to |vs|
      invariant InElems(e, vs, junk) == Onto(elems, InElems(e, vs[i..], junk))
    {
      assert vs[i..][1..] == vs[i + 1..];
      var d := NullDatum;
      if !vs[i].Null? {
        var converted := InFunc(e, vs[i], true, junk);
        if converted.None? {
          return None;
        }
        d := converted.value;
      }
      OntoOne(elems, d, InElems(e, vs[i + 1..], junk));
      elems := elems + [d];
    }
    OntoAll(elems);
    return Some(elems);
  }

  /** Puts the datums converted so far in front of the rest, if the rest converts. */
  function Onto(done: seq<Datum>, rest: Option<seq<Datum>>): Option<seq<Datum>> {
    if rest.None? then None else Some(done + rest.value)
  }

  lemma OntoNone(rest: Option<seq<Datum>>)
    ensures Onto([], rest) == rest
  {
    if rest.Some? {
      assert [] + rest.value == rest.value;
    }
  }

  lemma OntoAll(done: seq<Datum>)
    ensures Onto(done, Some([])) == Some(done)
  {
    assert done + [] == done;
  }

  lemma OntoOne(done: seq<Datum>, d: Datum, rest: Option<seq<Datum>>)
    ensures Onto(done, Onto([d], rest)) == Onto(done + [d], rest)
  {
    if rest.Some? {
      assert done + ([d] + rest.value) == done + [d] + rest.value;
    }
  }

  /** `values` starts out as unwritten memory and is filled attribute by attribute. */
  method PlcDatumFromUdt(ts: seq<TypeInfo>, fields: seq<Value>, junk: Datum) returns (r: Option<seq<Datum>>)
    ensures r == InFields(ts, fields, 0, 0, junk)
  {
    hide InFunc;
    var values := seq(|ts|, _ => junk);
    var j := 0;
    OntoNone(InFields(ts, fields, 0, 0, junk));
    for i := 0 to |ts|
      invariant j <= i && |values| == |ts|
      invariant forall k | i <= k < |ts| :: values[k] == junk
      invariant InFields(ts, fields, 0, 0, junk) == Onto(values[..i], InFields(ts, fields, i, j, junk))
    {
      if !ts[i].attisdropped {
        if j >= |fields| {
          return None;
        }
        var d := NullDatum;
        if !fields[j].Null? {
          var converted := InFunc(ts[j], fields[j], false, junk);
          if converted.None? {
            return None;
          }
          d := converted.value;
        }
        OntoOne(values[..i], d, InFields(ts, fields, i + 1, j + 1, junk));
        assert values[i := d][..i + 1] == values[..i] + [d];
        values := values[i := d];
        j := j + 1;
      } else {
        OntoOne(values[..i], junk, InFields(ts, fields, i + 1, j, junk));
        assert values[..i + 1] == values[..i] + [junk];
      }
    }
    OntoAll(values);
    assert values[..|ts|] == values;
    return Some(values);
  }

  // ---------------------------------------------------------------------
  // The calls the backend makes
  // ---------------------------------------------------------------------

  predicate ArgumentsFit(d: ProcDesc, args: seq<Datum>) {
    && |args| == |d.argtypes| == |d.argnames|
    && (forall i | 0 <= i < |args| :: Fits(d.argtypes[i], args[i]))
  }

  function CallArguments(d: ProcDesc, args: seq<Datum>): seq<Argument>
    requires ArgumentsFit(d, args)
  {
    seq(|args|, i requires 0 <= i < |args| =>
      Argument(d.argnames[i], CopyType(d.argtypes[i]), OutFunc(d.argtypes[i], args[i])))
  }

  method FillCallreqArguments(d: ProcDesc, args: seq<Datum>) returns (r: seq<Argument>)
    requires ArgumentsFit(d, args)
    ensures r == CallArguments(d, args)
  {
    r := [];
    for i := 0 to |args|
      invariant |r| == i && forall k | 0 <= k < i :: r[k] == CallArguments(d, args)[k]
    {
      var typ := CopyTypeInfo(d.argtypes[i]);
      var value := if args[i] == NullDatum then Null else OutFunc(d.argtypes[i], args[i]);
      r := r + [Argument(d.argnames[i], typ, value)];
    }
  }

  /** pljvm_create_call */
  function CreateCall(d: ProcDesc, hasChanged: Int32, args: seq<Datum>): Message
    requires ArgumentsFit(d, args) && d.funcOid < 0x1_0000_0000
  {
    Call(Some(d.name), Some(d.src), d.funcOid, hasChanged, CopyType(d.rettype), if d.retset then 1 else 0,
         CallArguments(d, args))
  }

  lemma {:induction false} TypesFilledWell(cat: Snapshot, call: Option<TupleDesc>, oids: seq<Oid>)
    requires Bounded(cat, call) && WellFormed(cat)
    ensures var ts := FillTypes(cat, call, oids); ts.Some? ==>
      |ts.value| == |oids| && forall i | 0 <= i < |oids| :: WellFilled(ts.value[i], false, false)
  {
    hide FillInner, WellFilled, Bounded, WellFormed;
    if oids != [] {
      FilledWell(cat, call, oids[0], false, false);
      TypesFilledWell(cat, call, oids[1..]);
    }
  }

  /**
    Every call built from a description of the catalog, for arguments of the
    declared types, can be sent and arrives: no type tree the backend fills leads
    outside what the channel carries.
  */
  lemma CallIsDeliverable(cat: Snapshot, call: Option<TupleDesc>, oid: Oid, hasChanged: Int32, args: seq<Datum>)
    requires Bounded(cat, call) && WellFormed(cat) && oid < 0x1_0000_0000
    requires Build(cat, call, oid).Some? && ArgumentsFit(Build(cat, call, oid).value, args)
    requires var d := Build(cat, call, oid).value;
      && ShortString(Some(d.name)) && ShortString(Some(d.src)) && |args| <= INT_MAX
      && forall i | 0 <= i < |d.argnames| :: ShortString(d.argnames[i])
    ensures var m := CreateCall(Build(cat, call, oid).value, hasChanged, args); GoodMsg(m) && Deliverable(m)
  {
    var d := Build(cat, call, oid).value;
    FilledWell(cat, call, cat.procs[oid].prorettype, false, false);
    CopyIsGood(d.rettype, false, false);
    TypesFilledWell(cat, call, cat.procs[oid].proargtypes);
    forall i | 0 <= i < |args|
      ensures GoodArgument(CallArguments(d, args)[i]) && FlatArgument(CallArguments(d, args)[i])
    {
      CopyIsGood(d.argtypes[i], false, false);
      OutMatchesType(d.argtypes[i], args[i], false, false);
    }
  }
}
