/**
  The catalog as the handler sees it, the function descriptions built from it,
  and the test that decides whether a cached description may be reused.
*/
module Catalog {
  import opened Primitives
  import opened Wire

  type Oid = nat
  type Name = Bytes

  const BOOLOID := 16
  const BYTEAOID := 17
  const INT8OID := 20
  const INT2OID := 21
  const INT4OID := 23
  const FLOAT4OID := 700
  const FLOAT8OID := 701
  const NUMERICOID := 1700
  const RECORDOID := 2249

  /** The transaction that wrote a row, and where the row lies. */
  datatype Stamp = Stamp(xmin: nat, block: nat, offset: nat)

  datatype Attribute = Attribute(atttypid: Oid, attname: Name, attisdropped: bool)

  datatype TupleDesc = TupleDesc(tdtypeid: Oid, tdtypmod: int, attrs: seq<Attribute>)

  /**
    A pg_type row.  `io` stands for the length, alignment and in/out functions;
    `isArrayOut` says that the output function is array_out.
  */
  datatype TypeRow = TypeRow(io: nat, typelem: Oid, isArrayOut: bool, isComposite: bool,
                             typtypmod: int, typrelid: Oid, typname: Name)

  datatype RelRow = RelRow(stamp: Stamp, desc: TupleDesc)

  datatype ProcRow = ProcRow(stamp: Stamp, retset: bool, prorettype: Oid, proargtypes: seq<Oid>,
                             proargnames: Option<seq<Option<Name>>>,
                             prosrc: Option<Bytes>, proname: Option<Name>)

  datatype Snapshot = Snapshot(procs: map<Oid, ProcRow>, types: map<Oid, TypeRow>, rels: map<Oid, RelRow>)

  /** plcTypeInfo; `byPointer` selects the input function that takes a pointer to the value. */
  datatype TypeInfo = TypeInfo(tag: int, typeOid: Oid, io: nat, typelem: Oid, typmod: int,
                               byPointer: bool, isRowtype: bool, isRecord: bool, attisdropped: bool,
                               relid: Oid, relStamp: Option<Stamp>, typeName: CString,
                               subTypes: seq<TypeInfo>)

  /** plcProcInfo without its hasChanged flag. */
  datatype ProcDesc = ProcDesc(funcOid: Oid, stamp: Stamp, name: Bytes, src: Bytes, rettype: TypeInfo,
                               retset: bool, argnames: seq<CString>, argtypes: seq<TypeInfo>)

  /** The switch on the type OID. */
  function BaseTag(oid: Oid): int {
    if oid == BOOLOID then PLC_DATA_INT1
    else if oid == INT2OID then PLC_DATA_INT2
    else if oid == INT4OID then PLC_DATA_INT4
    else if oid == INT8OID then PLC_DATA_INT8
    else if oid == FLOAT4OID then PLC_DATA_FLOAT4
    else if oid == FLOAT8OID || oid == NUMERICOID then PLC_DATA_FLOAT8
    else if oid == BYTEAOID then PLC_DATA_BYTEA
    else PLC_DATA_TEXT
  }

  /** The information of a type before its array or composite structure is looked at. */
  function BaseInfo(row: TypeRow, oid: Oid, isArrayElement: bool): TypeInfo {
    var tag := BaseTag(oid);
    TypeInfo(tag, oid, row.io, row.typelem, row.typtypmod,
             isArrayElement && (tag == PLC_DATA_TEXT || tag == PLC_DATA_BYTEA),
             false, false, false, 0, None, None, [])
  }

  /** The slot of a dropped attribute: zeroed memory with a name. */
  function DroppedInfo(name: Name): TypeInfo {
    TypeInfo(0, 0, 0, 0, 0, false, false, false, true, 0, None, Some(name), [])
  }

  /**
    fill_type_info_inner: None when an error is raised.  `call` is the row
    description the calling query expects, if it expects one.
  */
  function FillInner(cat: Snapshot, call: Option<TupleDesc>, oid: Oid,
                     isArrayElement: bool, isUDTElement: bool): Option<TypeInfo>
    decreases if isUDTElement then 0 else 1, if isArrayElement then 0 else 1
  {
    if oid !in cat.types then None
    else
      var row := cat.types[oid];
      var base := BaseInfo(row, oid, isArrayElement);
      var plain :=
        if !isArrayElement && row.typelem != 0 && row.isArrayOut then
          match FillInner(cat, call, row.typelem, true, isUDTElement)
          case None => None
          case Some(sub) => Some(base.(tag := PLC_DATA_ARRAY, byPointer := false, subTypes := [sub]))
        else Some(base);
      if plain.None? || isUDTElement then plain
      else
        var record := if oid == RECORDOID && call.Some? then plain.value.(typmod := call.value.tdtypmod, isRecord := true)
                      else plain.value;
        if oid == RECORDOID && call.None? then None
        else if row.isComposite then
          if row.typrelid !in cat.rels then None
          else FillRow(cat, call, row, record, cat.rels[row.typrelid].desc, isArrayElement)
        else if oid == RECORDOID then FillRow(cat, call, row, record, call.value, isArrayElement)
        else plain
  }

  /** The part of fill_type_info_inner that describes a row type. */
  function FillRow(cat: Snapshot, call: Option<TupleDesc>, row: TypeRow, base: TypeInfo,
                   desc: TupleDesc, isArrayElement: bool): Option<TypeInfo>
    decreases 0, 3
  {
    var udt := base.(tag := PLC_DATA_UDT, isRowtype := true, byPointer := isArrayElement);
    match FillAttributes(cat, call, desc.attrs)
    case None => None
    case Some(subs) =>
      if desc.tdtypeid == RECORDOID then Some(udt.(subTypes := subs))
      else if desc.tdtypeid !in cat.types then None
      else
        var relid := cat.types[desc.tdtypeid].typrelid;
        if relid !in cat.rels then None
        else Some(udt.(subTypes := subs, relid := relid, relStamp := Some(cat.rels[relid].stamp),
                       typeName := Some(row.typname)))
  }

  function FillAttributes(cat: Snapshot, call: Option<TupleDesc>, attrs: seq<Attribute>): Option<seq<TypeInfo>>
    decreases 0, 2, |attrs|
  {
    if attrs == [] then Some([])
    else
      var a := attrs[0];
      var first := if a.attisdropped then Some(DroppedInfo(a.attname))
                   else match FillInner(cat, call, a.atttypid, false, true)
                        case None => None
                        case Some(t) => Some(t.(typeName := Some(a.attname)));
      match (first, FillAttributes(cat, call, attrs[1..]))
      case (Some(t), Some(ts)) => Some([t] + ts)
      case _ => None
  }

  function FillType(cat: Snapshot, call: Option<TupleDesc>, oid: Oid): Option<TypeInfo> {
    FillInner(cat, call, oid, false, false)
  }

  function FillTypes(cat: Snapshot, call: Option<TupleDesc>, oids: seq<Oid>): Option<seq<TypeInfo>> {
    if oids == [] then Some([])
    else match (FillType(cat, call, oids[0]), FillTypes(cat, call, oids[1..]))
      case (Some(t), Some(ts)) => Some([t] + ts)
      case _ => None
  }

  /** The names of the arguments; empty names count as none. */
  function ArgNames(row: ProcRow): Option<seq<CString>> {
    var n := |row.proargtypes|;
    if n == 0 then Some([])
    else match row.proargnames
      case None => Some(seq(n, _ => None))
      case Some(names) =>
        if |names| != n then None
        else Some(seq(n, i requires 0 <= i < n => if names[i] == Some([]) then None else names[i]))
  }

  /** A description built from scratch, as the rebuild path of get_proc_info does. */
  function Build(cat: Snapshot, call: Option<TupleDesc>, oid: Oid): Option<ProcDesc> {
    if oid !in cat.procs then None
    else
      var row := cat.procs[oid];
      match (FillType(cat, call, row.prorettype), FillTypes(cat, call, row.proargtypes), ArgNames(row), row.prosrc, row.proname)
      case (Some(ret), Some(args), Some(names), Some(src), Some(name)) =>
        Some(ProcDesc(oid, row.stamp, name, src, ret, row.retset, names, args))
      case _ => None
  }

  // ---------------------------------------------------------------------
  // Validity of a cached description
  // ---------------------------------------------------------------------

  /** Whether the row types below `t` are unchanged; None when a lookup raises an error. */
  function TypeValid(cat: Snapshot, t: TypeInfo): Option<bool>
    decreases t, 1
  {
    match TypesValid(cat, t.subTypes)
    case None => None
    case Some(false) => Some(false)
    case Some(true) =>
      if t.isRowtype && !t.isRecord then
        if t.relid !in cat.rels then None else Some(t.relStamp == Some(cat.rels[t.relid].stamp))
      else Some(true)
  }

  function TypesValid(cat: Snapshot, ts: seq<TypeInfo>): Option<bool>
    decreases ts, 0
  {
    if ts == [] then Some(true)
    else match TypeValid(cat, ts[0])
      case Some(true) => TypesValid(cat, ts[1..])
      case stop => stop
  }

  function ProcedureValid(cat: Snapshot, d: ProcDesc, row: ProcRow): Option<bool> {
    if d.stamp != row.stamp then Some(false)
    else match TypesValid(cat, d.argtypes)
      case Some(true) => TypeValid(cat, d.rettype)
      case stop => stop
  }

  method PlcTypeValid(cat: Snapshot, t: TypeInfo) returns (r: Option<bool>)
    ensures r == TypeValid(cat, t)
    decreases t, 1
  {
    var valid := true;
    var i := 0;
    while i < |t.subTypes| && valid
      invariant 0 <= i <= |t.subTypes|
      invariant TypesValid(cat, t.subTypes) == if valid then TypesValid(cat, t.subTypes[i..]) else Some(false)
    {
      assert t.subTypes[i..][1..] == t.subTypes[i + 1..];
      var sub := PlcTypeValid(cat, t.subTypes[i]);
      if sub.None? {
        return None;
      }
      valid := sub.value;
      i := i + 1;
    }
    if valid && t.isRowtype && !t.isRecord {
      if t.relid !in cat.rels {
        return None;
      }
      if t.relStamp != Some(cat.rels[t.relid].stamp) {
        valid := false;
      }
    }
    return Some(valid);
  }

  method PlcProcedureValid(cat: Snapshot, d: ProcDesc, row: ProcRow) returns (r: Option<bool>)
    ensures r == ProcedureValid(cat, d, row)
  {
    var valid := false;
    if d.stamp == row.stamp {
      valid := true;
      var i := 0;
      while i < |d.argtypes| && valid
        invariant 0 <= i <= |d.argtypes|
        invariant TypesValid(cat, d.argtypes) == if valid then TypesValid(cat, d.argtypes[i..]) else Some(false)
      {
        assert d.argtypes[i..][1..] == d.argtypes[i + 1..];
        var arg := PlcTypeValid(cat, d.argtypes[i]);
        if arg.None? {
          return None;
        }
        valid := arg.value;
        i := i + 1;
      }
      if valid {
        r := PlcTypeValid(cat, d.rettype);
        return r;
      }
    }
    return Some(valid);
  }

  // ---------------------------------------------------------------------
  // Coherence
  // ---------------------------------------------------------------------

  /** Composite types are not arrays, own the relation that describes them, and record is neither. */
  predicate WellFormed(cat: Snapshot) {
    && (forall oid | oid in cat.types :: cat.types[oid].isComposite ==>
          && oid != RECORDOID
          && !(cat.types[oid].typelem != 0 && cat.types[oid].isArrayOut)
          && (cat.types[oid].typrelid in cat.rels ==> cat.rels[cat.types[oid].typrelid].desc.tdtypeid == oid))
    && (RECORDOID in cat.types ==>
          !(cat.types[RECORDOID].typelem != 0 && cat.types[RECORDOID].isArrayOut))
  }

  /** Between two moments a stamp stands for the content of its row, and pg_type rows stay put. */
  predicate Pins(c1: Snapshot, c2: Snapshot) {
    && (forall oid | oid in c1.procs && oid in c2.procs ::
          c1.procs[oid].stamp == c2.procs[oid].stamp ==> c1.procs[oid] == c2.procs[oid])
    && (forall oid | oid in c1.rels && oid in c2.rels ::
          c1.rels[oid].stamp == c2.rels[oid].stamp ==> c1.rels[oid] == c2.rels[oid])
    && (forall oid | oid in c1.types && oid in c2.types :: c1.types[oid] == c2.types[oid])
  }

  predicate HasRecord(t: TypeInfo) {
    t.isRecord || exists i | 0 <= i < |t.subTypes| :: HasRecord(t.subTypes[i])
  }

  /** Two attributes that are described alike: of a dropped one only the name counts. */
  predicate SameAttribute(a: Attribute, b: Attribute) {
    && a.attisdropped == b.attisdropped && a.attname == b.attname
    && (!a.attisdropped ==> a.atttypid == b.atttypid)
  }

  predicate SameAttributes(xs: seq<Attribute>, ys: seq<Attribute>) {
    |xs| == |ys| && forall i | 0 <= i < |xs| :: SameAttribute(xs[i], ys[i])
  }

  /** The relation behind a row description and its stamp; an anonymous row has none. */
  function RelationOf(cat: Snapshot, d: TupleDesc): Option<(Oid, Stamp)> {
    if d.tdtypeid == RECORDOID || d.tdtypeid !in cat.types || cat.types[d.tdtypeid].typrelid !in cat.rels then None
    else
      var relid := cat.types[d.tdtypeid].typrelid;
      Some((relid, cat.rels[relid].stamp))
  }

  /** The two calling queries expect the same row. */
  predicate CallsAgree(c1: Snapshot, call1: Option<TupleDesc>, c2: Snapshot, call2: Option<TupleDesc>) {
    && call1.Some? && call2.Some?
    && call1.value.tdtypmod == call2.value.tdtypmod
    && SameAttributes(call1.value.attrs, call2.value.attrs)
    && RelationOf(c1, call1.value) == RelationOf(c2, call2.value)
  }

  /** Inside a row nothing depends on the call, and nothing needs to be revalidated. */
  lemma UdtElementsAgree(c1: Snapshot, call1: Option<TupleDesc>, c2: Snapshot, call2: Option<TupleDesc>,
                         oid: Oid, e: bool)
    requires Pins(c1, c2)
    ensures var t1, t2 := FillInner(c1, call1, oid, e, true), FillInner(c2, call2, oid, e, true);
      && (t1.Some? ==> !HasRecord(t1.value))
      && (t1.Some? && t2.Some? ==> t1 == t2)
    decreases !e
  {
    if oid in c1.types && !e {
      UdtElementsAgree(c1, call1, c2, call2, c1.types[oid].typelem, true);
    }
  }

  lemma HasRecordIgnoresName(t: TypeInfo, name: CString)
    ensures HasRecord(t.(typeName := name)) == HasRecord(t)
  {
  }

  lemma {:induction false} AttributesAgree(c1: Snapshot, call1: Option<TupleDesc>, c2: Snapshot, call2: Option<TupleDesc>,
                                           attrs: seq<Attribute>)
    requires Pins(c1, c2)
    ensures var t1, t2 := FillAttributes(c1, call1, attrs), FillAttributes(c2, call2, attrs);
      && (t1.Some? ==> forall i | 0 <= i < |t1.value| :: !HasRecord(t1.value[i]))
      && (t1.Some? && t2.Some? ==> t1 == t2)
    decreases |attrs|
  {
    hide Pins, FillInner;
    if attrs != [] {
      var a := attrs[0];
      UdtElementsAgree(c1, call1, c2, call2, a.atttypid, false);
      AttributesAgree(c1, call1, c2, call2, attrs[1..]);
      var t := FillInner(c1, call1, a.atttypid, false, true);
      if t.Some? {
        HasRecordIgnoresName(t.value, Some(a.attname));
      }
      assert !HasRecord(DroppedInfo(a.attname));
    }
  }

  /** A row type other than record, once its stamp checks out, is described as before. */
  lemma CompositeAgrees(c1: Snapshot, call1: Option<TupleDesc>, c2: Snapshot, call2: Option<TupleDesc>,
                        oid: Oid, e: bool)
    requires Pins(c1, c2) && WellFormed(c1) && WellFormed(c2)
    requires oid in c1.types && c1.types[oid].isComposite
    ensures var t1, t2 := FillInner(c1, call1, oid, e, false), FillInner(c2, call2, oid, e, false);
      && (t1.Some? ==> !HasRecord(t1.value))
      && (t1.Some? && t2.Some? && TypeValid(c2, t1.value) == Some(true) ==> t1 == t2)
  {
    var t1, t2 := FillInner(c1, call1, oid, e, false), FillInner(c2, call2, oid, e, false);
    if t1.Some? {
      var relid := c1.types[oid].typrelid;
      AttributesAgree(c1, call1, c2, call2, c1.rels[relid].desc.attrs);
      if t2.Some? && TypeValid(c2, t1.value) == Some(true) {
        assert t1.value.relid == relid;
        assert c1.rels[relid] == c2.rels[relid];
      }
    }
  }

  /** As an array element record differs from record itself only in its input function. */
  lemma RecordShape(c: Snapshot, call: Option<TupleDesc>, e: bool)
    requires WellFormed(c)
    ensures var t, f := FillInner(c, call, RECORDOID, e, false), FillType(c, call, RECORDOID);
      && (t.Some? <==> f.Some?)
      && (t.Some? ==> HasRecord(t.value) && t.value == f.value.(byPointer := e) && !f.value.byPointer)
  {
    hide FillAttributes;
  }

  lemma FilledAttribute(c: Snapshot, call: Option<TupleDesc>, oid: Oid)
    ensures var t := FillInner(c, call, oid, false, true); t.Some? ==> t.value.typeOid == oid && !t.value.attisdropped
  {
  }

  /** Attribute lists are described alike exactly when they are alike. */
  lemma {:induction false} AttributesDiffer(c1: Snapshot, call1: Option<TupleDesc>, xs: seq<Attribute>,
                                            c2: Snapshot, call2: Option<TupleDesc>, ys: seq<Attribute>)
    requires Pins(c1, c2)
    requires FillAttributes(c1, call1, xs).Some? && FillAttributes(c2, call2, ys).Some?
    ensures FillAttributes(c1, call1, xs) == FillAttributes(c2, call2, ys) <==> SameAttributes(xs, ys)
    decreases |xs|
  {
    hide Pins, FillInner, SameAttributes, SameAttribute;
    SameCons(xs, ys);
    if xs != [] && ys != [] {
      OneAttribute(c1, call1, xs[0], c2, call2, ys[0]);
      AttributesDiffer(c1, call1, xs[1..], c2, call2, ys[1..]);
      var ts, us := FillAttributes(c1, call1, xs).value, FillAttributes(c2, call2, ys).value;
      assert ts[1..] == FillAttributes(c1, call1, xs[1..]).value;
      assert us[1..] == FillAttributes(c2, call2, ys[1..]).value;
      assert ts == us <==> ts[0] == us[0] && ts[1..] == us[1..];
    }
  }

  lemma SameCons(xs: seq<Attribute>, ys: seq<Attribute>)
    ensures xs == [] || ys == [] ==> (SameAttributes(xs, ys) <==> xs == ys)
    ensures xs != [] && ys != [] ==>
      (SameAttributes(xs, ys) <==> SameAttribute(xs[0], ys[0]) && SameAttributes(xs[1..], ys[1..]))
  {
    hide SameAttribute;
    if xs != [] && ys != [] && |xs| == |ys| {
      assert forall i | 1 <= i < |xs| :: xs[i] == xs[1..][i - 1] && ys[i] == ys[1..][i - 1];
    }
  }

  lemma OneAttribute(c1: Snapshot, call1: Option<TupleDesc>, a: Attribute, c2: Snapshot, call2: Option<TupleDesc>, b: Attribute)
    requires Pins(c1, c2)
    requires FillAttributes(c1, call1, [a]).Some? && FillAttributes(c2, call2, [b]).Some?
    ensures FillAttributes(c1, call1, [a]).value[0] == FillAttributes(c2, call2, [b]).value[0] <==> SameAttribute(a, b)
  {
    hide Pins, FillInner;
    FilledAttribute(c1, call1, a.atttypid);
    FilledAttribute(c2, call2, b.atttypid);
    UdtElementsAgree(c1, call1, c2, call2, a.atttypid, false);
  }

  /** What a call's description of record is made of. */
  lemma RecordParts(c: Snapshot, call: Option<TupleDesc>)
    requires WellFormed(c) && FillType(c, call, RECORDOID).Some?
    ensures call.Some? && FillAttributes(c, call, call.value.attrs).Some?
    ensures var t, r := FillType(c, call, RECORDOID).value, RelationOf(c, call.value);
      && RECORDOID in c.types
      && t == BaseInfo(c.types[RECORDOID], RECORDOID, false).(
                typmod := call.value.tdtypmod, isRecord := true, tag := PLC_DATA_UDT, isRowtype := true,
                subTypes := FillAttributes(c, call, call.value.attrs).value,
                relid := if r.Some? then r.value.0 else 0, relStamp := if r.Some? then Some(r.value.1) else None,
                typeName := if r.Some? then Some(c.types[RECORDOID].typname) else None)
  {
    hide FillAttributes;
  }

  /** The description of record is the call's, whichever way it is reached. */
  lemma RecordFollowsCall(c1: Snapshot, call1: Option<TupleDesc>, c2: Snapshot, call2: Option<TupleDesc>, e: bool)
    requires WellFormed(c1) && WellFormed(c2) && Pins(c1, c2)
    ensures var t1, t2 := FillInner(c1, call1, RECORDOID, e, false), FillInner(c2, call2, RECORDOID, e, false);
      && (t1.Some? ==> HasRecord(t1.value))
      && (t1.Some? && t2.Some? ==> (t1 == t2 <==> CallsAgree(c1, call1, c2, call2)))
  {
    hide FillInner, FillType, HasRecord, FillAttributes, SameAttributes, RelationOf;
    RecordShape(c1, call1, e);
    RecordShape(c2, call2, e);
    if FillInner(c1, call1, RECORDOID, e, false).Some? && FillInner(c2, call2, RECORDOID, e, false).Some? {
      RecordParts(c1, call1);
      RecordParts(c2, call2);
      AttributesDiffer(c1, call1, call1.value.attrs, c2, call2, call2.value.attrs);
    }
  }

  /** One type: if it is still valid it is what would be built now, unless it depends on a different call. */
  lemma TypeAgrees(c1: Snapshot, call1: Option<TupleDesc>, c2: Snapshot, call2: Option<TupleDesc>,
                   oid: Oid, e: bool)
    requires Pins(c1, c2) && WellFormed(c1) && WellFormed(c2)
    requires var t1, t2 := FillInner(c1, call1, oid, e, false), FillInner(c2, call2, oid, e, false);
      t1.Some? && t2.Some? && TypeValid(c2, t1.value) == Some(true)
    ensures var t1, t2 := FillInner(c1, call1, oid, e, false), FillInner(c2, call2, oid, e, false);
      t1 == t2 <==> (HasRecord(t1.value) ==> CallsAgree(c1, call1, c2, call2))
    decreases !e
  {
    var row := c1.types[oid];
    if oid == RECORDOID {
      RecordFollowsCall(c1, call1, c2, call2, e);
    } else if row.isComposite {
      CompositeAgrees(c1, call1, c2, call2, oid, e);
    } else if !e && row.typelem != 0 && row.isArrayOut {
      var t1 := FillInner(c1, call1, oid, e, false).value;
      assert TypesValid(c2, t1.subTypes) == TypeValid(c2, t1.subTypes[0]);
      TypeAgrees(c1, call1, c2, call2, row.typelem, true);
    }
  }

  predicate AnyRecord(ts: seq<TypeInfo>) { exists i | 0 <= i < |ts| :: HasRecord(ts[i]) }

  lemma {:induction false} TypesAgree(c1: Snapshot, call1: Option<TupleDesc>, c2: Snapshot, call2: Option<TupleDesc>,
                                      oids: seq<Oid>)
    requires Pins(c1, c2) && WellFormed(c1) && WellFormed(c2)
    requires var t1, t2 := FillTypes(c1, call1, oids), FillTypes(c2, call2, oids);
      t1.Some? && t2.Some? && TypesValid(c2, t1.value) == Some(true)
    ensures var t1, t2 := FillTypes(c1, call1, oids), FillTypes(c2, call2, oids);
      t1 == t2 <==> (AnyRecord(t1.value) ==> CallsAgree(c1, call1, c2, call2))
  {
    hide Pins, WellFormed, FillInner, HasRecord;
    if oids != [] {
      var t1, t2 := FillTypes(c1, call1, oids).value, FillTypes(c2, call2, oids).value;
      assert t1[1..] == FillTypes(c1, call1, oids[1..]).value;
      assert t2[1..] == FillTypes(c2, call2, oids[1..]).value;
      TypeAgrees(c1, call1, c2, call2, oids[0], false);
      TypesAgree(c1, call1, c2, call2, oids[1..]);
      HeadOrTail(t1);
    }
  }

  lemma HeadOrTail(ts: seq<TypeInfo>)
    requires ts != []
    ensures AnyRecord(ts) <==> HasRecord(ts[0]) || AnyRecord(ts[1..])
  {
    hide HasRecord;
    if AnyRecord(ts) {
      var i :| 0 <= i < |ts| && HasRecord(ts[i]);
      if i > 0 {
        assert ts[1..][i - 1] == ts[i];
      }
    }
    if AnyRecord(ts[1..]) {
      var i :| 0 <= i < |ts[1..]| && HasRecord(ts[1..][i]);
      assert ts[i + 1] == ts[1..][i];
    }
  }

  // ---------------------------------------------------------------------
  // When the test raises an error, so would building anew
  // ---------------------------------------------------------------------

  /** Inside a row there is no row to look up. */
  lemma InsideRowsIsValid(c1: Snapshot, call1: Option<TupleDesc>, oid: Oid, e: bool, c2: Snapshot)
    ensures var t := FillInner(c1, call1, oid, e, true); t.Some? ==> TypeValid(c2, t.value) == Some(true)
    decreases !e
  {
    if oid in c1.types && !e && c1.types[oid].typelem != 0 && c1.types[oid].isArrayOut {
      InsideRowsIsValid(c1, call1, c1.types[oid].typelem, true, c2);
      var t := FillInner(c1, call1, oid, e, true);
      if t.Some? {
        assert TypesValid(c2, t.value.subTypes) == TypeValid(c2, t.value.subTypes[0]);
      }
    }
  }

  /** The test does not look at names. */
  lemma TypeValidIgnoresName(c: Snapshot, t: TypeInfo, name: CString)
    ensures TypeValid(c, t.(typeName := name)) == TypeValid(c, t)
    ensures name.Some? ==> TypeValid(c, DroppedInfo(name.value)) == Some(true)
  {
  }

  lemma {:induction false} AttributesAreValid(c1: Snapshot, call1: Option<TupleDesc>, attrs: seq<Attribute>, c2: Snapshot)
    ensures var ts := FillAttributes(c1, call1, attrs); ts.Some? ==> TypesValid(c2, ts.value) == Some(true)
    decreases |attrs|
  {
    hide FillInner;
    if attrs != [] && FillAttributes(c1, call1, attrs).Some? {
      InsideRowsIsValid(c1, call1, attrs[0].atttypid, false, c2);
      AttributesAreValid(c1, call1, attrs[1..], c2);
      var ts := FillAttributes(c1, call1, attrs).value;
      assert ts[1..] == FillAttributes(c1, call1, attrs[1..]).value;
      TypeValidIgnoresName(c2, ts[0], Some(attrs[0].attname));
      var t := FillInner(c1, call1, attrs[0].atttypid, false, true);
      if t.Some? {
        TypeValidIgnoresName(c2, t.value, Some(attrs[0].attname));
      }
    }
  }

  lemma TypeErrorIsDue(c1: Snapshot, call1: Option<TupleDesc>, c2: Snapshot, call2: Option<TupleDesc>, oid: Oid, e: bool)
    requires Pins(c1, c2) && WellFormed(c1) && WellFormed(c2)
    requires FillInner(c1, call1, oid, e, false).Some? && TypeValid(c2, FillInner(c1, call1, oid, e, false).value).None?
    ensures FillInner(c2, call2, oid, e, false).None?
    decreases !e
  {
    var row, t := c1.types[oid], FillInner(c1, call1, oid, e, false).value;
    if oid == RECORDOID {
      RecordIsValid(c1, call1, e, c2);
    } else if row.isComposite {
      AttributesAreValid(c1, call1, c1.rels[row.typrelid].desc.attrs, c2);
    } else if !e && row.typelem != 0 && row.isArrayOut {
      assert TypesValid(c2, t.subTypes) == TypeValid(c2, t.subTypes[0]);
      TypeErrorIsDue(c1, call1, c2, call2, row.typelem, true);
    }
  }

  lemma RecordIsValid(c1: Snapshot, call1: Option<TupleDesc>, e: bool, c2: Snapshot)
    requires WellFormed(c1)
    ensures var t := FillInner(c1, call1, RECORDOID, e, false); t.Some? ==> TypeValid(c2, t.value) == Some(true)
  {
    hide FillAttributes;
    if call1.Some? {
      AttributesAreValid(c1, call1, call1.value.attrs, c2);
    }
  }

  lemma {:induction false} TypesErrorIsDue(c1: Snapshot, call1: Option<TupleDesc>, c2: Snapshot, call2: Option<TupleDesc>,
                                           oids: seq<Oid>)
    requires Pins(c1, c2) && WellFormed(c1) && WellFormed(c2)
    requires FillTypes(c1, call1, oids).Some? && TypesValid(c2, FillTypes(c1, call1, oids).value).None?
    ensures FillTypes(c2, call2, oids).None?
    decreases |oids|
  {
    hide Pins, WellFormed, FillInner, TypeValid;
    var ts := FillTypes(c1, call1, oids).value;
    if oids != [] {
      assert ts[1..] == FillTypes(c1, call1, oids[1..]).value;
      if TypeValid(c2, ts[0]).None? {
        TypeErrorIsDue(c1, call1, c2, call2, oids[0], false);
      } else {
        TypesErrorIsDue(c1, call1, c2, call2, oids[1..]);
      }
    }
  }

  /** The test raises an error only when the function cannot be described any more. */
  lemma ErrorIsDue(c1: Snapshot, call1: Option<TupleDesc>, c2: Snapshot, call2: Option<TupleDesc>, oid: Oid)
    requires Pins(c1, c2) && WellFormed(c1) && WellFormed(c2) && Build(c1, call1, oid).Some? && oid in c2.procs
    requires ProcedureValid(c2, Build(c1, call1, oid).value, c2.procs[oid]).None?
    ensures Build(c2, call2, oid).None?
  {
    var d, row := Build(c1, call1, oid).value, c2.procs[oid];
    assert c1.procs[oid] == row;
    hide Pins, WellFormed, FillInner, TypeValid, TypesValid, ArgNames, FillTypes;
    if TypesValid(c2, d.argtypes).None? {
      TypesErrorIsDue(c1, call1, c2, call2, row.proargtypes);
    } else {
      TypeErrorIsDue(c1, call1, c2, call2, row.prorettype, false);
    }
  }

  /** Some part of the description depends on the row the calling query expects. */
  predicate DependsOnCall(d: ProcDesc) { HasRecord(d.rettype) || AnyRecord(d.argtypes) }

  /**
    Cache coherence: a description that passes the validity test is the one that
    would be built now if and only if it does not depend on the calling query, or
    that query expects the same row as the one it was built for.
  */
  lemma ReuseIsFresh(c1: Snapshot, call1: Option<TupleDesc>, c2: Snapshot, call2: Option<TupleDesc>, oid: Oid)
    requires Pins(c1, c2) && WellFormed(c1) && WellFormed(c2)
    requires var d1, d2 := Build(c1, call1, oid), Build(c2, call2, oid);
      d1.Some? && d2.Some? && ProcedureValid(c2, d1.value, c2.procs[oid]) == Some(true)
    ensures var d1, d2 := Build(c1, call1, oid), Build(c2, call2, oid);
      d1 == d2 <==> (DependsOnCall(d1.value) ==> CallsAgree(c1, call1, c2, call2))
  {
    var row := c2.procs[oid];
    assert c1.procs[oid] == row;
    hide Pins, WellFormed, FillInner, HasRecord, AnyRecord, FillTypes, ArgNames, CallsAgree;
    TypeAgrees(c1, call1, c2, call2, row.prorettype, false);
    TypesAgree(c1, call1, c2, call2, row.proargtypes);
  }

  /**
    The test does not look at the calling query, so for a function returning
    record the property can fail: two queries that expect different rows.
  */
  lemma RecordReuseCanBeStale()
    ensures exists cat: Snapshot, call1, call2, oid: Oid ::
      && WellFormed(cat) && Pins(cat, cat)
      && Build(cat, call1, oid).Some? && Build(cat, call2, oid).Some?
      && ProcedureValid(cat, Build(cat, call1, oid).value, cat.procs[oid]) == Some(true)
      && Build(cat, call1, oid) != Build(cat, call2, oid)
  {
    var row := TypeRow(0, 0, false, false, -1, 0, [3]);
    var cat := Snapshot(map[1 := ProcRow(Stamp(7, 0, 1), true, RECORDOID, [], None, Some([1]), Some([2]))],
                        map[RECORDOID := row], map[]);
    var desc1, desc2 := TupleDesc(RECORDOID, 1, []), TupleDesc(RECORDOID, 2, []);
    RecordOfCall(cat, desc1);
    RecordOfCall(cat, desc2);
    assert Build(cat, Some(desc1), 1).value.rettype.typmod == 1;
    assert Build(cat, Some(desc2), 1).value.rettype.typmod == 2;
    assert ProcedureValid(cat, Build(cat, Some(desc1), 1).value, cat.procs[1]) == Some(true);
    assert WellFormed(cat) && Pins(cat, cat);
  }

  /** A record without columns: its description carries the call's type modifier. */
  lemma RecordOfCall(cat: Snapshot, desc: TupleDesc)
    requires RECORDOID in cat.types && !cat.types[RECORDOID].isComposite
    requires cat.types[RECORDOID].typelem == 0
    requires desc.tdtypeid == RECORDOID && desc.attrs == []
    ensures var t := FillType(cat, Some(desc), RECORDOID);
      t.Some? && t.value.typmod == desc.tdtypmod && t.value.subTypes == [] && t.value.isRecord
  {
    assert FillAttributes(cat, Some(desc), desc.attrs) == Some([]);
  }
}
