/**
  What a function description says of the catalog, stated apart from the code that
  fills it, and which changes of the catalog the validity test notices.
*/
module Descriptions {
  import opened Primitives
  import opened Wire
  import opened Catalog

  /** The data types of the base types that have one of their own; all others go as text. */
  const KNOWN_TAGS: map<Oid, int> := map[
    BOOLOID := PLC_DATA_INT1, INT2OID := PLC_DATA_INT2, INT4OID := PLC_DATA_INT4, INT8OID := PLC_DATA_INT8,
    FLOAT4OID := PLC_DATA_FLOAT4, FLOAT8OID := PLC_DATA_FLOAT8, NUMERICOID := PLC_DATA_FLOAT8, BYTEAOID := PLC_DATA_BYTEA]

  predicate IsArrayType(cat: Snapshot, oid: Oid) {
    oid in cat.types && cat.types[oid].typelem != 0 && cat.types[oid].isArrayOut
  }

  predicate IsRowType(cat: Snapshot, oid: Oid) {
    oid == RECORDOID || (oid in cat.types && cat.types[oid].isComposite)
  }

  /** The columns of a row type: those the call expects for record, and those of its relation otherwise. */
  function ColumnsOf(cat: Snapshot, call: Option<TupleDesc>, oid: Oid): Option<TupleDesc> {
    if oid == RECORDOID then call
    else if oid in cat.types && cat.types[oid].typrelid in cat.rels then Some(cat.rels[cat.types[oid].typrelid].desc)
    else None
  }

  /**
    `t` describes the type: an array by one subtype for its element type, a row by one
    subtype for each attribute, in order, and any other by its tag alone.  Arrays in
    arrays and rows in rows are described as text.  `name` is the name an attribute
    of this type bears.
  */
  predicate Describes(cat: Snapshot, call: Option<TupleDesc>, oid: Oid, t: TypeInfo, name: CString, inArray: bool, inRow: bool)
    decreases t, 1
  {
    && oid in cat.types
    && t.typeOid == oid && t.io == cat.types[oid].io && t.typelem == cat.types[oid].typelem && !t.attisdropped
    && (if IsRowType(cat, oid) && !inRow then DescribesRow(cat, call, oid, t, inArray)
        else
          && t.typeName == name && t.typmod == cat.types[oid].typtypmod && NoRow(t)
          && (if IsArrayType(cat, oid) && !inArray then
                && t.tag == PLC_DATA_ARRAY && !t.byPointer && |t.subTypes| == 1
                && Describes(cat, call, cat.types[oid].typelem, t.subTypes[0], None, true, inRow)
              else
                && t.tag == (if oid in KNOWN_TAGS then KNOWN_TAGS[oid] else PLC_DATA_TEXT)
                && t.subTypes == []
                && t.byPointer == (inArray && (oid == BYTEAOID || oid !in KNOWN_TAGS))))
  }

  predicate NoRow(t: TypeInfo) { !t.isRowtype && !t.isRecord && t.relid == 0 && t.relStamp == None }

  predicate DescribesRow(cat: Snapshot, call: Option<TupleDesc>, oid: Oid, t: TypeInfo, inArray: bool)
    requires oid in cat.types
    decreases t, 0
  {
    && t.tag == PLC_DATA_UDT && t.isRowtype && (t.isRecord <==> oid == RECORDOID) && t.byPointer == inArray
    && ColumnsOf(cat, call, oid).Some?
    && var desc := ColumnsOf(cat, call, oid).value;
    && t.typmod == (if oid == RECORDOID then desc.tdtypmod else cat.types[oid].typtypmod)
    && BearsRelation(cat, cat.types[oid], desc, t)
    && |t.subTypes| == |desc.attrs|
    && (forall i | 0 <= i < |t.subTypes| :: DescribesAttribute(cat, call, desc.attrs[i], t.subTypes[i]))
  }

  /** The relation of the row and its stamp, and the name of the type; an anonymous row has none of these. */
  predicate BearsRelation(cat: Snapshot, row: TypeRow, desc: TupleDesc, t: TypeInfo) {
    if desc.tdtypeid == RECORDOID then t.relid == 0 && t.relStamp == None && t.typeName == None
    else
      && desc.tdtypeid in cat.types && t.relid == cat.types[desc.tdtypeid].typrelid
      && t.relid in cat.rels && t.relStamp == Some(cat.rels[t.relid].stamp)
      && t.typeName == Some(row.typname)
  }

  predicate DescribesAttribute(cat: Snapshot, call: Option<TupleDesc>, a: Attribute, t: TypeInfo)
    decreases t, 2
  {
    if a.attisdropped then
      t == TypeInfo(0, 0, 0, 0, 0, false, false, false, true, 0, None, Some(a.attname), [])
    else Describes(cat, call, a.atttypid, t, Some(a.attname), false, true)
  }

  lemma AttributeBears(cat: Snapshot, call: Option<TupleDesc>, a: Attribute, t: TypeInfo)
    requires DescribesAttribute(cat, call, a, t)
    ensures t.attisdropped == a.attisdropped && t.typeName == Some(a.attname)
  {
  }

  /** The declared name of argument `i`: an empty one counts as none. */
  predicate IsArgumentName(row: ProcRow, i: nat, name: CString)
    requires i < |row.proargtypes|
  {
    if row.proargnames.None? then name == None
    else
      && |row.proargnames.value| == |row.proargtypes|
      && var declared := row.proargnames.value[i];
         if declared.Some? && declared.value != [] then name == declared else name == None
  }

  /** `d` describes the function as the catalog has it. */
  predicate DescribesFunction(cat: Snapshot, call: Option<TupleDesc>, oid: Oid, d: ProcDesc) {
    && oid in cat.procs && d.funcOid == oid
    && var row := cat.procs[oid];
    && d.stamp == row.stamp && Some(d.name) == row.proname && Some(d.src) == row.prosrc && d.retset == row.retset
    && Describes(cat, call, row.prorettype, d.rettype, None, false, false)
    && |d.argtypes| == |d.argnames| == |row.proargtypes|
    && (forall i | 0 <= i < |d.argtypes| :: Describes(cat, call, row.proargtypes[i], d.argtypes[i], None, false, false))
    && (forall i | 0 <= i < |d.argnames| :: IsArgumentName(row, i, d.argnames[i]))
  }

  // ---------------------------------------------------------------------
  // What is filled describes the catalog, and nothing else does
  // ---------------------------------------------------------------------

  lemma BaseTags(oid: Oid)
    ensures BaseTag(oid) == if oid in KNOWN_TAGS then KNOWN_TAGS[oid] else PLC_DATA_TEXT
    ensures BaseTag(oid) == PLC_DATA_TEXT || BaseTag(oid) == PLC_DATA_BYTEA <==> oid == BYTEAOID || oid !in KNOWN_TAGS
  {
  }

  /**
    What fill_type_info makes of a type is the one description of it, and it raises an
    error exactly when there is none.
  */
  lemma {:induction false} FilledDescribes(cat: Snapshot, call: Option<TupleDesc>, oid: Oid, t: TypeInfo, name: CString, e: bool, u: bool)
    requires WellFormed(cat) && (name.Some? ==> u)
    ensures Describes(cat, call, oid, t, name, e, u) <==> Named(FillInner(cat, call, oid, e, u), name, u) == Some(t)
    decreases if u then 0 else 1, if e then 0 else 1
  {
    if oid in cat.types {
      if IsRowType(cat, oid) && !u {
        RowDescribes(cat, call, oid, t, e);
      } else if IsArrayType(cat, oid) && !e {
        if |t.subTypes| == 1 {
          FilledDescribes(cat, call, cat.types[oid].typelem, t.subTypes[0], None, true, u);
        }
        ArrayDescribes(cat, call, oid, t, name, u);
      } else {
        BaseDescribes(cat, call, oid, t, name, e, u);
      }
    }
  }

  /** Within a row a description bears the name of its attribute. */
  function Named(t: Option<TypeInfo>, name: CString, inRow: bool): Option<TypeInfo> {
    if t.Some? && inRow then Some(t.value.(typeName := name)) else t
  }

  lemma BaseDescribes(cat: Snapshot, call: Option<TupleDesc>, oid: Oid, t: TypeInfo, name: CString, e: bool, u: bool)
    requires oid in cat.types && !(IsRowType(cat, oid) && !u) && !(IsArrayType(cat, oid) && !e) && (name.Some? ==> u)
    ensures Describes(cat, call, oid, t, name, e, u) <==> Named(FillInner(cat, call, oid, e, u), name, u) == Some(t)
  {
    BaseTags(oid);
    hide BaseTag;
    assert FillInner(cat, call, oid, e, u) == Some(BaseInfo(cat.types[oid], oid, e));
  }

  lemma ArrayDescribes(cat: Snapshot, call: Option<TupleDesc>, oid: Oid, t: TypeInfo, name: CString, u: bool)
    requires !(IsRowType(cat, oid) && !u) && IsArrayType(cat, oid) && (name.Some? ==> u)
    requires |t.subTypes| == 1 ==>
      var elem := cat.types[oid].typelem;
      (Describes(cat, call, elem, t.subTypes[0], None, true, u) <==> Named(FillInner(cat, call, elem, true, u), None, u) == Some(t.subTypes[0]))
    ensures Describes(cat, call, oid, t, name, false, u) <==> Named(FillInner(cat, call, oid, false, u), name, u) == Some(t)
  {
    var elem := cat.types[oid].typelem;
    var sub := FillInner(cat, call, elem, true, u);
    var base := BaseInfo(cat.types[oid], oid, false);
    NoNameInRow(cat, call, elem, true);
    hide BaseTag, FillRow;
    assert u && sub.Some? ==> sub.value.(typeName := None) == sub.value;
    assert FillInner(cat, call, oid, false, u)
        == if sub.None? then None else Some(base.(tag := PLC_DATA_ARRAY, byPointer := false, subTypes := [sub.value]));
    if |t.subTypes| == 1 {
      assert t.subTypes == [t.subTypes[0]];
    }
  }

  /** Names of attributes are given afterwards. */
  lemma NoNameInRow(cat: Snapshot, call: Option<TupleDesc>, oid: Oid, e: bool)
    ensures var t := FillInner(cat, call, oid, e, true); t.Some? ==> t.value.typeName == None
  {
  }

  lemma {:induction false} RowDescribes(cat: Snapshot, call: Option<TupleDesc>, oid: Oid, t: TypeInfo, e: bool)
    requires WellFormed(cat) && oid in cat.types && IsRowType(cat, oid)
    ensures Describes(cat, call, oid, t, None, e, false) <==> FillInner(cat, call, oid, e, false) == Some(t)
    decreases 0, 3
  {
    hide FillAttributes, DescribesAttribute, BaseTag;
    var columns := ColumnsOf(cat, call, oid);
    if columns.Some? {
      AttributesDescribe(cat, call, columns.value.attrs, t.subTypes);
    }
  }

  predicate DescribesAttributes(cat: Snapshot, call: Option<TupleDesc>, attrs: seq<Attribute>, ts: seq<TypeInfo>) {
    |ts| == |attrs| && forall i | 0 <= i < |ts| :: DescribesAttribute(cat, call, attrs[i], ts[i])
  }

  lemma {:induction false} AttributesDescribe(cat: Snapshot, call: Option<TupleDesc>, attrs: seq<Attribute>, ts: seq<TypeInfo>)
    requires WellFormed(cat)
    ensures DescribesAttributes(cat, call, attrs, ts) <==> FillAttributes(cat, call, attrs) == Some(ts)
    decreases 0, 2, |attrs|
  {
    if attrs != [] && ts != [] {
      FilledDescribes(cat, call, attrs[0].atttypid, ts[0], Some(attrs[0].attname), false, true);
      AttributesDescribe(cat, call, attrs[1..], ts[1..]);
      assert ts == [ts[0]] + ts[1..];
    }
  }

  predicate DescribesAll(cat: Snapshot, call: Option<TupleDesc>, oids: seq<Oid>, ts: seq<TypeInfo>) {
    |ts| == |oids| && forall i | 0 <= i < |ts| :: Describes(cat, call, oids[i], ts[i], None, false, false)
  }

  lemma {:induction false} TypesDescribe(cat: Snapshot, call: Option<TupleDesc>, oids: seq<Oid>, ts: seq<TypeInfo>)
    requires WellFormed(cat)
    ensures DescribesAll(cat, call, oids, ts) <==> FillTypes(cat, call, oids) == Some(ts)
    decreases |oids|
  {
    hide FillInner, Describes, WellFormed;
    if oids != [] && ts != [] {
      FilledDescribes(cat, call, oids[0], ts[0], None, false, false);
      TypesDescribe(cat, call, oids[1..], ts[1..]);
      assert ts == [ts[0]] + ts[1..];
      assert forall i | 1 <= i < |ts| :: ts[i] == ts[1..][i - 1];
      if |ts| == |oids| {
        assert forall i | 1 <= i < |oids| :: oids[i] == oids[1..][i - 1];
      }
    }
  }

  lemma NamesDescribe(row: ProcRow, names: seq<CString>)
    ensures ArgNames(row) == Some(names)
       <==> |names| == |row.proargtypes| && forall i | 0 <= i < |names| :: IsArgumentName(row, i, names[i])
  {
    if |names| == |row.proargtypes| && (forall i | 0 <= i < |names| :: IsArgumentName(row, i, names[i])) {
      if names != [] {
        assert IsArgumentName(row, 0, names[0]);
      }
      assert ArgNames(row).value == names;
    }
  }

  /** What is built for a function is the one description of it. */
  lemma BuiltDescribes(cat: Snapshot, call: Option<TupleDesc>, oid: Oid, d: ProcDesc)
    requires WellFormed(cat)
    ensures Build(cat, call, oid) == Some(d) <==> DescribesFunction(cat, call, oid, d)
  {
    hide FillInner, FillType, FillTypes, ArgNames, Describes, WellFormed, IsArgumentName;
    if oid in cat.procs {
      var row := cat.procs[oid];
      FilledDescribes(cat, call, row.prorettype, d.rettype, None, false, false);
      FillTypeIsFillInner(cat, call, row.prorettype);
      TypesDescribe(cat, call, row.proargtypes, d.argtypes);
      NamesDescribe(row, d.argnames);
    }
  }

  lemma FillTypeIsFillInner(cat: Snapshot, call: Option<TupleDesc>, oid: Oid)
    ensures FillType(cat, call, oid) == Named(FillInner(cat, call, oid, false, false), None, false)
  {
  }

  /** The type is record, or an array of it. */
  predicate NamesRecord(cat: Snapshot, oid: Oid) {
    oid == RECORDOID || (IsArrayType(cat, oid) && cat.types[oid].typelem == RECORDOID)
  }

  lemma ElementHasRecord(cat: Snapshot, call: Option<TupleDesc>, oid: Oid, e: bool)
    requires WellFormed(cat) && FillInner(cat, call, oid, e, false).Some?
    requires e || !IsArrayType(cat, oid)
    ensures HasRecord(FillInner(cat, call, oid, e, false).value) <==> oid == RECORDOID
  {
    hide FillAttributes;
    if oid == RECORDOID {
      RecordShape(cat, call, e);
    } else if cat.types[oid].isComposite {
      AttributesHaveNoRecord(cat, call, cat.rels[cat.types[oid].typrelid].desc.attrs);
    }
  }

  lemma AttributesHaveNoRecord(cat: Snapshot, call: Option<TupleDesc>, attrs: seq<Attribute>)
    ensures var ts := FillAttributes(cat, call, attrs); ts.Some? ==> !AnyRecord(ts.value)
  {
    AttributesAgree(cat, call, cat, call, attrs);
  }

  lemma TypeHasRecord(cat: Snapshot, call: Option<TupleDesc>, oid: Oid)
    requires WellFormed(cat) && FillInner(cat, call, oid, false, false).Some?
    ensures HasRecord(FillInner(cat, call, oid, false, false).value) <==> NamesRecord(cat, oid)
  {
    if IsArrayType(cat, oid) && !IsRowType(cat, oid) {
      ElementHasRecord(cat, call, cat.types[oid].typelem, true);
      var t := FillInner(cat, call, oid, false, false).value;
      assert !t.isRecord && t.subTypes == [FillInner(cat, call, cat.types[oid].typelem, true, false).value];
      assert HasRecord(t) <==> HasRecord(t.subTypes[0]);
    } else {
      ElementHasRecord(cat, call, oid, false);
    }
  }

  lemma {:induction false} TypesHaveRecord(cat: Snapshot, call: Option<TupleDesc>, oids: seq<Oid>)
    requires WellFormed(cat) && FillTypes(cat, call, oids).Some?
    ensures AnyRecord(FillTypes(cat, call, oids).value) <==> exists i | 0 <= i < |oids| :: NamesRecord(cat, oids[i])
    decreases |oids|
  {
    hide WellFormed, FillInner, HasRecord, NamesRecord, AnyRecord;
    if oids == [] {
      assert !AnyRecord([]) by { NoRecordAtAll(); }
    } else {
      TypeHasRecord(cat, call, oids[0]);
      TypesHaveRecord(cat, call, oids[1..]);
      var ts := FillTypes(cat, call, oids).value;
      HeadOrTail(ts);
      assert ts[1..] == FillTypes(cat, call, oids[1..]).value;
      if i :| 0 <= i < |oids| && NamesRecord(cat, oids[i]) {
        assert i > 0 ==> NamesRecord(cat, oids[1..][i - 1]);
      }
      if i :| 0 <= i < |oids[1..]| && NamesRecord(cat, oids[1..][i]) {
        assert NamesRecord(cat, oids[i + 1]);
      }
    }
  }

  lemma NoRecordAtAll()
    ensures !AnyRecord([])
  {
  }

  /** A description depends on the calling query exactly when the function takes or returns record, or an array of it. */
  lemma DependsIfItNamesRecord(cat: Snapshot, call: Option<TupleDesc>, oid: Oid)
    requires WellFormed(cat) && Build(cat, call, oid).Some?
    ensures DependsOnCall(Build(cat, call, oid).value)
       <==> NamesRecord(cat, cat.procs[oid].prorettype)
            || exists i | 0 <= i < |cat.procs[oid].proargtypes| :: NamesRecord(cat, cat.procs[oid].proargtypes[i])
  {
    hide WellFormed, FillInner, FillTypes, HasRecord, NamesRecord, AnyRecord, ArgNames;
    TypeHasRecord(cat, call, cat.procs[oid].prorettype);
    TypesHaveRecord(cat, call, cat.procs[oid].proargtypes);
  }

  // ---------------------------------------------------------------------
  // What the validity test notices
  // ---------------------------------------------------------------------

  /** The relation of a composite type; the one behind record is not looked at. */
  function OwnRelation(cat: Snapshot, oid: Oid): Option<Oid> {
    if oid != RECORDOID && oid in cat.types && cat.types[oid].isComposite then Some(cat.types[oid].typrelid) else None
  }

  /** The relation a type hangs on: its own, or for an array that of its elements. */
  function RelationUnder(cat: Snapshot, oid: Oid): Option<Oid> {
    if IsArrayType(cat, oid) then OwnRelation(cat, cat.types[oid].typelem) else OwnRelation(cat, oid)
  }

  /** The relation, if there is one, bears the stamp it bore. */
  predicate Kept(c1: Snapshot, c2: Snapshot, rel: Option<Oid>) {
    rel.Some? ==> rel.value in c1.rels && rel.value in c2.rels && c1.rels[rel.value].stamp == c2.rels[rel.value].stamp
  }

  predicate Gone(c2: Snapshot, rel: Option<Oid>) { rel.Some? && rel.value !in c2.rels }

  /** The relations a function hangs on, in the order they are looked at. */
  function RelationsUnder(cat: Snapshot, row: ProcRow): seq<Option<Oid>> {
    RelationsOf(cat, row.proargtypes) + [RelationUnder(cat, row.prorettype)]
  }

  function RelationsOf(cat: Snapshot, oids: seq<Oid>): seq<Option<Oid>> {
    seq(|oids|, i requires 0 <= i < |oids| => RelationUnder(cat, oids[i]))
  }

  predicate AllKept(c1: Snapshot, c2: Snapshot, rels: seq<Option<Oid>>) {
    forall i | 0 <= i < |rels| :: Kept(c1, c2, rels[i])
  }

  /** One is gone, and the ones before it are kept. */
  predicate FirstChangeIsGone(c1: Snapshot, c2: Snapshot, rels: seq<Option<Oid>>) {
    exists k | 0 <= k < |rels| :: Gone(c2, rels[k]) && AllKept(c1, c2, rels[..k])
  }

  /** Neither the function nor any relation it hangs on has been written since. */
  predicate Unchanged(c1: Snapshot, c2: Snapshot, oid: Oid) {
    && oid in c1.procs && oid in c2.procs && c1.procs[oid].stamp == c2.procs[oid].stamp
    && AllKept(c1, c2, RelationsUnder(c1, c1.procs[oid]))
  }

  lemma RowVerdict(c1: Snapshot, call1: Option<TupleDesc>, c2: Snapshot, oid: Oid, e: bool)
    requires WellFormed(c1) && IsRowType(c1, oid) && FillInner(c1, call1, oid, e, false).Some?
    ensures var v, rel := TypeValid(c2, FillInner(c1, call1, oid, e, false).value), OwnRelation(c1, oid);
      (v == Some(true) <==> Kept(c1, c2, rel)) && (v == None <==> Gone(c2, rel))
  {
    hide FillAttributes;
    if oid == RECORDOID {
      RecordIsValid(c1, call1, e, c2);
    } else {
      AttributesAreValid(c1, call1, c1.rels[c1.types[oid].typrelid].desc.attrs, c2);
    }
  }

  lemma PlainIsValid(c2: Snapshot, t: TypeInfo)
    requires t.subTypes == [] && !t.isRowtype
    ensures TypeValid(c2, t) == Some(true)
  {
  }

  /** The test's verdict on one type: true, false, or an error. */
  lemma TypeVerdict(c1: Snapshot, call1: Option<TupleDesc>, c2: Snapshot, oid: Oid)
    requires WellFormed(c1) && FillInner(c1, call1, oid, false, false).Some?
    ensures var v, rel := TypeValid(c2, FillInner(c1, call1, oid, false, false).value), RelationUnder(c1, oid);
      (v == Some(true) <==> Kept(c1, c2, rel)) && (v == None <==> Gone(c2, rel))
  {
    var t := FillInner(c1, call1, oid, false, false).value;
    if IsRowType(c1, oid) {
      RowVerdict(c1, call1, c2, oid, false);
    } else if IsArrayType(c1, oid) {
      assert TypesValid(c2, t.subTypes) == TypeValid(c2, t.subTypes[0]);
      var elem := c1.types[oid].typelem;
      assert t.subTypes == [FillInner(c1, call1, elem, true, false).value];
      if IsRowType(c1, elem) {
        RowVerdict(c1, call1, c2, elem, true);
      } else {
        PlainIsValid(c2, t.subTypes[0]);
      }
    }
  }

  lemma HeadFirst(c1: Snapshot, c2: Snapshot, rels: seq<Option<Oid>>)
    requires rels != []
    ensures AllKept(c1, c2, rels) <==> Kept(c1, c2, rels[0]) && AllKept(c1, c2, rels[1..])
    ensures FirstChangeIsGone(c1, c2, rels)
       <==> Gone(c2, rels[0]) || (Kept(c1, c2, rels[0]) && FirstChangeIsGone(c1, c2, rels[1..]))
  {
    hide Gone, Kept;
    if FirstChangeIsGone(c1, c2, rels) {
      var k :| 0 <= k < |rels| && Gone(c2, rels[k]) && AllKept(c1, c2, rels[..k]);
      if k > 0 {
        assert rels[..k][0] == rels[0] && rels[1..][..k - 1] == rels[..k][1..];
        assert Gone(c2, rels[1..][k - 1]);
      }
    }
    if Gone(c2, rels[0]) {
      assert AllKept(c1, c2, rels[..0]);
    } else if Kept(c1, c2, rels[0]) && FirstChangeIsGone(c1, c2, rels[1..]) {
      var k :| 0 <= k < |rels[1..]| && Gone(c2, rels[1..][k]) && AllKept(c1, c2, rels[1..][..k]);
      assert rels[..k + 1] == [rels[0]] + rels[1..][..k];
      assert AllKept(c1, c2, rels[..k + 1]);
      assert Gone(c2, rels[k + 1]);
    }
  }

  lemma {:induction false} TypesVerdict(c1: Snapshot, call1: Option<TupleDesc>, c2: Snapshot, oids: seq<Oid>)
    requires WellFormed(c1) && FillTypes(c1, call1, oids).Some?
    ensures var v, rels := TypesValid(c2, FillTypes(c1, call1, oids).value), RelationsOf(c1, oids);
      (v == Some(true) <==> AllKept(c1, c2, rels)) && (v == None <==> FirstChangeIsGone(c1, c2, rels))
    decreases |oids|
  {
    hide FillInner, TypeValid, WellFormed, RelationUnder, AllKept, FirstChangeIsGone, Kept, Gone;
    var rels := RelationsOf(c1, oids);
    var ts := FillTypes(c1, call1, oids).value;
    if oids == [] {
      NothingChanges(c1, c2);
    } else {
      HeadFirst(c1, c2, rels);
      TypeVerdict(c1, call1, c2, oids[0]);
      TypesVerdict(c1, call1, c2, oids[1..]);
      assert rels[1..] == RelationsOf(c1, oids[1..]);
      assert ts[1..] == FillTypes(c1, call1, oids[1..]).value;
      NotBoth(c1, c2, rels[0]);
    }
  }

  lemma NothingChanges(c1: Snapshot, c2: Snapshot)
    ensures AllKept(c1, c2, []) && !FirstChangeIsGone(c1, c2, [])
  {
  }

  lemma NotBoth(c1: Snapshot, c2: Snapshot, rel: Option<Oid>)
    ensures !(Kept(c1, c2, rel) && Gone(c2, rel))
  {
  }

  /**
    The validity test, in terms of the catalog alone: a cached description passes if
    and only if neither the function nor any relation its argument and result types
    hang on has been written since it was built; an error is raised exactly when the
    first of those relations that changed is gone.
  */
  lemma ValidIffUnchanged(c1: Snapshot, call1: Option<TupleDesc>, c2: Snapshot, oid: Oid)
    requires WellFormed(c1) && Build(c1, call1, oid).Some? && oid in c2.procs
    ensures var v := ProcedureValid(c2, Build(c1, call1, oid).value, c2.procs[oid]);
      && (v == Some(true) <==> Unchanged(c1, c2, oid))
      && (v == None <==> c1.procs[oid].stamp == c2.procs[oid].stamp
                         && FirstChangeIsGone(c1, c2, RelationsUnder(c1, c1.procs[oid])))
  {
    hide FillInner, TypeValid, TypesValid, WellFormed, RelationUnder, ArgNames, FillTypes, Kept, Gone, AllKept, FirstChangeIsGone;
    var row := c1.procs[oid];
    TypesVerdict(c1, call1, c2, row.proargtypes);
    TypeVerdict(c1, call1, c2, row.prorettype);
    LastLast(c1, c2, RelationsOf(c1, row.proargtypes), RelationUnder(c1, row.prorettype));
  }

  lemma {:induction false} LastLast(c1: Snapshot, c2: Snapshot, rels: seq<Option<Oid>>, last: Option<Oid>)
    ensures AllKept(c1, c2, rels + [last]) <==> AllKept(c1, c2, rels) && Kept(c1, c2, last)
    ensures FirstChangeIsGone(c1, c2, rels + [last])
       <==> FirstChangeIsGone(c1, c2, rels) || (AllKept(c1, c2, rels) && Gone(c2, last))
    decreases |rels|
  {
    hide AllKept, FirstChangeIsGone, Kept, Gone;
    NothingChanges(c1, c2);
    HeadFirst(c1, c2, rels + [last]);
    if rels == [] {
      assert (rels + [last])[1..] == [];
    } else {
      HeadFirst(c1, c2, rels);
      assert (rels + [last])[1..] == rels[1..] + [last];
      LastLast(c1, c2, rels[1..], last);
      NotBoth(c1, c2, rels[0]);
    }
  }

  lemma RelationIsThere(cat: Snapshot, call: Option<TupleDesc>, oid: Oid)
    requires WellFormed(cat) && FillInner(cat, call, oid, false, false).Some?
    ensures Kept(cat, cat, RelationUnder(cat, oid))
  {
    hide FillAttributes;
  }

  lemma {:induction false} RelationsAreThere(cat: Snapshot, call: Option<TupleDesc>, oids: seq<Oid>)
    requires WellFormed(cat) && FillTypes(cat, call, oids).Some?
    ensures AllKept(cat, cat, RelationsOf(cat, oids))
    decreases |oids|
  {
    hide WellFormed, FillInner, RelationUnder, AllKept, Kept;
    if oids == [] {
      NothingChanges(cat, cat);
      assert RelationsOf(cat, oids) == [];
    } else {
      RelationIsThere(cat, call, oids[0]);
      RelationsAreThere(cat, call, oids[1..]);
      HeadFirst(cat, cat, RelationsOf(cat, oids));
      assert RelationsOf(cat, oids)[1..] == RelationsOf(cat, oids[1..]);
    }
  }

  /** As long as nothing is written, a description that could be built at all passes. */
  lemma PassesAtOnce(cat: Snapshot, call: Option<TupleDesc>, oid: Oid)
    requires WellFormed(cat) && Build(cat, call, oid).Some?
    ensures Unchanged(cat, cat, oid)
    ensures ProcedureValid(cat, Build(cat, call, oid).value, cat.procs[oid]) == Some(true)
  {
    hide WellFormed, FillInner, TypeValid, TypesValid, RelationUnder, ArgNames, FillTypes, AllKept, Kept;
    var row := cat.procs[oid];
    RelationIsThere(cat, call, row.prorettype);
    RelationsAreThere(cat, call, row.proargtypes);
    LastLast(cat, cat, RelationsOf(cat, row.proargtypes), RelationUnder(cat, row.prorettype));
    ValidIffUnchanged(cat, call, cat, oid);
  }
}
