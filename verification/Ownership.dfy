/**
  Who frees what: the blocks the receive functions allocate for a message and the
  blocks the free functions release, on a heap where releasing a block that is not
  live is impossible.
*/
module Ownership {
  import opened Primitives
  import opened Wire

  type Block = nat

  class Heap {
    var next: Block                // how many blocks have been allocated
    ghost var live: multiset<Block>

    constructor ()
      ensures Valid() && live == multiset{}
    {
      next, live := 0, multiset{};
    }

    ghost predicate Valid()
      reads this
    {
      forall b | b in live :: b < next
    }

    method Alloc() returns (b: Block)
      requires Valid()
      modifies this
      ensures Valid() && b !in old(live) && live == multiset{b} + old(live)
      ensures next == old(next) + 1
    {
      b := next;
      next := next + 1;
      live := live + multiset{b};
    }

    /** pfree: neither NULL nor a block that is not live. */
    method Free(b: Block)
      requires Valid() && b in live
      modifies this`live
      ensures Valid() && live == old(live) - multiset{b}
    {
      live := live - multiset{b};
    }
  }

  // ---------------------------------------------------------------------
  // Messages in memory
  // ---------------------------------------------------------------------

  /** A plcType: its name, and the array of its subtypes when it has any. */
  datatype MType = MType(tag: int, name: Option<Block>, subsBlock: Option<Block>, subs: seq<MType>)

  /** A rawdata object or an array slot: null, or what its pointer leads to. */
  datatype MValue =
    | NullObject
    | NullPointer
    | Cell(block: Block)
    | MArray(self: Block, meta: Block, dims: Option<Block>, elemTag: int,
             storage: Option<(Block, Block)>, slots: seq<MValue>)
    | MUdt(self: Block, fieldsBlock: Block, fields: seq<MValue>)

  function Opt(b: Option<Block>): multiset<Block> { if b.Some? then multiset{b.value} else multiset{} }

  function TypeBlocks(t: MType): multiset<Block>
    decreases t, 1
  {
    Opt(t.name) + TypesBlocks(t.subs) + Opt(t.subsBlock)
  }

  function TypesBlocks(ts: seq<MType>): multiset<Block>
    decreases ts, 0
  {
    if ts == [] then multiset{} else TypeBlocks(ts[0]) + TypesBlocks(ts[1..])
  }

  function Storage(s: Option<(Block, Block)>): multiset<Block> {
    if s.Some? then multiset{s.value.0} + multiset{s.value.1} else multiset{}
  }

  /** The blocks of an array besides what its slots point at. */
  function ArrayFrame(v: MValue): multiset<Block>
    requires v.MArray?
  {
    Storage(v.storage) + Opt(v.dims) + multiset{v.meta} + multiset{v.self}
  }

  /** Every block of a value. */
  function Blocks(v: MValue): multiset<Block>
    decreases v, 1
  {
    match v
    case NullObject => multiset{}
    case NullPointer => multiset{}
    case Cell(b) => multiset{b}
    case MArray(_, _, _, _, _, slots) => AllBlocks(slots) + ArrayFrame(v)
    case MUdt(self, data, fields) => AllBlocks(fields) + (multiset{data} + multiset{self})
  }

  function AllBlocks(vs: seq<MValue>): multiset<Block>
    decreases vs, 0
  {
    if vs == [] then multiset{} else Blocks(vs[0]) + AllBlocks(vs[1..])
  }

  predicate IsNull(v: MValue) { v.NullObject? || v.NullPointer? }

  /** The memory of a value of this type, as the receive functions lay it out. */
  predicate Shaped(t: PlcType, v: MValue)
    decreases v
  {
    match v
    case NullObject => true
    case NullPointer => t.tag == PLC_DATA_TEXT
    case Cell(_) => IsElement(t.tag) && t.tag != PLC_DATA_UDT
    case MArray(_, _, _, elemTag, storage, slots) =>
      && t.tag == PLC_DATA_ARRAY && t.subTypes != [] && elemTag == t.subTypes[0].tag
      && (storage.Some? <==> slots != [])
      && (slots != [] ==> IsElement(elemTag))
      && (forall i | 0 <= i < |slots| :: Shaped(t.subTypes[0], slots[i]) && (IsScalar(elemTag) ==> IsNull(slots[i])))
    case MUdt(_, _, fields) =>
      && t.tag == PLC_DATA_UDT && |fields| == |t.subTypes|
      && (forall i | 0 <= i < |fields| :: Shaped(t.subTypes[i], fields[i]))
  }

  predicate TidyField(v: MValue) { !v.MUdt? && !v.NullPointer? && TidyMemory(v) }

  /** No field of a row is a row, or an object that is not null with a NULL pointer. */
  predicate TidyMemory(v: MValue) {
    match v
    case MArray(_, _, _, _, _, slots) => forall i | 0 <= i < |slots| :: TidyMemory(slots[i])
    case MUdt(_, _, fields) =>
      forall i | 0 <= i < |fields| :: !fields[i].MUdt? && !fields[i].NullPointer? && TidyMemory(fields[i])
    case _ => true
  }

  /** The same of the value that is received. */
  predicate Tidy(v: Value) {
    match v
    case Array(_, _, elems) => forall i | 0 <= i < |elems| :: Tidy(elems[i])
    case Udt(fields) =>
      forall i | 0 <= i < |fields| :: !fields[i].Udt? && fields[i] != Text(None) && Tidy(fields[i])
    case _ => true
  }

  // ---------------------------------------------------------------------
  // What the receive functions allocate
  // ---------------------------------------------------------------------

  /** The memory of a type: a block for the name if there is one, and one for subtypes if there are any. */
  predicate TypeMemory(m: MType, t: PlcType) {
    && m.tag == t.tag && (m.name.Some? <==> t.typeName.Some?)
    && (m.subsBlock.Some? <==> t.subTypes != []) && |m.subs| == |t.subTypes|
    && (forall i | 0 <= i < |m.subs| :: TypeMemory(m.subs[i], t.subTypes[i]))
  }

  /** The memory of a value, part by part; a scalar in an array lives in the array's own data. */
  predicate ValueMemory(m: MValue, v: Value) {
    match v
    case Null => m.NullObject?
    case Text(s) => if s.Some? then m.Cell? else m.NullPointer?
    case Array(n, _, elems) =>
      && m.MArray? && (m.dims.Some? <==> n > 0) && (m.storage.Some? <==> elems != []) && |m.slots| == |elems|
      && (forall i | 0 <= i < |elems| ::
            if elems[i].Scalar? then m.slots[i].NullObject? else ValueMemory(m.slots[i], elems[i]))
    case Udt(fields) =>
      m.MUdt? && |m.fields| == |fields| && (forall i | 0 <= i < |fields| :: ValueMemory(m.fields[i], fields[i]))
    case _ => m.Cell?
  }

  function One(present: bool): nat { if present then 1 else 0 }

  /** How many blocks receiving a type allocates. */
  function TypeCount(t: PlcType): nat {
    One(t.typeName.Some?) + (if t.subTypes == [] then 0 else 1 + TypesCount(t.subTypes))
  }

  function TypesCount(ts: seq<PlcType>): nat {
    if ts == [] then 0 else TypeCount(ts[0]) + TypesCount(ts[1..])
  }

  /** How many blocks receiving a value allocates. */
  function ValueCount(v: Value): nat
    decreases v, 1
  {
    match v
    case Null => 0
    case Text(s) => One(s.Some?)
    case Array(n, _, elems) => 2 + One(n > 0) + (if elems == [] then 0 else 2 + SlotsCount(elems))
    case Udt(fields) => 2 + ValuesCount(fields)
    case _ => 1
  }

  function ValuesCount(vs: seq<Value>): nat
    decreases vs, 0
  {
    if vs == [] then 0 else ValueCount(vs[0]) + ValuesCount(vs[1..])
  }

  function SlotsCount(vs: seq<Value>): nat
    decreases vs, 0
  {
    if vs == [] then 0 else (if vs[0].Scalar? then 0 else ValueCount(vs[0])) + SlotsCount(vs[1..])
  }

  // ---------------------------------------------------------------------
  // What the free functions release
  // ---------------------------------------------------------------------

  /** The blocks released, or None when a NULL would be. */
  type Released = Option<multiset<Block>>

  function Both(a: Released, b: Released): Released {
    if a.None? || b.None? then None else Some(a.value + b.value)
  }

  /** plc_free_array */
  function FreedArray(t: PlcType, v: MValue): Released
    requires v.MArray? && Shaped(t, v)
    decreases v, 1
  {
    var slots := if v.elemTag == PLC_DATA_UDT then FreedRows(t.subTypes[0], v.slots)
                 else if v.elemTag == PLC_DATA_TEXT || v.elemTag == PLC_DATA_BYTEA then Some(AllBlocks(v.slots))
                 else Some(multiset{});
    Both(slots, Some(ArrayFrame(v)))
  }

  /** The loop of plc_free_array over rows. */
  function FreedRows(e: PlcType, slots: seq<MValue>): Released
    requires e.tag == PLC_DATA_UDT && forall i | 0 <= i < |slots| :: Shaped(e, slots[i])
    decreases slots, 0
  {
    if slots == [] then Some(multiset{})
    else
      assert Shaped(e, slots[0]);
      Both(FreedRow(e, slots[0]), FreedRows(e, slots[1..]))
  }

  /** plc_free_udt followed by a pfree of the row itself. */
  function FreedRow(e: PlcType, v: MValue): Released
    requires e.tag == PLC_DATA_UDT && Shaped(e, v)
    decreases v, 1
  {
    if v.MUdt? then Both(FreedFields(e.subTypes, v.fields), Some(multiset{v.fieldsBlock} + multiset{v.self}))
    else Some(multiset{})
  }

  /** The loop of plc_free_udt. */
  function FreedFields(ts: seq<PlcType>, fs: seq<MValue>): Released
    requires |ts| == |fs| && forall i | 0 <= i < |ts| :: Shaped(ts[i], fs[i])
    decreases fs, 0
  {
    if fs == [] then Some(multiset{})
    else
      assert Shaped(ts[0], fs[0]);
      Both(FreedField(ts[0], fs[0]), FreedFields(ts[1..], fs[1..]))
  }

  function FreedField(t: PlcType, f: MValue): Released
    requires Shaped(t, f)
    decreases f, 2
  {
    match f
    case NullObject => Some(multiset{})
    case NullPointer => None
    case Cell(b) => Some(multiset{b})
    case MArray(_, _, _, _, _, _) => FreedArray(t, f)
    case MUdt(self, _, _) => Some(multiset{self})
  }

  /** An argument or a result cell, as free_callreq and free_result release it. */
  function FreedValue(t: PlcType, v: MValue): Released
    requires Shaped(t, v)
  {
    match v
    case Cell(b) => Some(multiset{b})
    case MArray(_, _, _, _, _, _) => FreedArray(t, v)
    case MUdt(_, _, _) => FreedRow(t, v)
    case _ => Some(multiset{})
  }

  /** Nothing but the value's own blocks, and all of them exactly when `clean`. */
  predicate Releases(r: Released, blocks: multiset<Block>, clean: bool) {
    && (r.Some? ==> r.value <= blocks)
    && (r == Some(blocks) <==> clean)
  }

  lemma ReleasesBoth(a: Released, x: multiset<Block>, p: bool, b: Released, y: multiset<Block>, q: bool)
    requires Releases(a, x, p) && Releases(b, y, q)
    ensures Releases(Both(a, b), x + y, p && q)
  {
    if a.Some? && b.Some? && a.value + b.value == x + y {
      forall k ensures a.value[k] == x[k] && b.value[k] == y[k] {
        assert (a.value + b.value)[k] == (x + y)[k];
      }
      assert a.value == x;
      assert b.value == y;
    }
  }

  /**
    A value is released completely, each block once and never a NULL, if and only
    if it is tidy: otherwise a row inside a row leaks its fields, or a NULL is freed.
  */
  lemma ValueReleased(t: PlcType, v: MValue)
    requires Shaped(t, v)
    ensures Releases(FreedValue(t, v), Blocks(v), TidyMemory(v))
  {
    match v
    case MArray(_, _, _, _, _, _) => ArrayReleased(t, v);
    case MUdt(_, _, _) => RowReleased(t, v);
    case _ =>
  }

  lemma {:induction false} ArrayReleased(t: PlcType, v: MValue)
    requires v.MArray? && Shaped(t, v)
    ensures Releases(FreedArray(t, v), Blocks(v), TidyMemory(v))
    decreases v, 1
  {
    hide ArrayFrame, FreedRows, AllBlocks, Releases;
    var e := t.subTypes[0];
    var clean := forall i | 0 <= i < |v.slots| :: TidyMemory(v.slots[i]);
    ReleasesAll(ArrayFrame(v));
    if v.elemTag == PLC_DATA_UDT {
      RowsReleased(e, v.slots);
      ReleasesBoth(FreedRows(e, v.slots), AllBlocks(v.slots), clean, Some(ArrayFrame(v)), ArrayFrame(v), true);
    } else {
      PlainSlots(e, v.slots);
      ReleasesAll(AllBlocks(v.slots));
      ReleasesBoth(Some(AllBlocks(v.slots)), AllBlocks(v.slots), true, Some(ArrayFrame(v)), ArrayFrame(v), true);
    }
  }

  lemma ReleasesAll(x: multiset<Block>)
    ensures Releases(Some(x), x, true)
  {
  }

  /** Slots without rows are tidy, and scalars point at nothing. */
  lemma {:induction false} PlainSlots(e: PlcType, slots: seq<MValue>)
    requires e.tag != PLC_DATA_UDT && (slots != [] ==> IsElement(e.tag))
    requires forall i | 0 <= i < |slots| :: Shaped(e, slots[i]) && (IsScalar(e.tag) ==> IsNull(slots[i]))
    ensures forall i | 0 <= i < |slots| :: TidyMemory(slots[i])
    ensures IsScalar(e.tag) || slots == [] ==> AllBlocks(slots) == multiset{}
  {
    if slots != [] {
      PlainSlots(e, slots[1..]);
      assert Shaped(e, slots[0]);
    }
  }

  lemma {:induction false} RowsReleased(e: PlcType, slots: seq<MValue>)
    requires e.tag == PLC_DATA_UDT && forall i | 0 <= i < |slots| :: Shaped(e, slots[i])
    ensures Releases(FreedRows(e, slots), AllBlocks(slots), forall i | 0 <= i < |slots| :: TidyMemory(slots[i]))
    decreases slots, 0
  {
    hide FreedRow, Blocks, Releases, TidyMemory;
    if slots == [] {
      ReleasesAll(multiset{});
    } else {
      assert Shaped(e, slots[0]);
      RowReleased(e, slots[0]);
      RowsReleased(e, slots[1..]);
      var rest := forall i | 0 <= i < |slots[1..]| :: TidyMemory(slots[1..][i]);
      ReleasesBoth(FreedRow(e, slots[0]), Blocks(slots[0]), TidyMemory(slots[0]),
                   FreedRows(e, slots[1..]), AllBlocks(slots[1..]), rest);
      assert rest <==> forall i | 1 <= i < |slots| :: TidyMemory(slots[i]) by {
        assert forall i | 1 <= i < |slots| :: slots[i] == slots[1..][i - 1];
      }
    }
  }

  lemma {:induction false} RowReleased(e: PlcType, v: MValue)
    requires e.tag == PLC_DATA_UDT && Shaped(e, v)
    ensures Releases(FreedRow(e, v), Blocks(v), TidyMemory(v))
    decreases v, 1
  {
    hide FreedFields, AllBlocks, Releases;
    if v.MUdt? {
      var own := multiset{v.fieldsBlock} + multiset{v.self};
      FieldsReleased(e.subTypes, v.fields);
      ReleasesAll(own);
      var clean := forall i | 0 <= i < |v.fields| :: TidyField(v.fields[i]);
      ReleasesBoth(FreedFields(e.subTypes, v.fields), AllBlocks(v.fields), clean, Some(own), own, true);
      assert clean <==> TidyMemory(v);
    } else {
      ReleasesAll(multiset{});
    }
  }

  lemma {:induction false} FieldsReleased(ts: seq<PlcType>, fs: seq<MValue>)
    requires |ts| == |fs| && forall i | 0 <= i < |ts| :: Shaped(ts[i], fs[i])
    ensures Releases(FreedFields(ts, fs), AllBlocks(fs), forall i | 0 <= i < |fs| :: TidyField(fs[i]))
    decreases fs, 0
  {
    hide FreedField, Blocks, Releases, TidyField;
    if fs == [] {
      ReleasesAll(multiset{});
    } else {
      assert Shaped(ts[0], fs[0]);
      FieldReleased(ts[0], fs[0]);
      FieldsReleased(ts[1..], fs[1..]);
      var rest := forall i | 0 <= i < |fs[1..]| :: TidyField(fs[1..][i]);
      ReleasesBoth(FreedField(ts[0], fs[0]), Blocks(fs[0]), TidyField(fs[0]),
                   FreedFields(ts[1..], fs[1..]), AllBlocks(fs[1..]), rest);
      assert rest <==> forall i | 1 <= i < |fs| :: TidyField(fs[i]) by {
        assert forall i | 1 <= i < |fs| :: fs[i] == fs[1..][i - 1];
      }
    }
  }

  lemma {:induction false} FieldReleased(t: PlcType, f: MValue)
    requires Shaped(t, f)
    ensures Releases(FreedField(t, f), Blocks(f), TidyField(f))
    decreases f, 2
  {
    if f.MArray? {
      ArrayReleased(t, f);
    } else if f.MUdt? {
      assert multiset{f.self} != Blocks(f) by {
        assert |Blocks(f)| == |AllBlocks(f.fields)| + 2;
      }
    }
  }
}
