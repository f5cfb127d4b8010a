/** The receive and free functions running on the heap, and their balance. */
module OwnershipRuns {
  import opened Primitives
  import opened Wire
  import opened Ownership

  lemma Assoc(a: multiset<Block>, b: multiset<Block>, c: multiset<Block>)
    ensures (a + b) + c == a + (b + c)
  {
  }

  // ---------------------------------------------------------------------
  // Freeing: `rest` is what stays live
  // ---------------------------------------------------------------------

  method FreeOpt(h: Heap, b: Option<Block>, ghost rest: multiset<Block>)
    requires h.Valid() && h.live == Opt(b) + rest
    modifies h`live
    ensures h.Valid() && h.live == rest
  {
    if b.Some? {
      h.Free(b.value);
    }
  }

  /** Subtypes are stored where a block was allocated for them. */
  predicate SubsBlocked(t: MType) {
    && (t.subsBlock.None? ==> t.subs == [])
    && (forall i | 0 <= i < |t.subs| :: SubsBlocked(t.subs[i]))
  }

  method FreeType(h: Heap, t: MType, ghost rest: multiset<Block>)
    requires h.Valid() && SubsBlocked(t) && h.live == TypeBlocks(t) + rest
    modifies h`live
    ensures h.Valid() && h.live == rest
    decreases t, 1
  {
    hide Heap.Valid, Opt, TypesBlocks;
    ghost var own := Opt(t.subsBlock) + rest;
    Assoc(Opt(t.name) + TypesBlocks(t.subs), Opt(t.subsBlock), rest);
    Assoc(Opt(t.name), TypesBlocks(t.subs), own);
    FreeOpt(h, t.name, TypesBlocks(t.subs) + own);
    FreeTypes(h, t.subs, own);
    FreeOpt(h, t.subsBlock, rest);
  }

  /** The subtype loop of free_type. */
  method FreeTypes(h: Heap, ts: seq<MType>, ghost rest: multiset<Block>)
    requires h.Valid() && h.live == TypesBlocks(ts) + rest
    requires forall i | 0 <= i < |ts| :: SubsBlocked(ts[i])
    modifies h`live
    ensures h.Valid() && h.live == rest
    decreases ts, 0
  {
    hide Heap.Valid, TypeBlocks;
    for i := 0 to |ts|
      invariant h.Valid() && h.live == TypesBlocks(ts[i..]) + rest
    {
      assert ts[i..][1..] == ts[i + 1..];
      Assoc(TypeBlocks(ts[i]), TypesBlocks(ts[i + 1..]), rest);
      FreeType(h, ts[i], TypesBlocks(ts[i + 1..]) + rest);
    }
  }

  method FreeArray(h: Heap, t: PlcType, v: MValue, ghost rest: multiset<Block>)
    requires v.MArray? && Shaped(t, v) && FreedArray(t, v).Some?
    requires h.Valid() && h.live == FreedArray(t, v).value + rest
    modifies h`live
    ensures h.Valid() && h.live == rest
    decreases v, 1
  {
    hide Heap.Valid, ArrayFrame, AllBlocks, FreedRows;
    if v.elemTag == PLC_DATA_TEXT || v.elemTag == PLC_DATA_BYTEA {
      Assoc(AllBlocks(v.slots), ArrayFrame(v), rest);
      FreeCells(h, t.subTypes[0], v.slots, ArrayFrame(v) + rest);
    }
    if v.elemTag == PLC_DATA_UDT {
      Assoc(FreedRows(t.subTypes[0], v.slots).value, ArrayFrame(v), rest);
      FreeRows(h, t.subTypes[0], v.slots, ArrayFrame(v) + rest);
    }
    FreeFrame(h, v, rest);
  }

  /** The end of plc_free_array. */
  method FreeFrame(h: Heap, v: MValue, ghost rest: multiset<Block>)
    requires v.MArray? && h.Valid() && h.live == ArrayFrame(v) + rest
    modifies h`live
    ensures h.Valid() && h.live == rest
  {
    hide Heap.Valid, Opt;
    ghost var r2 := multiset{v.self} + rest;
    ghost var r1 := multiset{v.meta} + r2;
    Assoc(Storage(v.storage) + Opt(v.dims) + multiset{v.meta}, multiset{v.self}, rest);
    Assoc(Storage(v.storage) + Opt(v.dims), multiset{v.meta}, r2);
    Assoc(Storage(v.storage), Opt(v.dims), r1);
    if v.storage.Some? {
      Assoc(multiset{v.storage.value.0}, multiset{v.storage.value.1}, Opt(v.dims) + r1);
      FreeBlock(h, v.storage.value.0, multiset{v.storage.value.1} + (Opt(v.dims) + r1));
      FreeBlock(h, v.storage.value.1, Opt(v.dims) + r1);
    }
    FreeOpt(h, v.dims, r1);
    FreeBlock(h, v.meta, r2);
    FreeBlock(h, v.self, rest);
  }

  method FreeBlock(h: Heap, b: Block, ghost rest: multiset<Block>)
    requires h.Valid() && h.live == multiset{b} + rest
    modifies h`live
    ensures h.Valid() && h.live == rest
  {
    h.Free(b);
  }

  /** The loop of plc_free_array over strings. */
  method FreeCells(h: Heap, e: PlcType, slots: seq<MValue>, ghost rest: multiset<Block>)
    requires e.tag == PLC_DATA_TEXT || e.tag == PLC_DATA_BYTEA
    requires forall i | 0 <= i < |slots| :: Shaped(e, slots[i])
    requires h.Valid() && h.live == AllBlocks(slots) + rest
    modifies h`live
    ensures h.Valid() && h.live == rest
  {
    hide Heap.Valid;
    for i := 0 to |slots|
      invariant h.Valid() && h.live == AllBlocks(slots[i..]) + rest
    {
      assert slots[i..][1..] == slots[i + 1..];
      Assoc(Blocks(slots[i]), AllBlocks(slots[i + 1..]), rest);
      assert Shaped(e, slots[i]);
      if !IsNull(slots[i]) {
        FreeBlock(h, slots[i].block, AllBlocks(slots[i + 1..]) + rest);
      }
    }
  }

  method FreeRows(h: Heap, e: PlcType, slots: seq<MValue>, ghost rest: multiset<Block>)
    requires e.tag == PLC_DATA_UDT && forall i | 0 <= i < |slots| :: Shaped(e, slots[i])
    requires FreedRows(e, slots).Some? && h.Valid() && h.live == FreedRows(e, slots).value + rest
    modifies h`live
    ensures h.Valid() && h.live == rest
    decreases slots, 0
  {
    hide Heap.Valid, FreedRow, Shaped;
    for i := 0 to |slots|
      invariant h.Valid() && FreedRows(e, slots[i..]).Some?
      invariant h.live == FreedRows(e, slots[i..]).value + rest
    {
      assert slots[i..][1..] == slots[i + 1..];
      ghost var later := FreedRows(e, slots[i + 1..]).value;
      Assoc(FreedRow(e, slots[i]).value, later, rest);
      FreeRow(h, e, slots[i], later + rest);
    }
  }

  /** plc_free_udt, and the pfree of the row that follows every call of it. */
  method FreeRow(h: Heap, e: PlcType, v: MValue, ghost rest: multiset<Block>)
    requires e.tag == PLC_DATA_UDT && Shaped(e, v) && FreedRow(e, v).Some?
    requires h.Valid() && h.live == FreedRow(e, v).value + rest
    modifies h`live
    ensures h.Valid() && h.live == rest
    decreases v, 1
  {
    hide Heap.Valid, FreedFields;
    if v.MUdt? {
      ghost var fs := FreedFields(e.subTypes, v.fields).value;
      ghost var r := multiset{v.self} + rest;
      Assoc(fs, multiset{v.fieldsBlock} + multiset{v.self}, rest);
      Assoc(multiset{v.fieldsBlock}, multiset{v.self}, rest);
      FreeFields(h, e.subTypes, v.fields, multiset{v.fieldsBlock} + r);
      FreeBlock(h, v.fieldsBlock, r);
      FreeBlock(h, v.self, rest);
    }
  }

  method FreeFields(h: Heap, ts: seq<PlcType>, fs: seq<MValue>, ghost rest: multiset<Block>)
    requires |ts| == |fs| && forall i | 0 <= i < |ts| :: Shaped(ts[i], fs[i])
    requires FreedFields(ts, fs).Some? && h.Valid() && h.live == FreedFields(ts, fs).value + rest
    modifies h`live
    ensures h.Valid() && h.live == rest
    decreases fs, 0
  {
    hide Heap.Valid, FreedField, Shaped;
    for i := 0 to |ts|
      invariant h.Valid() && FreedFields(ts[i..], fs[i..]).Some?
      invariant h.live == FreedFields(ts[i..], fs[i..]).value + rest
    {
      assert ts[i..][1..] == ts[i + 1..];
      assert fs[i..][1..] == fs[i + 1..];
      ghost var later := FreedFields(ts[i + 1..], fs[i + 1..]).value;
      Assoc(FreedField(ts[i], fs[i]).value, later, rest);
      FreeField(h, ts[i], fs[i], later + rest);
    }
  }

  method FreeField(h: Heap, t: PlcType, f: MValue, ghost rest: multiset<Block>)
    requires Shaped(t, f) && FreedField(t, f).Some?
    requires h.Valid() && h.live == FreedField(t, f).value + rest
    modifies h`live
    ensures h.Valid() && h.live == rest
    decreases f, 2
  {
    hide Heap.Valid, FreedArray;
    if !f.NullObject? {
      if t.tag == PLC_DATA_ARRAY {
        FreeArray(h, t, f, rest);
      } else if f.MUdt? {
        FreeBlock(h, f.self, rest);
      } else {
        FreeBlock(h, f.block, rest);
      }
    }
  }

  /** The release of one argument or cell in free_callreq and free_result. */
  method FreeValue(h: Heap, t: PlcType, v: MValue, ghost rest: multiset<Block>)
    requires Shaped(t, v) && TidyMemory(v)
    requires h.Valid() && h.live == Blocks(v) + rest
    modifies h`live
    ensures h.Valid() && h.live == rest
  {
    hide Heap.Valid, FreedRow, FreedArray;
    ValueReleased(t, v);
    if !IsNull(v) {
      if t.tag == PLC_DATA_UDT {
        FreeRow(h, t, v, rest);
      } else if t.tag == PLC_DATA_ARRAY {
        FreeArray(h, t, v, rest);
      } else {
        FreeBlock(h, v.block, rest);
      }
    }
  }

  // ---------------------------------------------------------------------
  // Receiving
  // ---------------------------------------------------------------------

  method AllocString(h: Heap, s: CString) returns (b: Option<Block>)
    requires h.Valid()
    modifies h
    ensures h.Valid() && h.live == Opt(b) + old(h.live) && (b.Some? <==> s.Some?)
    ensures h.next == old(h.next) + One(s.Some?)
  {
    hide Heap.Valid;
    if s.None? {
      return None;
    }
    var p := h.Alloc();
    return Some(p);
  }

  lemma Rearranged(a: multiset<Block>, b: multiset<Block>, c: multiset<Block>, live: multiset<Block>)
    ensures a + (b + (c + live)) == (c + a + b) + live
    ensures a + (b + (c + live)) == (a + (b + c)) + live
  {
  }

  /** The allocations of receive_type. */
  method AllocType(h: Heap, t: PlcType) returns (m: MType)
    requires h.Valid()
    modifies h
    ensures h.Valid() && h.live == TypeBlocks(m) + old(h.live) && SubsBlocked(m)
    ensures TypeMemory(m, t) && h.next == old(h.next) + TypeCount(t)
    decreases t, 1
  {
    hide Heap.Valid, TypesBlocks, Opt;
    var name := AllocString(h, t.typeName);
    if t.subTypes == [] {
      m := MType(t.tag, name, None, []);
      NoSubs(m);
      return m;
    }
    var p := AllocBlock(h);
    var subs := AllocTypes(h, t.subTypes);
    Rearranged(TypesBlocks(subs), Opt(Some(p)), Opt(name), old(h.live));
    return MType(t.tag, name, Some(p), subs);
  }

  lemma NoSubs(m: MType)
    requires m.subsBlock.None? && m.subs == []
    ensures TypeBlocks(m) == Opt(m.name)
  {
  }

  method AllocBlock(h: Heap) returns (p: Block)
    requires h.Valid()
    modifies h
    ensures h.Valid() && h.live == Opt(Some(p)) + old(h.live) && h.next == old(h.next) + 1
  {
    p := h.Alloc();
  }

  /** The subtype loop of receive_type. */
  method AllocTypes(h: Heap, ts: seq<PlcType>) returns (ms: seq<MType>)
    requires h.Valid()
    modifies h
    ensures h.Valid() && h.live == TypesBlocks(ms) + old(h.live)
    ensures |ms| == |ts| && forall k | 0 <= k < |ms| :: SubsBlocked(ms[k]) && TypeMemory(ms[k], ts[k])
    ensures h.next == old(h.next) + TypesCount(ts)
    decreases ts, 0
  {
    hide Heap.Valid, TypeBlocks, SubsBlocked, TypeMemory, TypeCount;
    ms := [];
    for i := 0 to |ts|
      invariant h.Valid() && h.live == TypesBlocks(ms) + old(h.live)
      invariant |ms| == i && forall k | 0 <= k < i :: SubsBlocked(ms[k]) && TypeMemory(ms[k], ts[k])
      invariant h.next + TypesCount(ts[i..]) == old(h.next) + TypesCount(ts)
    {
      assert ts[i..][1..] == ts[i + 1..];
      var m := AllocType(h, ts[i]);
      TypesSnoc(ms, m);
      Swapped(TypesBlocks(ms), TypeBlocks(m), old(h.live));
      ms := ms + [m];
    }
  }

  lemma Swapped(a: multiset<Block>, b: multiset<Block>, live: multiset<Block>)
    ensures (a + b) + live == b + (a + live)
  {
  }

  lemma {:induction false} TypesSnoc(ts: seq<MType>, t: MType)
    ensures TypesBlocks(ts + [t]) == TypesBlocks(ts) + TypeBlocks(t)
  {
    hide TypeBlocks;
    if ts == [] {
      assert [] + [t] == [t];
    } else {
      assert (ts + [t])[1..] == ts[1..] + [t];
      TypesSnoc(ts[1..], t);
    }
  }

  lemma {:induction false} AllSnoc(vs: seq<MValue>, v: MValue)
    ensures AllBlocks(vs + [v]) == AllBlocks(vs) + Blocks(v)
  {
    hide Blocks;
    if vs == [] {
      assert [] + [v] == [v];
    } else {
      assert (vs + [v])[1..] == vs[1..] + [v];
      AllSnoc(vs[1..], v);
    }
  }

  /** The memory `m` holds the value `v` of type `t`. */
  predicate Mirrors(t: PlcType, m: MValue, v: Value) {
    && Shaped(t, m) && (TidyMemory(m) <==> Tidy(v))
    && (m.MUdt? <==> v.Udt?) && (m.NullPointer? <==> v == Text(None)) && ValueMemory(m, v)
  }

  /** The allocations of receive_raw_object. */
  method AllocRaw(h: Heap, t: PlcType, v: Value) returns (m: MValue)
    requires h.Valid() && Matches(t, v) && Flat(t, v)
    modifies h
    ensures h.Valid() && h.live == Blocks(m) + old(h.live)
    ensures Mirrors(t, m, v) && h.next == old(h.next) + ValueCount(v)
    decreases v, 2
  {
    hide Heap.Valid, SlotsCount, ValuesCount;
    if v.Null? {
      return NullObject;
    } else if v == Text(None) {
      return NullPointer;
    } else if v.Array? {
      m := AllocArray(h, t, v);
    } else if v.Udt? {
      m := AllocUdt(h, t, v.fields);
    } else {
      var b := h.Alloc();
      return Cell(b);
    }
  }

  /** The allocations of receive_array. */
  method AllocArray(h: Heap, t: PlcType, v: Value) returns (m: MValue)
    requires h.Valid() && v.Array? && Matches(t, v) && Flat(t, v)
    modifies h
    ensures h.Valid() && h.live == Blocks(m) + old(h.live)
    ensures m.MArray? && Shaped(t, m) && (TidyMemory(m) <==> Tidy(v))
    ensures ValueMemory(m, v) && h.next == old(h.next) + ValueCount(v)
    decreases v, 1
  {
    hide Heap.Valid, Blocks, Matches, Flat, TidyMemory, Shaped, Tidy, SlotsCount;
    ArrayParts(t, v);
    var e := t.subTypes[0];
    var self, meta, dims := AllocHeader(h, v.ndims);
    ghost var frame := MArray(self, meta, dims, e.tag, None, []);
    ghost var l1 := h.live;
    if v.elems == [] {
      EmptyArray(t, frame, v);
      return MArray(self, meta, dims, e.tag, None, []);
    }
    var nulls := h.Alloc();
    var data := h.Alloc();
    var slots := AllocSlots(h, e, v.elems);
    m := MArray(self, meta, dims, e.tag, Some((data, nulls)), slots);
    FullArray(t, m, v, old(h.live));
  }

  lemma ArrayParts(t: PlcType, v: Value)
    requires v.Array? && Matches(t, v) && Flat(t, v)
    ensures t.subTypes != [] && (v.elems != [] ==> IsElement(t.subTypes[0].tag))
    ensures forall i | 0 <= i < |v.elems| :: Matches(t.subTypes[0], v.elems[i]) && Flat(t.subTypes[0], v.elems[i])
  {
  }

  /** plc_alloc_array */
  method AllocHeader(h: Heap, ndims: int) returns (self: Block, meta: Block, dims: Option<Block>)
    requires h.Valid()
    modifies h
    ensures h.Valid()
    ensures h.live == Opt(dims) + (multiset{meta} + (multiset{self} + old(h.live)))
    ensures (dims.Some? <==> ndims > 0) && h.next == old(h.next) + 2 + One(ndims > 0)
  {
    hide Heap.Valid;
    self := h.Alloc();
    meta := h.Alloc();
    dims := None;
    if ndims > 0 {
      var d := h.Alloc();
      dims := Some(d);
    }
  }

  lemma EmptyArray(t: PlcType, m: MValue, v: Value)
    requires v.Array? && v.elems == [] && Matches(t, v)
    requires m.MArray? && m.elemTag == t.subTypes[0].tag && m.storage.None? && m.slots == []
    ensures Shaped(t, m) && TidyMemory(m) && Tidy(v)
    ensures forall live: multiset<Block> ::
      Blocks(m) + live == Opt(m.dims) + (multiset{m.meta} + (multiset{m.self} + live))
  {
  }

  lemma FullArray(t: PlcType, m: MValue, v: Value, live: multiset<Block>)
    requires v.Array? && Matches(t, v) && IsElement(t.subTypes[0].tag)
    requires m.MArray? && m.elemTag == t.subTypes[0].tag && m.storage.Some? && |m.slots| == |v.elems| > 0
    requires forall i | 0 <= i < |m.slots| :: Shaped(t.subTypes[0], m.slots[i]) && (IsScalar(m.elemTag) ==> IsNull(m.slots[i]))
    requires forall i | 0 <= i < |m.slots| :: TidyMemory(m.slots[i]) <==> Tidy(v.elems[i])
    ensures Shaped(t, m) && (TidyMemory(m) <==> Tidy(v))
    ensures Blocks(m) + live ==
      AllBlocks(m.slots) + (multiset{m.storage.value.0} + (multiset{m.storage.value.1}
        + (Opt(m.dims) + (multiset{m.meta} + (multiset{m.self} + live)))))
  {
    hide AllBlocks, Opt;
  }

  /** The element loop of receive_array: scalars live in the slot itself. */
  method AllocSlots(h: Heap, e: PlcType, vs: seq<Value>) returns (slots: seq<MValue>)
    requires h.Valid() && IsElement(e.tag)
    requires forall i | 0 <= i < |vs| :: Matches(e, vs[i]) && Flat(e, vs[i])
    modifies h
    ensures h.Valid() && h.live == AllBlocks(slots) + old(h.live) && |slots| == |vs|
    ensures forall i | 0 <= i < |vs| :: Shaped(e, slots[i]) && (IsScalar(e.tag) ==> IsNull(slots[i]))
    ensures forall i | 0 <= i < |vs| :: TidyMemory(slots[i]) <==> Tidy(vs[i])
    ensures forall i | 0 <= i < |vs| :: SlotMemory(slots[i], vs[i])
    ensures h.next == old(h.next) + SlotsCount(vs)
    decreases vs, 0
  {
    hide Heap.Valid, Matches, Flat, Blocks, Shaped, TidyMemory, Tidy, SlotMemory, ValueCount;
    slots := [];
    for i := 0 to |vs|
      invariant h.Valid() && h.live == AllBlocks(slots) + old(h.live) && |slots| == i
      invariant forall k | 0 <= k < i :: Shaped(e, slots[k]) && (IsScalar(e.tag) ==> IsNull(slots[k]))
      invariant forall k | 0 <= k < i :: TidyMemory(slots[k]) <==> Tidy(vs[k])
      invariant forall k | 0 <= k < i :: SlotMemory(slots[k], vs[k])
      invariant h.next + SlotsCount(vs[i..]) == old(h.next) + SlotsCount(vs)
    {
      assert vs[i..][1..] == vs[i + 1..];
      ghost var before := h.live;
      var slot := NullObject;
      ScalarsAreScalar(e, vs[i]);
      if !IsScalar(e.tag) {
        slot := AllocRaw(h, e, vs[i]);
      } else {
        ScalarIsTidy(e, vs[i], before);
      }
      SlotIsMemory(slot, vs[i]);
      AllSnoc(slots, slot);
      Swapped(AllBlocks(slots), Blocks(slot), old(h.live));
      slots := slots + [slot];
    }
  }

  predicate SlotMemory(m: MValue, v: Value) { if v.Scalar? then m.NullObject? else ValueMemory(m, v) }

  lemma SlotIsMemory(m: MValue, v: Value)
    requires if v.Scalar? then m.NullObject? else ValueMemory(m, v)
    ensures SlotMemory(m, v)
  {
  }

  /** In an array of scalars an element is a scalar or null, in any other it is no scalar. */
  lemma ScalarsAreScalar(e: PlcType, v: Value)
    requires Matches(e, v)
    ensures v.Scalar? ==> IsScalar(e.tag)
    ensures IsScalar(e.tag) && !v.Scalar? ==> v.Null? && ValueCount(v) == 0 && ValueMemory(NullObject, v)
  {
  }

  lemma ScalarIsTidy(e: PlcType, v: Value, live: multiset<Block>)
    requires IsScalar(e.tag) && Matches(e, v)
    ensures Tidy(v) && TidyMemory(NullObject) && Shaped(e, NullObject) && live == Blocks(NullObject) + live
  {
  }

  /** The allocations of receive_udt. */
  method AllocUdt(h: Heap, t: PlcType, vs: seq<Value>) returns (m: MValue)
    requires h.Valid() && Matches(t, Udt(vs)) && Flat(t, Udt(vs))
    modifies h
    ensures h.Valid() && h.live == Blocks(m) + old(h.live)
    ensures m.MUdt? && Shaped(t, m) && (TidyMemory(m) <==> Tidy(Udt(vs)))
    ensures ValueMemory(m, Udt(vs)) && h.next == old(h.next) + 2 + ValuesCount(vs)
    decreases vs, 1
  {
    hide Heap.Valid, AllBlocks, ValuesCount;
    var self := h.Alloc();
    var data := h.Alloc();
    var fields := AllocFields(h, t.subTypes, vs);
    Rearranged(AllBlocks(fields), multiset{data}, multiset{self}, old(h.live));
    return MUdt(self, data, fields);
  }

  /** The field loop of receive_udt. */
  method AllocFields(h: Heap, ts: seq<PlcType>, vs: seq<Value>) returns (fields: seq<MValue>)
    requires h.Valid() && |ts| == |vs|
    requires forall i | 0 <= i < |vs| :: Matches(ts[i], vs[i]) && Flat(ts[i], vs[i])
    modifies h
    ensures h.Valid() && h.live == AllBlocks(fields) + old(h.live) && |fields| == |vs|
    ensures forall i | 0 <= i < |vs| :: Mirrors(ts[i], fields[i], vs[i])
    ensures h.next == old(h.next) + ValuesCount(vs)
    decreases vs, 0
  {
    hide Heap.Valid, Matches, Flat, Blocks, Mirrors, ValueCount;
    fields := [];
    for i := 0 to |vs|
      invariant h.Valid() && h.live == AllBlocks(fields) + old(h.live) && |fields| == i
      invariant forall k | 0 <= k < i :: Mirrors(ts[k], fields[k], vs[k])
      invariant h.next + ValuesCount(vs[i..]) == old(h.next) + ValuesCount(vs)
    {
      assert vs[i..][1..] == vs[i + 1..];
      var field := AllocRaw(h, ts[i], vs[i]);
      AllSnoc(fields, field);
      Swapped(AllBlocks(fields), Blocks(field), old(h.live));
      fields := fields + [field];
    }
  }
}
