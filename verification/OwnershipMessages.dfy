/** Whole messages: what a receive allocates the matching free releases. */
module OwnershipMessages {
  import opened Primitives
  import opened Wire
  import opened Ownership
  import opened OwnershipRuns

  // ---------------------------------------------------------------------
  // Call requests
  // ---------------------------------------------------------------------

  datatype MArgument = MArgument(name: Option<Block>, typ: PlcType, mtype: MType, value: MValue)

  datatype MCall = MCall(self: Block, name: Option<Block>, src: Option<Block>, argsBlock: Block,
                         args: seq<MArgument>, retType: MType)

  function ArgumentBlocks(a: MArgument): multiset<Block> {
    Opt(a.name) + (Blocks(a.value) + TypeBlocks(a.mtype))
  }

  function ArgumentsBlocks(args: seq<MArgument>): multiset<Block> {
    if args == [] then multiset{} else ArgumentBlocks(args[0]) + ArgumentsBlocks(args[1..])
  }

  function CallBlocks(c: MCall): multiset<Block> {
    Opt(c.name) + (Opt(c.src) + (ArgumentsBlocks(c.args) + (Opt(Some(c.argsBlock)) + (TypeBlocks(c.retType) + Opt(Some(c.self))))))
  }

  predicate CleanArgument(a: MArgument) {
    SubsBlocked(a.mtype) && Shaped(a.typ, a.value) && TidyMemory(a.value)
  }

  method FreeArgument(h: Heap, a: MArgument, ghost rest: multiset<Block>)
    requires CleanArgument(a) && h.Valid() && h.live == ArgumentBlocks(a) + rest
    modifies h`live
    ensures h.Valid() && h.live == rest
  {
    hide Heap.Valid, Opt, Blocks, TypeBlocks, Shaped, TidyMemory;
    Assoc(Opt(a.name), Blocks(a.value) + TypeBlocks(a.mtype), rest);
    Assoc(Blocks(a.value), TypeBlocks(a.mtype), rest);
    FreeOpt(h, a.name, Blocks(a.value) + (TypeBlocks(a.mtype) + rest));
    FreeValue(h, a.typ, a.value, TypeBlocks(a.mtype) + rest);
    FreeType(h, a.mtype, rest);
  }

  /** The argument loop of free_callreq. */
  method FreeArguments(h: Heap, args: seq<MArgument>, ghost rest: multiset<Block>)
    requires forall i | 0 <= i < |args| :: CleanArgument(args[i])
    requires h.Valid() && h.live == ArgumentsBlocks(args) + rest
    modifies h`live
    ensures h.Valid() && h.live == rest
  {
    hide Heap.Valid, ArgumentBlocks, CleanArgument;
    for i := 0 to |args|
      invariant h.Valid() && h.live == ArgumentsBlocks(args[i..]) + rest
    {
      assert args[i..][1..] == args[i + 1..];
      Assoc(ArgumentBlocks(args[i]), ArgumentsBlocks(args[i + 1..]), rest);
      FreeArgument(h, args[i], ArgumentsBlocks(args[i + 1..]) + rest);
    }
  }

  /** free_callreq(req, false, false); the name and the source are freed unseen. */
  method FreeCallreq(h: Heap, c: MCall, ghost rest: multiset<Block>)
    requires c.name.Some? && c.src.Some? && SubsBlocked(c.retType)
    requires forall i | 0 <= i < |c.args| :: CleanArgument(c.args[i])
    requires h.Valid() && h.live == CallBlocks(c) + rest
    modifies h`live
    ensures h.Valid() && h.live == rest
  {
    hide Heap.Valid, Opt, ArgumentsBlocks, TypeBlocks, CleanArgument, SubsBlocked;
    ghost var r4 := Opt(Some(c.self)) + rest;
    ghost var r3 := TypeBlocks(c.retType) + r4;
    ghost var r2 := Opt(Some(c.argsBlock)) + r3;
    ghost var r1 := ArgumentsBlocks(c.args) + r2;
    CallFrame(c, rest);
    FreeOpt(h, c.name, Opt(c.src) + r1);
    FreeOpt(h, c.src, r1);
    FreeArguments(h, c.args, r2);
    FreeOpt(h, Some(c.argsBlock), r3);
    FreeType(h, c.retType, r4);
    FreeOpt(h, Some(c.self), rest);
  }

  lemma CallFrame(c: MCall, rest: multiset<Block>)
    ensures CallBlocks(c) + rest ==
      Opt(c.name) + (Opt(c.src) + (ArgumentsBlocks(c.args) + (Opt(Some(c.argsBlock)) + (TypeBlocks(c.retType) + (Opt(Some(c.self)) + rest)))))
  {
    hide Opt, ArgumentsBlocks, TypeBlocks;
  }

  /** The order in which receive_call allocates. */
  lemma CallAllocated(c: MCall, rest: multiset<Block>)
    ensures CallBlocks(c) + rest ==
      ArgumentsBlocks(c.args) + (Opt(Some(c.argsBlock)) + (TypeBlocks(c.retType) + (Opt(c.src) + (Opt(c.name) + (Opt(Some(c.self)) + rest)))))
  {
    hide Opt, ArgumentsBlocks, TypeBlocks;
  }

  /** The memory of an argument, and how many blocks receiving it allocates. */
  predicate ArgumentMemory(m: MArgument, a: Argument) {
    && (m.name.Some? <==> a.name.Some?) && m.typ == a.typ
    && TypeMemory(m.mtype, a.typ) && ValueMemory(m.value, a.data)
  }

  function ArgumentCount(a: Argument): nat { One(a.name.Some?) + TypeCount(a.typ) + ValueCount(a.data) }

  function ArgumentsCount(args: seq<Argument>): nat {
    if args == [] then 0 else ArgumentCount(args[0]) + ArgumentsCount(args[1..])
  }

  predicate CallMemory(c: MCall, m: Message)
    requires m.Call?
  {
    && (c.name.Some? <==> m.name.Some?) && (c.src.Some? <==> m.src.Some?) && TypeMemory(c.retType, m.retType)
    && |c.args| == |m.args| && (forall i | 0 <= i < |m.args| :: ArgumentMemory(c.args[i], m.args[i]))
  }

  /** The request and its argument array, besides what the message holds. */
  function CallCount(m: Message): nat
    requires m.Call?
  {
    2 + One(m.name.Some?) + One(m.src.Some?) + TypeCount(m.retType) + ArgumentsCount(m.args)
  }

  method AllocArgument(h: Heap, a: Argument) returns (m: MArgument)
    requires h.Valid() && GoodArgument(a) && FlatArgument(a)
    modifies h
    ensures h.Valid() && h.live == ArgumentBlocks(m) + old(h.live)
    ensures Tidy(a.data) ==> CleanArgument(m)
    ensures ArgumentMemory(m, a) && h.next == old(h.next) + ArgumentCount(a)
  {
    hide Heap.Valid, Opt, TypeMemory, ValueMemory, TypeCount, ValueCount, Blocks, TypeBlocks, Shaped, TidyMemory, Tidy, Matches, Flat, GoodType;
    ghost var l0 := h.live;
    var name := AllocString(h, a.name);
    var mtype := AllocType(h, a.typ);
    var value := AllocRaw(h, a.typ, a.data);
    m := MArgument(name, a.typ, mtype, value);
    Rearranged(Blocks(value), TypeBlocks(mtype), Opt(name), l0);
    Assoc(Opt(name), Blocks(value), TypeBlocks(mtype));
  }

  method AllocArguments(h: Heap, args: seq<Argument>) returns (ms: seq<MArgument>)
    requires h.Valid() && forall i | 0 <= i < |args| :: GoodArgument(args[i]) && FlatArgument(args[i])
    modifies h
    ensures h.Valid() && h.live == ArgumentsBlocks(ms) + old(h.live) && |ms| == |args|
    ensures forall i | 0 <= i < |args| :: Tidy(args[i].data) ==> CleanArgument(ms[i])
    ensures forall i | 0 <= i < |args| :: ArgumentMemory(ms[i], args[i])
    ensures h.next == old(h.next) + ArgumentsCount(args)
  {
    hide Heap.Valid, ArgumentMemory, ArgumentCount, ArgumentBlocks, CleanArgument, Tidy, FlatArgument, GoodArgument;
    ms := [];
    for i := 0 to |args|
      invariant h.Valid() && h.live == ArgumentsBlocks(ms) + old(h.live) && |ms| == i
      invariant forall k | 0 <= k < i :: Tidy(args[k].data) ==> CleanArgument(ms[k])
      invariant forall k | 0 <= k < i :: ArgumentMemory(ms[k], args[k])
      invariant h.next + ArgumentsCount(args[i..]) == old(h.next) + ArgumentsCount(args)
    {
      assert args[i..][1..] == args[i + 1..];
      var m := AllocArgument(h, args[i]);
      ArgumentsSnoc(ms, m);
      Swapped(ArgumentsBlocks(ms), ArgumentBlocks(m), old(h.live));
      ms := ms + [m];
    }
  }

  lemma {:induction false} ArgumentsSnoc(ms: seq<MArgument>, m: MArgument)
    ensures ArgumentsBlocks(ms + [m]) == ArgumentsBlocks(ms) + ArgumentBlocks(m)
  {
    hide ArgumentBlocks;
    if ms == [] {
      assert [] + [m] == [m];
    } else {
      assert (ms + [m])[1..] == ms[1..] + [m];
      ArgumentsSnoc(ms[1..], m);
    }
  }

  /** The allocations of receive_call. */
  method AllocCall(h: Heap, m: Message) returns (c: MCall)
    requires h.Valid() && m.Call? && GoodMsg(m) && Deliverable(m)
    modifies h
    ensures h.Valid() && h.live == CallBlocks(c) + old(h.live) && SubsBlocked(c.retType)
    ensures CallMemory(c, m) && h.next == old(h.next) + CallCount(m)
    ensures forall i | 0 <= i < |m.args| :: Tidy(m.args[i].data) ==> CleanArgument(c.args[i])
  {
    hide Heap.Valid, Opt, ArgumentsBlocks, TypeBlocks, CleanArgument, SubsBlocked, ArgumentMemory, TypeMemory, TypeCount, ArgumentsCount;
    hide Tidy, GoodArgument, FlatArgument, GoodType;
    ghost var l0 := h.live;
    var self := AllocBlock(h);
    var name := AllocString(h, m.name);
    var src := AllocString(h, m.src);
    var ret := AllocType(h, m.retType);
    var argsBlock := AllocBlock(h);
    var args := AllocArguments(h, m.args);
    c := MCall(self, name, src, argsBlock, args, ret);
    CallAllocated(c, l0);
  }

  /**
    A received call request and its free balance: with a name, a source, and tidy
    arguments every block the message takes is allocated, and released, once.
  */
  method ReceiveAndFreeCall(h: Heap, m: Message)
    requires h.Valid() && m.Call? && GoodMsg(m) && Deliverable(m)
    requires m.name.Some? && m.src.Some? && forall i | 0 <= i < |m.args| :: Tidy(m.args[i].data)
    modifies h
    ensures h.Valid() && h.live == old(h.live) && h.next == old(h.next) + CallCount(m)
  {
    hide CallCount;
    var c := AllocCall(h, m);
    FreeCallreq(h, c, old(h.live));
  }

  // ---------------------------------------------------------------------
  // Results
  // ---------------------------------------------------------------------

  /** A row of cells; without columns there is no block for it. */
  datatype MRow = MRow(block: Option<Block>, cells: seq<MValue>)

  datatype MResult = MResult(self: Block, data: Option<Block>, rows: seq<MRow>, typesBlock: Block,
                             namesBlock: Block, names: seq<Option<Block>>, types: seq<MType>)

  function RowsBlocks(rows: seq<MRow>): multiset<Block> {
    if rows == [] then multiset{} else (AllBlocks(rows[0].cells) + Opt(rows[0].block)) + RowsBlocks(rows[1..])
  }

  function ColumnsBlocks(names: seq<Option<Block>>, types: seq<MType>): multiset<Block>
    requires |names| == |types|
  {
    if names == [] then multiset{} else (Opt(names[0]) + TypeBlocks(types[0])) + ColumnsBlocks(names[1..], types[1..])
  }

  function ResultBlocks(r: MResult): multiset<Block>
    requires |r.names| == |r.types|
  {
    RowsBlocks(r.rows) + (Opt(r.data) + (ColumnsBlocks(r.names, r.types)
      + (Opt(Some(r.typesBlock)) + (Opt(Some(r.namesBlock)) + Opt(Some(r.self))))))
  }

  predicate CleanRow(ts: seq<PlcType>, row: MRow) {
    && |row.cells| == |ts| && (row.block.None? ==> ts == [])
    && (forall j | 0 <= j < |ts| :: Shaped(ts[j], row.cells[j]) && TidyMemory(row.cells[j]))
  }

  method FreeRowOfCells(h: Heap, ts: seq<PlcType>, row: MRow, ghost rest: multiset<Block>)
    requires CleanRow(ts, row) && h.Valid() && h.live == (AllBlocks(row.cells) + Opt(row.block)) + rest
    modifies h`live
    ensures h.Valid() && h.live == rest
  {
    hide Heap.Valid, Blocks, Shaped, TidyMemory, Opt;
    ghost var own := Opt(row.block) + rest;
    Assoc(AllBlocks(row.cells), Opt(row.block), rest);
    if row.block.Some? {
      for j := 0 to |ts|
        invariant h.Valid() && h.live == AllBlocks(row.cells[j..]) + own
      {
        assert row.cells[j..][1..] == row.cells[j + 1..];
        Assoc(Blocks(row.cells[j]), AllBlocks(row.cells[j + 1..]), own);
        FreeValue(h, ts[j], row.cells[j], AllBlocks(row.cells[j + 1..]) + own);
      }
      FreeOpt(h, row.block, rest);
    } else {
      NoRow(row, rest);
    }
  }

  lemma NoRow(row: MRow, rest: multiset<Block>)
    requires row.block.None? && row.cells == []
    ensures (AllBlocks(row.cells) + Opt(row.block)) + rest == rest
  {
  }

  method FreeRowsOfCells(h: Heap, ts: seq<PlcType>, rows: seq<MRow>, ghost rest: multiset<Block>)
    requires forall i | 0 <= i < |rows| :: CleanRow(ts, rows[i])
    requires h.Valid() && h.live == RowsBlocks(rows) + rest
    modifies h`live
    ensures h.Valid() && h.live == rest
  {
    hide Heap.Valid, AllBlocks, Opt, CleanRow;
    for i := 0 to |rows|
      invariant h.Valid() && h.live == RowsBlocks(rows[i..]) + rest
    {
      assert rows[i..][1..] == rows[i + 1..];
      Assoc(AllBlocks(rows[i].cells) + Opt(rows[i].block), RowsBlocks(rows[i + 1..]), rest);
      FreeRowOfCells(h, ts, rows[i], RowsBlocks(rows[i + 1..]) + rest);
    }
  }

  method FreeColumns(h: Heap, names: seq<Option<Block>>, types: seq<MType>, ghost rest: multiset<Block>)
    requires |names| == |types| && forall i | 0 <= i < |types| :: SubsBlocked(types[i])
    requires h.Valid() && h.live == ColumnsBlocks(names, types) + rest
    modifies h`live
    ensures h.Valid() && h.live == rest
  {
    hide Heap.Valid, Opt, TypeBlocks, SubsBlocked;
    for i := 0 to |names|
      invariant h.Valid() && h.live == ColumnsBlocks(names[i..], types[i..]) + rest
    {
      assert names[i..][1..] == names[i + 1..];
      assert types[i..][1..] == types[i + 1..];
      ghost var later := ColumnsBlocks(names[i + 1..], types[i + 1..]) + rest;
      Assoc(Opt(names[i]) + TypeBlocks(types[i]), ColumnsBlocks(names[i + 1..], types[i + 1..]), rest);
      Assoc(Opt(names[i]), TypeBlocks(types[i]), later);
      FreeOpt(h, names[i], TypeBlocks(types[i]) + later);
      FreeType(h, types[i], later);
    }
  }

  predicate CleanResult(ts: seq<PlcType>, r: MResult) {
    && |r.names| == |r.types| && (forall i | 0 <= i < |r.types| :: SubsBlocked(r.types[i]))
    && (r.data.None? ==> r.rows == [])
    && (forall i | 0 <= i < |r.rows| :: CleanRow(ts, r.rows[i]))
  }

  /** free_result(res, false) */
  method FreeResult(h: Heap, ts: seq<PlcType>, r: MResult, ghost rest: multiset<Block>)
    requires CleanResult(ts, r) && h.Valid() && h.live == ResultBlocks(r) + rest
    modifies h`live
    ensures h.Valid() && h.live == rest
  {
    hide Heap.Valid, Opt, RowsBlocks, ColumnsBlocks, CleanRow, SubsBlocked;
    ghost var r5 := Opt(Some(r.self)) + rest;
    ghost var r4 := Opt(Some(r.namesBlock)) + r5;
    ghost var r3 := Opt(Some(r.typesBlock)) + r4;
    ghost var r2 := ColumnsBlocks(r.names, r.types) + r3;
    ResultFrame(r, rest);
    if r.data.Some? {
      FreeRowsOfCells(h, ts, r.rows, Opt(r.data) + r2);
      FreeOpt(h, r.data, r2);
    } else {
      NoData(r, r2);
    }
    FreeColumns(h, r.names, r.types, r3);
    FreeOpt(h, Some(r.typesBlock), r4);
    FreeOpt(h, Some(r.namesBlock), r5);
    FreeOpt(h, Some(r.self), rest);
  }

  lemma NoData(r: MResult, rest: multiset<Block>)
    requires r.data.None? && r.rows == []
    ensures RowsBlocks(r.rows) + (Opt(r.data) + rest) == rest
  {
  }

  lemma ResultFrame(r: MResult, rest: multiset<Block>)
    requires |r.names| == |r.types|
    ensures ResultBlocks(r) + rest ==
      RowsBlocks(r.rows) + (Opt(r.data) + (ColumnsBlocks(r.names, r.types)
        + (Opt(Some(r.typesBlock)) + (Opt(Some(r.namesBlock)) + (Opt(Some(r.self)) + rest)))))
  {
    hide Opt, RowsBlocks, ColumnsBlocks;
  }

  /** The order in which receive_result allocates. */
  lemma ResultAllocated(r: MResult, rest: multiset<Block>)
    requires |r.names| == |r.types|
    ensures ResultBlocks(r) + rest ==
      RowsBlocks(r.rows) + (ColumnsBlocks(r.names, r.types) + (Opt(Some(r.namesBlock))
        + (Opt(Some(r.typesBlock)) + (Opt(r.data) + (Opt(Some(r.self)) + rest)))))
  {
    hide Opt, RowsBlocks, ColumnsBlocks;
  }

  function ColumnsCount(types: seq<PlcType>, names: seq<CString>): nat
    requires |types| == |names|
  {
    if types == [] then 0 else TypeCount(types[0]) + One(names[0].Some?) + ColumnsCount(types[1..], names[1..])
  }

  /** A row takes a block for its cells if it has any. */
  predicate RowMemory(row: MRow, vs: seq<Value>) {
    && (row.block.Some? <==> vs != []) && |row.cells| == |vs|
    && (forall j | 0 <= j < |vs| :: ValueMemory(row.cells[j], vs[j]))
  }

  function RowCount(vs: seq<Value>): nat { One(vs != []) + ValuesCount(vs) }

  function RowsCount(data: seq<seq<Value>>): nat {
    if data == [] then 0 else RowCount(data[0]) + RowsCount(data[1..])
  }

  predicate ColumnMemory(b: Option<Block>, m: MType, name: CString, t: PlcType) {
    (b.Some? <==> name.Some?) && TypeMemory(m, t)
  }

  /** The memory of a result, and how many blocks receiving it allocates. */
  predicate ResultMemory(r: MResult, m: Message)
    requires m.Result? && Tabular(m)
  {
    && (r.data.Some? <==> m.rows > 0)
    && |r.names| == |r.types| == |m.types| && |r.rows| == |m.data|
    && (forall i | 0 <= i < |m.types| :: ColumnMemory(r.names[i], r.types[i], m.names[i], m.types[i]))
    && (forall i | 0 <= i < |m.data| :: RowMemory(r.rows[i], m.data[i]))
  }

  function ResultCount(m: Message): nat
    requires m.Result? && Tabular(m)
  {
    3 + One(m.rows > 0) + ColumnsCount(m.types, m.names) + RowsCount(m.data)
  }

  method AllocColumn(h: Heap, t: PlcType, name: CString) returns (b: Option<Block>, m: MType)
    requires h.Valid()
    modifies h
    ensures h.Valid() && h.live == (Opt(b) + TypeBlocks(m)) + old(h.live)
    ensures SubsBlocked(m) && ColumnMemory(b, m, name, t)
    ensures h.next == old(h.next) + TypeCount(t) + One(name.Some?)
  {
    hide Heap.Valid, Opt, TypeBlocks, SubsBlocked, TypeMemory, TypeCount, One;
    ghost var l0 := h.live;
    m := AllocType(h, t);
    b := AllocString(h, name);
    Assoc(Opt(b), TypeBlocks(m), l0);
  }

  method AllocColumns(h: Heap, types: seq<PlcType>, names: seq<CString>)
    returns (bs: seq<Option<Block>>, ms: seq<MType>)
    requires h.Valid() && |types| == |names|
    modifies h
    ensures |bs| == |ms| == |types| && forall i | 0 <= i < |ms| :: SubsBlocked(ms[i])
    ensures h.Valid() && h.live == ColumnsBlocks(bs, ms) + old(h.live)
    ensures forall i | 0 <= i < |ms| :: ColumnMemory(bs[i], ms[i], names[i], types[i])
    ensures h.next == old(h.next) + ColumnsCount(types, names)
  {
    hide Heap.Valid, Opt, TypeBlocks, SubsBlocked, ColumnMemory, TypeCount, One;
    bs, ms := [], [];
    for i := 0 to |types|
      invariant |bs| == |ms| == i && forall k | 0 <= k < i :: SubsBlocked(ms[k])
      invariant h.Valid() && h.live == ColumnsBlocks(bs, ms) + old(h.live)
      invariant forall k | 0 <= k < i :: ColumnMemory(bs[k], ms[k], names[k], types[k])
      invariant h.next + ColumnsCount(types[i..], names[i..]) == old(h.next) + ColumnsCount(types, names)
    {
      assert types[i..][1..] == types[i + 1..];
      assert names[i..][1..] == names[i + 1..];
      var b, m := AllocColumn(h, types[i], names[i]);
      ColumnsSnoc(bs, ms, b, m);
      Swapped(ColumnsBlocks(bs, ms), Opt(b) + TypeBlocks(m), old(h.live));
      bs, ms := bs + [b], ms + [m];
    }
  }

  lemma {:induction false} ColumnsSnoc(bs: seq<Option<Block>>, ms: seq<MType>, b: Option<Block>, m: MType)
    requires |bs| == |ms|
    ensures ColumnsBlocks(bs + [b], ms + [m]) == ColumnsBlocks(bs, ms) + (Opt(b) + TypeBlocks(m))
  {
    hide Opt, TypeBlocks;
    if bs == [] {
      assert [] + [b] == [b];
      assert [] + [m] == [m];
    } else {
      assert (bs + [b])[1..] == bs[1..] + [b];
      assert (ms + [m])[1..] == ms[1..] + [m];
      ColumnsSnoc(bs[1..], ms[1..], b, m);
    }
  }

  predicate TidyRow(row: seq<Value>) { forall j | 0 <= j < |row| :: Tidy(row[j]) }

  method AllocRow(h: Heap, ts: seq<PlcType>, vs: seq<Value>) returns (row: MRow)
    requires h.Valid() && |ts| == |vs|
    requires forall i | 0 <= i < |vs| :: Matches(ts[i], vs[i]) && Flat(ts[i], vs[i])
    modifies h
    ensures h.Valid() && h.live == (AllBlocks(row.cells) + Opt(row.block)) + old(h.live)
    ensures TidyRow(vs) ==> CleanRow(ts, row)
    ensures RowMemory(row, vs) && h.next == old(h.next) + RowCount(vs)
  {
    hide Heap.Valid, AllBlocks, ValueMemory, ValuesCount, Opt, Matches, Flat, Shaped, TidyMemory, Tidy;
    if |ts| > 0 {
      ghost var l0 := h.live;
      var b := AllocBlock(h);
      var cells := AllocFields(h, ts, vs);
      Assoc(AllBlocks(cells), Opt(Some(b)), l0);
      return MRow(Some(b), cells);
    }
    row := MRow(None, []);
    NoRow(row, h.live);
    NoValues();
  }

  lemma NoValues()
    ensures ValuesCount([]) == 0
  {
  }

  method AllocRows(h: Heap, ts: seq<PlcType>, data: seq<seq<Value>>) returns (rows: seq<MRow>)
    requires h.Valid() && forall i | 0 <= i < |data| :: |data[i]| == |ts|
    requires forall i, j | 0 <= i < |data| && 0 <= j < |ts| :: Matches(ts[j], data[i][j]) && Flat(ts[j], data[i][j])
    modifies h
    ensures h.Valid() && h.live == RowsBlocks(rows) + old(h.live) && |rows| == |data|
    ensures forall i | 0 <= i < |data| :: TidyRow(data[i]) ==> CleanRow(ts, rows[i])
    ensures forall i | 0 <= i < |data| :: RowMemory(rows[i], data[i])
    ensures h.next == old(h.next) + RowsCount(data)
  {
    hide Heap.Valid, AllBlocks, RowMemory, RowCount, Opt, Matches, Flat, CleanRow, TidyRow;
    rows := [];
    for i := 0 to |data|
      invariant h.Valid() && h.live == RowsBlocks(rows) + old(h.live) && |rows| == i
      invariant forall k | 0 <= k < i :: TidyRow(data[k]) ==> CleanRow(ts, rows[k])
      invariant forall k | 0 <= k < i :: RowMemory(rows[k], data[k])
      invariant h.next + RowsCount(data[i..]) == old(h.next) + RowsCount(data)
    {
      assert data[i..][1..] == data[i + 1..];
      var row := AllocRow(h, ts, data[i]);
      RowsSnoc(rows, row);
      Swapped(RowsBlocks(rows), AllBlocks(row.cells) + Opt(row.block), old(h.live));
      rows := rows + [row];
    }
  }

  lemma {:induction false} RowsSnoc(rows: seq<MRow>, row: MRow)
    ensures RowsBlocks(rows + [row]) == RowsBlocks(rows) + (AllBlocks(row.cells) + Opt(row.block))
  {
    hide Opt, AllBlocks;
    if rows == [] {
      assert [] + [row] == [row];
    } else {
      assert (rows + [row])[1..] == rows[1..] + [row];
      RowsSnoc(rows[1..], row);
    }
  }

  /** The blocks of a result that hold no values themselves. */
  method AllocResultFrame(h: Heap, rows: int)
    returns (self: Block, data: Option<Block>, typesBlock: Block, namesBlock: Block)
    requires h.Valid()
    modifies h
    ensures h.Valid() && (data.Some? <==> rows > 0) && h.next == old(h.next) + 3 + One(rows > 0)
    ensures h.live ==
      Opt(Some(namesBlock)) + (Opt(Some(typesBlock)) + (Opt(data) + (Opt(Some(self)) + old(h.live))))
  {
    hide Heap.Valid, Opt;
    self := AllocBlock(h);
    data := None;
    if rows > 0 {
      var d := AllocBlock(h);
      data := Some(d);
    } else {
      NoBlock(h.live);
    }
    typesBlock := AllocBlock(h);
    namesBlock := AllocBlock(h);
  }

  /** The allocations of receive_result up to the exception flag. */
  method AllocResult(h: Heap, m: Message) returns (r: MResult)
    requires h.Valid() && m.Result? && GoodMsg(m) && Deliverable(m)
    modifies h
    ensures |r.names| == |r.types|
    ensures h.Valid() && h.live == ResultBlocks(r) + old(h.live)
    ensures (forall i | 0 <= i < |m.data| :: TidyRow(m.data[i])) ==> CleanResult(m.types, r)
    ensures ResultMemory(r, m) && h.next == old(h.next) + ResultCount(m)
  {
    hide ColumnMemory, RowMemory, ColumnsCount, RowsCount;
    hide Heap.Valid, Opt, RowsBlocks, ColumnsBlocks, ResultBlocks, CleanRow, SubsBlocked, TidyRow, Matches, Flat, GoodType, ShortString;
    ghost var l0 := h.live;
    var self, data, typesBlock, namesBlock := AllocResultFrame(h, m.rows);
    var names, types := AllocColumns(h, m.types, m.names);
    var rows := AllocRows(h, m.types, m.data);
    r := MResult(self, data, rows, typesBlock, namesBlock, names, types);
    ResultAllocated(r, l0);
  }

  lemma NoBlock(live: multiset<Block>)
    ensures Opt(None) + live == live
  {
  }

  // ---------------------------------------------------------------------
  // The two ways a result is received
  // ---------------------------------------------------------------------

  datatype MError = MError(self: Block, message: Option<Block>, stacktrace: Option<Block>)

  function ErrorBlocks(e: MError): multiset<Block> {
    Opt(e.message) + (Opt(e.stacktrace) + Opt(Some(e.self)))
  }

  function ErrorCount(e: Error): nat { 1 + One(e.message.Some?) + One(e.stacktrace.Some?) }

  /** The allocations of receive_exception. */
  method AllocError(h: Heap, e: Error) returns (m: MError)
    requires h.Valid()
    modifies h
    ensures h.Valid() && h.live == ErrorBlocks(m) + old(h.live) && h.next == old(h.next) + ErrorCount(e)
    ensures (m.message.Some? <==> e.message.Some?) && (m.stacktrace.Some? <==> e.stacktrace.Some?)
  {
    hide Heap.Valid, Opt;
    ghost var l0 := h.live;
    var self := AllocBlock(h);
    var message := AllocString(h, e.message);
    var stacktrace := AllocString(h, e.stacktrace);
    Rearranged(Opt(stacktrace), Opt(message), Opt(Some(self)), l0);
    m := MError(self, message, stacktrace);
    ErrorAllocated(m, l0);
  }

  lemma ErrorAllocated(e: MError, rest: multiset<Block>)
    ensures Opt(e.stacktrace) + (Opt(e.message) + (Opt(Some(e.self)) + rest)) == ErrorBlocks(e) + rest
  {
    hide Opt;
  }

  /** free_error */
  method FreeError(h: Heap, e: MError, ghost rest: multiset<Block>)
    requires h.Valid() && h.live == ErrorBlocks(e) + rest
    modifies h`live
    ensures h.Valid() && h.live == rest
  {
    hide Heap.Valid, Opt;
    Assoc(Opt(e.message), Opt(e.stacktrace) + Opt(Some(e.self)), rest);
    Assoc(Opt(e.stacktrace), Opt(Some(e.self)), rest);
    FreeOpt(h, e.message, Opt(e.stacktrace) + (Opt(Some(e.self)) + rest));
    FreeOpt(h, e.stacktrace, Opt(Some(e.self)) + rest);
    FreeOpt(h, Some(e.self), rest);
  }

  /**
    A received result and its free balance, also when an exception replaces the
    result: the rows received so far are then released by the receive itself.  Every
    block the message takes is allocated, and released, once.
  */
  method ReceiveAndFreeResult(h: Heap, m: Message)
    requires h.Valid() && m.Result? && GoodMsg(m) && Deliverable(m)
    requires forall i | 0 <= i < |m.data| :: TidyRow(m.data[i])
    modifies h
    ensures h.Valid() && h.live == old(h.live)
    ensures h.next == old(h.next) + ResultCount(m) + (if m.exc.Some? then ErrorCount(m.exc.value) else 0)
  {
    hide Heap.Valid, ResultBlocks, ErrorBlocks, TidyRow, CleanResult, Matches, Flat, ResultCount, ErrorCount;
    ghost var l0 := h.live;
    var r := AllocResult(h, m);
    if m.exc.Some? {
      var e := AllocError(h, m.exc.value);
      Swapped(ResultBlocks(r), ErrorBlocks(e), l0);
      Assoc(ResultBlocks(r), ErrorBlocks(e), l0);
      FreeResult(h, m.types, r, ErrorBlocks(e) + l0);
      FreeError(h, e, l0);
    } else {
      FreeResult(h, m.types, r, l0);
    }
  }
}
