/**
  The JVM side's response encoder as it runs: the loops that fill a byte buffer,
  each proved to write what its function in JavaResponses says, or to throw when
  that function says so.
*/
module JavaWriter {
  import opened Primitives
  import opened Wire
  import opened JavaResponses
  import opened JavaReader

  /** What a writer did: the bytes it had to write, after those already there, or an exception. */
  predicate Wrote(p: Option<Bytes>, ok: bool, before: Bytes, after: Bytes) {
    ok == p.Some? && (ok ==> after == before + p.value)
  }

  /** A loop has taken the buffer from `before` to `now` and has `more` to write. */
  predicate Writing(all: Option<Bytes>, before: Bytes, now: Bytes, more: Option<Bytes>) {
    |before| <= |now| && now[..|before|] == before && all == Concat(Some(now[|before|..]), more)
  }

  lemma WritingStarts(all: Option<Bytes>, before: Bytes)
    ensures Writing(all, before, before, all)
  {
    assert before[|before|..] == [];
    if all.Some? {
      assert [] + all.value == all.value;
    }
  }

  lemma WritingSteps(all: Option<Bytes>, before: Bytes, now: Bytes, more: Option<Bytes>,
                     p: Option<Bytes>, ok: bool, now': Bytes, more': Option<Bytes>)
    requires Writing(all, before, now, more) && more == Concat(p, more') && Wrote(p, ok, now, now')
    ensures if ok then Writing(all, before, now', more') else all == None
  {
    if ok {
      var x := now[|before|..];
      assert now' == before + (x + p.value);
      assert now'[|before|..] == x + p.value;
      if more'.Some? {
        assert x + p.value + more'.value == x + (p.value + more'.value);
      }
    }
  }

  lemma WritingEnds(all: Option<Bytes>, before: Bytes, now: Bytes)
    requires Writing(all, before, now, Some([]))
    ensures Wrote(all, true, before, now)
  {
    assert now[|before|..] + [] == now[|before|..];
    assert before + now[|before|..] == now;
  }

  /** getBytes is the library's. */
  method WriteChars(buf: ByteBuf, s: Units)
    modifies buf`bytes
    ensures buf.bytes == old(buf.bytes) + SendChars(s)
  {
    buf.WriteIntLE(|s|);
    buf.WriteBytes(GetBytes(s));
    ConcatAssoc(old(buf.bytes), Le(|s|, 4), GetBytes(s));
  }

  method WriteString(buf: ByteBuf, s: Option<Units>)
    modifies buf`bytes
    ensures buf.bytes == old(buf.bytes) + SendString(s)
  {
    if s.None? {
      buf.WriteIntLE(-1);
    } else {
      WriteChars(buf, s.value);
    }
  }

  method WriteType(buf: ByteBuf, t: RType)
    modifies buf`bytes
    ensures buf.bytes == old(buf.bytes) + SendType(t)
  {
    hide Le, SendString;
    ghost var start: Bytes := buf.bytes;
    var tag: Byte := t.dataType % 256;
    buf.WriteByte(tag);
    WriteString(buf, t.typeName);
    ConcatAssoc(start, [tag], SendString(t.typeName));
    if |t.subTypes| > 0 {
      ghost var head: Bytes := [tag] + SendString(t.typeName);
      buf.WriteShortLE(|t.subTypes|);
      var i := 0;
      ghost var done: Bytes := [];
      assert buf.bytes == start + head + Le(|t.subTypes|, 2) + done;
      while i < |t.subTypes|
        invariant 0 <= i <= |t.subTypes|
        invariant buf.bytes == start + head + Le(|t.subTypes|, 2) + done
        invariant SendSubTypes(t.subTypes) == done + SendSubTypes(t.subTypes[i..])
      {
        var sub := t.subTypes[i];
        var subTag: Byte := sub.dataType % 256;
        ghost var now: Bytes := buf.bytes;
        buf.WriteByte(subTag);
        WriteString(buf, sub.typeName);
        ghost var x: Bytes := [subTag] + SendString(sub.typeName);
        ConcatAssoc(now, [subTag], SendString(sub.typeName));
        ConcatAssoc(start + head + Le(|t.subTypes|, 2), done, x);
        assert t.subTypes[i..][1..] == t.subTypes[i + 1..];
        ConcatAssoc(done, x, SendSubTypes(t.subTypes[i + 1..]));
        done := done + x;
        i := i + 1;
      }
      assert done + [] == done;
      ConcatAssoc(start, head, Le(|t.subTypes|, 2));
      ConcatAssoc(start, head + Le(|t.subTypes|, 2), done);
      ConcatAssoc(head, Le(|t.subTypes|, 2), done);
    } else {
      assert [tag] + SendString(t.typeName) + [] == [tag] + SendString(t.typeName);
    }
  }

  /** How many arrays are still to be entered. */
  function Depth(x: RObject): nat {
    match x
    case RArray(_, _, _, elems) => if elems == [] then 2 else 2 + Depth(elems[0])
    case RBytes(_) => 1
    case _ => 0
  }

  /** Down the first elements; the first element of an empty array, or the class of a null, throws. */
  method GetDimensions(x: RObject) returns (dims: seq<int>, ok: bool)
    ensures ok == Dimensions(x).Some?
    ensures ok ==> dims == Dimensions(x).value
  {
    dims := [];
    var arr := x;
    assert Dimensions(x).Some? ==> dims + Dimensions(x).value == Dimensions(x).value;
    while arr.RArray? || arr.RBytes?
      invariant Dimensions(x) == if Dimensions(arr).Some? then Some(dims + Dimensions(arr).value) else None
      decreases Depth(arr)
    {
      var length := if arr.RArray? then |arr.elems| else |arr.bytes|;
      if length == 0 {
        return dims, false;
      }
      var first := if arr.RArray? then arr.elems[0] else ROther;
      ghost var inner := Dimensions(first);
      assert [length] + [] == [length];
      if inner.Some? {
        ConcatAssoc(dims, [length], inner.value);
      }
      dims := dims + [length];
      arr := first;
    }
    assert dims + [] == dims;
    ok := !arr.RNull?;
  }

  method WriteObject(buf: ByteBuf, t: RType, x: RObject) returns (ok: bool)
    modifies buf`bytes
    ensures Wrote(SendObject(t, x), ok, old(buf.bytes), buf.bytes)
    decreases t, 0
  {
    hide Le, GetBytes, SendArray;
    if x.RNull? {
      buf.WriteByte(NULL);
      return true;
    }
    ghost var start: Bytes := buf.bytes;
    buf.WriteByte(DATA);
    ok := true;
    if IsScalar(t.dataType) {
      if !(x.RNum? && x.tag == t.dataType) {
        return false;
      }
      buf.WriteBytes(x.image);
      ConcatAssoc(start, [DATA], x.image);
    } else if t.dataType == PLC_DATA_TEXT {
      if !x.RText? {
        return false;
      }
      WriteChars(buf, x.text);
      ConcatAssoc(start, [DATA], SendChars(x.text));
    } else if t.dataType == PLC_DATA_BYTEA {
      if !x.RBytes? {
        return false;
      }
      buf.WriteIntLE(|x.bytes|);
      buf.WriteBytes(x.bytes);
      ConcatAssoc(start + [DATA], Le(|x.bytes|, 4), x.bytes);
      ConcatAssoc(start, [DATA], Le(|x.bytes|, 4) + x.bytes);
    } else if t.dataType == PLC_DATA_ARRAY {
      if t.subTypes == [] {
        return false;
      }
      ok := WriteArray(buf, t.subTypes[0], x);
      if ok {
        ConcatAssoc(start, [DATA], SendArray(t.subTypes[0], x).value);
      }
    }
  }

  method WriteArray(buf: ByteBuf, t: RType, x: RObject) returns (ok: bool)
    modifies buf`bytes
    ensures Wrote(SendArray(t, x), ok, old(buf.bytes), buf.bytes)
    decreases t, 3
  {
    hide Le, Dimensions, SendFlat;
    ghost var start: Bytes := buf.bytes;
    var dims: seq<int>;
    dims, ok := GetDimensions(x);
    if !ok {
      return;
    }
    buf.WriteIntLE(|dims|);
    WriteInts(buf, dims);
    ConcatAssoc(start, Le(|dims|, 4), SendInts(dims));
    ok := WriteArrayFlat(buf, t, x);
    if ok {
      ConcatAssoc(start, Le(|dims|, 4) + SendInts(dims), SendFlat(t, x).value);
    }
  }

  method WriteInts(buf: ByteBuf, xs: seq<int>)
    modifies buf`bytes
    ensures buf.bytes == old(buf.bytes) + SendInts(xs)
  {
    hide Le;
    ghost var start: Bytes := buf.bytes;
    ghost var done: Bytes := [];
    var i := 0;
    while i < |xs|
      invariant 0 <= i <= |xs|
      invariant buf.bytes == start + done
      invariant SendInts(xs) == done + SendInts(xs[i..])
    {
      buf.WriteIntLE(xs[i]);
      assert xs[i..][1..] == xs[i + 1..];
      ConcatAssoc(start, done, Le(xs[i], 4));
      ConcatAssoc(done, Le(xs[i], 4), SendInts(xs[i + 1..]));
      done := done + Le(xs[i], 4);
      i := i + 1;
    }
    assert done + [] == done;
  }

  /** The loop of sendArrayFlat over the boxed bytes of a byte array. */
  method WriteOthers(buf: ByteBuf, t: RType, n: nat) returns (ok: bool)
    modifies buf`bytes
    ensures Wrote(SendOthers(t, n), ok, old(buf.bytes), buf.bytes)
    decreases t, 1
  {
    hide SendObject;
    ghost var all, before := SendOthers(t, n), buf.bytes;
    WritingStarts(all, before);
    var i := 0;
    while i < n
      invariant 0 <= i <= n
      invariant Writing(all, before, buf.bytes, SendOthers(t, n - i))
    {
      ghost var now := buf.bytes;
      ok := WriteObject(buf, t, ROther);
      WritingSteps(all, before, now, SendOthers(t, n - i), SendObject(t, ROther), ok, buf.bytes, SendOthers(t, n - i - 1));
      if !ok {
        return;
      }
      i := i + 1;
    }
    WritingEnds(all, before, buf.bytes);
    ok := true;
  }

  method WriteArrayFlat(buf: ByteBuf, t: RType, x: RObject) returns (ok: bool)
    modifies buf`bytes
    ensures Wrote(SendFlat(t, x), ok, old(buf.bytes), buf.bytes)
    decreases t, 2, x
  {
    hide SendObject;
    if x.RNull? {
      return false;
    }
    if x.RBytes? {
      ok := WriteOthers(buf, t, |x.bytes|);
      return;
    }
    if !x.RArray? {
      ok := WriteObject(buf, t, x);
      return;
    }
    ghost var all, before := SendFlats(t, x.elems), buf.bytes;
    WritingStarts(all, before);
    var i := 0;
    while i < |x.elems|
      invariant 0 <= i <= |x.elems|
      invariant Writing(all, before, buf.bytes, SendFlats(t, x.elems[i..]))
    {
      ghost var now := buf.bytes;
      FlatsStep(t, x.elems[i..]);
      assert x.elems[i..][1..] == x.elems[i + 1..];
      ok := WriteArrayFlat(buf, t, x.elems[i]);
      WritingSteps(all, before, now, SendFlats(t, x.elems[i..]), SendFlat(t, x.elems[i]), ok, buf.bytes, SendFlats(t, x.elems[i + 1..]));
      if !ok {
        return;
      }
      i := i + 1;
    }
    WritingEnds(all, before, buf.bytes);
    ok := true;
  }

  lemma FlatsStep(t: RType, xs: seq<RObject>)
    requires xs != []
    ensures SendFlats(t, xs) == Concat(SendFlat(t, xs[0]), SendFlats(t, xs[1..]))
  {
  }

  method WriteColumns(buf: ByteBuf, types: seq<RType>, names: seq<Option<Units>>) returns (ok: bool)
    requires |types| == |names|
    modifies buf`bytes
    ensures Wrote(SendColumns(types, names), ok, old(buf.bytes), buf.bytes)
  {
    hide SendType, SendChars;
    ghost var all, before := SendColumns(types, names), buf.bytes;
    WritingStarts(all, before);
    var i := 0;
    while i < |types|
      invariant 0 <= i <= |types|
      invariant Writing(all, before, buf.bytes, SendColumns(types[i..], names[i..]))
    {
      ghost var now: Bytes := buf.bytes;
      WriteType(buf, types[i]);
      if names[i].None? {
        return false;
      }
      WriteChars(buf, names[i].value);
      ConcatAssoc(now, SendType(types[i]), SendChars(names[i].value));
      assert types[i..][1..] == types[i + 1..];
      assert names[i..][1..] == names[i + 1..];
      WritingSteps(all, before, now, SendColumns(types[i..], names[i..]), Some(SendType(types[i]) + SendChars(names[i].value)),
                   true, buf.bytes, SendColumns(types[i + 1..], names[i + 1..]));
      i := i + 1;
    }
    WritingEnds(all, before, buf.bytes);
    ok := true;
  }

  method WriteRow(buf: ByteBuf, types: seq<RType>, row: seq<RObject>) returns (ok: bool)
    requires |types| == |row|
    modifies buf`bytes
    ensures Wrote(SendRow(types, row), ok, old(buf.bytes), buf.bytes)
  {
    hide SendObject;
    ghost var all, before := SendRow(types, row), buf.bytes;
    WritingStarts(all, before);
    var col := 0;
    while col < |row|
      invariant 0 <= col <= |row|
      invariant Writing(all, before, buf.bytes, SendRow(types[col..], row[col..]))
    {
      ghost var now := buf.bytes;
      assert types[col..][1..] == types[col + 1..];
      assert row[col..][1..] == row[col + 1..];
      ok := WriteObject(buf, types[col], row[col]);
      WritingSteps(all, before, now, SendRow(types[col..], row[col..]), SendObject(types[col], row[col]), ok, buf.bytes,
                   SendRow(types[col + 1..], row[col + 1..]));
      if !ok {
        return;
      }
      col := col + 1;
    }
    WritingEnds(all, before, buf.bytes);
    ok := true;
  }

  method WriteRows(buf: ByteBuf, types: seq<RType>, rows: seq<seq<RObject>>) returns (ok: bool)
    requires forall i | 0 <= i < |rows| :: |rows[i]| == |types|
    modifies buf`bytes
    ensures Wrote(SendRows(types, rows), ok, old(buf.bytes), buf.bytes)
  {
    hide SendRow;
    ghost var all, before := SendRows(types, rows), buf.bytes;
    WritingStarts(all, before);
    var row := 0;
    while row < |rows|
      invariant 0 <= row <= |rows|
      invariant Writing(all, before, buf.bytes, SendRows(types, rows[row..]))
    {
      ghost var now := buf.bytes;
      assert rows[row..][1..] == rows[row + 1..];
      ok := WriteRow(buf, types, rows[row]);
      WritingSteps(all, before, now, SendRows(types, rows[row..]), SendRow(types, rows[row]), ok, buf.bytes,
                   SendRows(types, rows[row + 1..]));
      if !ok {
        return;
      }
      row := row + 1;
    }
    WritingEnds(all, before, buf.bytes);
    ok := true;
  }

  method SendCallResponse(buf: ByteBuf, r: Response) returns (ok: bool)
    requires r.CallResponse? && Sized(r)
    modifies buf`bytes
    ensures Wrote(SendResponse(r), ok, old(buf.bytes), buf.bytes)
  {
    hide Le, SendColumns, SendRows;
    ghost var start: Bytes := buf.bytes;
    ghost var head: Bytes := [MT_RESULT] + Le(r.numRows, 4) + Le(r.numCols, 4);
    buf.WriteByte(MT_RESULT);
    buf.WriteIntLE(r.numRows);
    buf.WriteIntLE(r.numCols);
    assert buf.bytes == start + head;
    ok := WriteColumns(buf, r.types, r.names);
    if !ok {
      return;
    }
    ghost var columns := SendColumns(r.types, r.names).value;
    ConcatAssoc(start, head, columns);
    ok := WriteRows(buf, r.types, r.rows);
    if !ok {
      return;
    }
    ghost var rows := SendRows(r.types, r.rows).value;
    ConcatAssoc(start, head + columns, rows);
    buf.WriteByte(NULL);
    ConcatAssoc(start, head + columns + rows, [NULL]);
  }

  /** encode: the response by its kind. */
  method Encode(buf: ByteBuf, r: Response) returns (ok: bool)
    requires r.CallResponse? ==> Sized(r)
    modifies buf`bytes
    ensures Wrote(SendResponse(r), ok, old(buf.bytes), buf.bytes)
  {
    ghost var start: Bytes := buf.bytes;
    match r
    case CallResponse(_, _, _, _, _) =>
      ok := SendCallResponse(buf, r);
    case ExceptionResponse(message, stacktrace) =>
      hide SendString;
      buf.WriteByte(MT_EXCEPTION);
      WriteString(buf, message);
      WriteString(buf, stacktrace);
      ConcatAssoc(start, [MT_EXCEPTION], SendString(message));
      ConcatAssoc(start, [MT_EXCEPTION] + SendString(message), SendString(stacktrace));
      ok := true;
    case LogResponse(level, text) =>
      hide SendString, Le;
      buf.WriteByte(MT_LOG);
      buf.WriteIntLE(level);
      WriteString(buf, text);
      ConcatAssoc(start, [MT_LOG], Le(level, 4));
      ConcatAssoc(start, [MT_LOG] + Le(level, 4), SendString(text));
      ok := true;
  }
}
