/**
  The two implementations agree on responses: the bytes the JVM side writes are the
  bytes the backend would have written for the same message, so the backend decodes
  them as that message.  The strings have to take one byte for each unit, and an
  array has to hold as many leaves as its dimensions announce.
*/
module ResponseAgreement {
  import opened Primitives
  import opened Wire
  import opened RoundTrip
  import opened Shapes
  import opened JavaResponses

  // ---------------------------------------------------------------------
  // Strings
  // ---------------------------------------------------------------------

  /** Every unit becomes one byte: ASCII, or a surrogate that has no partner. */
  predicate Framed(s: Units) {
    forall i | 0 <= i < |s| ::
      && (s[i] < 0x80 || IsHigh(s[i]) || IsLow(s[i]))
      && !(IsHigh(s[i]) && i + 1 < |s| && IsLow(s[i + 1]))
  }

  lemma FramedRest(s: Units)
    requires s != []
    ensures Framed(s) <==> Framed(s[..1]) && Framed(s[1..]) && !(IsHigh(s[0]) && |s| > 1 && IsLow(s[1]))
  {
    assert forall i | 1 <= i < |s| :: s[i] == s[1..][i - 1];
    assert s[..1][0] == s[0];
  }

  /** A string never has fewer bytes than units, and as many exactly when it is framed. */
  lemma {:induction false} BytesPerUnit(s: Units)
    ensures |GetBytes(s)| >= |s|
    ensures |GetBytes(s)| == |s| <==> Framed(s)
    decreases |s|
  {
    if s != [] {
      FramedRest(s);
      BytesPerUnit(s[1..]);
      if |s| > 1 {
        BytesPerUnit(s[2..]);
      }
    }
  }

  /** A zero byte comes from U+0000 only. */
  lemma {:induction false} ZeroBytes(s: Units)
    ensures 0 in GetBytes(s) <==> 0 in s
    decreases |s|
  {
    hide Supplementary, TwoBytes, ThreeBytes;
    if s != [] {
      HeadTail(s);
      ZeroBytes(s[1..]);
      if |s| > 1 {
        ZeroBytes(s[2..]);
        assert s == [s[0], s[1]] + s[2..];
        if IsHigh(s[0]) && IsLow(s[1]) {
          SupplementaryBytes(s[0], s[1]);
        }
      }
    }
  }

  lemma SupplementaryBytes(high: Unit, low: Unit)
    requires IsHigh(high) && IsLow(low)
    ensures 0 !in Supplementary(high, low)
  {
  }

  /**
    What the backend makes of any Java string: as many bytes as the string has units,
    so that whatever is left of its bytes is taken for the start of what follows, and
    of those the ones before the first zero.  The frame is kept exactly when every
    unit became one byte; the string arrives as itself exactly when, besides, it holds
    no U+0000.
  */
  lemma StringFraming(s: Units, rest: Bytes)
    requires |s| <= INT_MAX - 4
    ensures |s| <= |GetBytes(s)|
    ensures DecCString(SendChars(s) + rest) == Got(Some(BeforeZero(GetBytes(s)[..|s|])), GetBytes(s)[|s|..] + rest)
    ensures Framed(s) <==> DecCString(SendChars(s) + rest).rest == rest
    ensures Framed(s) && 0 !in s <==> DecCString(SendChars(s) + rest) == Got(Some(GetBytes(s)), rest)
  {
    hide Le, GetBytes, Framed, DecInt32;
    BytesPerUnit(s);
    ZeroBytes(s);
    var b := GetBytes(s);
    assert SendChars(s) + rest == Le(|s|, 4) + (b + rest);
    Int32Back(|s|, b + rest);
    assert (b + rest)[..|s|] == b[..|s|];
    assert (b + rest)[|s|..] == b[|s|..] + rest;
    if Framed(s) {
      assert b[..|s|] == b && b[|s|..] + rest == rest;
    }
  }

  /** A surrogate without its partner. */
  predicate Unpaired(s: Units, i: nat)
    requires i < |s|
  {
    || (IsHigh(s[i]) && !(i + 1 < |s| && IsLow(s[i + 1])))
    || (IsLow(s[i]) && !(i > 0 && IsHigh(s[i - 1])))
  }

  /** The string with a question mark for each unpaired surrogate. */
  function Mended(s: Units): Units {
    seq(|s|, i requires 0 <= i < |s| => if Unpaired(s, i) then 63 else s[i])
  }

  predicate Follows(b: Byte) { 0x80 <= b < 0xC0 }

  function Low6(b: Byte): int { b as int - 0x80 }

  /** The units of a code point; none for a surrogate and beyond U+10FFFF (RFC 3629, section 3). */
  function UnitsOf(c: nat): Option<Units> {
    if c < 0xD800 || 0xE000 <= c < 0x1_0000 then Some([c])
    else if 0x1_0000 <= c < 0x11_0000 then Some([0xD800 + (c - 0x1_0000) / 1024, 0xDC00 + (c - 0x1_0000) % 1024])
    else None
  }

  function Behind(us: Option<Units>, rest: Option<Units>): Option<Units> {
    if us.Some? && rest.Some? then Some(us.value + rest.value) else None
  }

  /** The string that bytes stand for in UTF-8; none if they are not well-formed. */
  function FromUtf8(b: Bytes): Option<Units> {
    if b == [] then Some([])
    else if b[0] < 0x80 then Behind(Some([b[0]]), FromUtf8(b[1..]))
    else if 0xC0 <= b[0] < 0xE0 && |b| >= 2 && Follows(b[1]) then
      var c := (b[0] as int - 0xC0) * 64 + Low6(b[1]);
      if c >= 0x80 then Behind(UnitsOf(c), FromUtf8(b[2..])) else None
    else if 0xE0 <= b[0] < 0xF0 && |b| >= 3 && Follows(b[1]) && Follows(b[2]) then
      var c := (b[0] as int - 0xE0) * 4096 + Low6(b[1]) * 64 + Low6(b[2]);
      if c >= 0x800 then Behind(UnitsOf(c), FromUtf8(b[3..])) else None
    else if 0xF0 <= b[0] < 0xF8 && |b| >= 4 && Follows(b[1]) && Follows(b[2]) && Follows(b[3]) then
      var c := (b[0] as int - 0xF0) * 262144 + Low6(b[1]) * 4096 + Low6(b[2]) * 64 + Low6(b[3]);
      if c >= 0x1_0000 then Behind(UnitsOf(c), FromUtf8(b[4..])) else None
    else None
  }

  /** The groups of six bits of a code point. */
  lemma Groups(c: nat)
    ensures c == c / 64 * 64 + c % 64
    ensures c / 64 == c / 4096 * 64 + c / 64 % 64
    ensures c / 4096 == c / 262144 * 64 + c / 4096 % 64
  {
    assert c / 64 / 64 == c / 4096;
    assert c / 4096 / 64 == c / 262144;
  }

  lemma TwoBytesBack(u: Unit, rest: Bytes)
    requires 0x80 <= u < 0x800
    ensures FromUtf8(TwoBytes(u) + rest) == Behind(Some([u]), FromUtf8(rest))
  {
    Groups(u);
    assert (TwoBytes(u) + rest)[2..] == rest;
  }

  lemma ThreeBytesBack(u: Unit, rest: Bytes)
    requires 0x800 <= u && !IsHigh(u) && !IsLow(u)
    ensures FromUtf8(ThreeBytes(u) + rest) == Behind(Some([u]), FromUtf8(rest))
  {
    Groups(u);
    assert (ThreeBytes(u) + rest)[3..] == rest;
  }

  lemma FourBytesBack(c: nat, rest: Bytes)
    requires 0x1_0000 <= c < 0x11_0000
    ensures FromUtf8([0xF0 + c / 262144, 0x80 + c / 4096 % 64, 0x80 + c / 64 % 64, 0x80 + c % 64] + rest)
         == Behind(UnitsOf(c), FromUtf8(rest))
  {
    hide UnitsOf, Behind;
    Groups(c);
    assert ([0xF0 + c / 262144, 0x80 + c / 4096 % 64, 0x80 + c / 64 % 64, 0x80 + c % 64] + rest)[4..] == rest;
  }

  lemma PairBack(high: Unit, low: Unit, rest: Bytes)
    requires IsHigh(high) && IsLow(low)
    ensures FromUtf8(Supplementary(high, low) + rest) == Behind(Some([high, low]), FromUtf8(rest))
  {
    hide FromUtf8;
    var c := 0x1_0000 + (high - 0xD800) * 1024 + (low - 0xDC00);
    FourBytesBack(c, rest);
    assert UnitsOf(c) == Some([high, low]);
  }

  lemma OneByteBack(b: Byte, rest: Bytes)
    requires b < 0x80
    ensures FromUtf8([b] + rest) == Behind(Some([b]), FromUtf8(rest))
  {
    assert ([b] + rest)[1..] == rest;
  }

  lemma UnitBack(s: Units)
    requires s != [] && !(|s| > 1 && IsHigh(s[0]) && IsLow(s[1]))
    ensures FromUtf8(GetBytes(s))
         == Behind(Some([if IsHigh(s[0]) || IsLow(s[0]) then 63 else s[0]]), FromUtf8(GetBytes(s[1..])))
  {
    hide FromUtf8, Behind, Supplementary, TwoBytes, ThreeBytes;
    var r := GetBytes(s[1..]);
    if s[0] < 0x80 {
      OneByteBack(s[0], r);
    } else if s[0] < 0x800 {
      TwoBytesBack(s[0], r);
    } else if IsHigh(s[0]) || IsLow(s[0]) {
      OneByteBack(63, r);
    } else {
      ThreeBytesBack(s[0], r);
    }
  }

  lemma MendedRest(s: Units)
    requires s != []
    ensures |s| > 1 && IsHigh(s[0]) && IsLow(s[1]) ==> Mended(s) == [s[0], s[1]] + Mended(s[2..])
    ensures !(|s| > 1 && IsHigh(s[0]) && IsLow(s[1])) ==>
      Mended(s) == [if IsHigh(s[0]) || IsLow(s[0]) then 63 else s[0]] + Mended(s[1..])
  {
    if |s| > 1 && IsHigh(s[0]) && IsLow(s[1]) {
      assert forall i | 2 <= i < |s| :: Unpaired(s, i) == Unpaired(s[2..], i - 2);
    } else {
      assert forall i | 1 <= i < |s| :: Unpaired(s, i) == Unpaired(s[1..], i - 1);
    }
  }

  /** What is written of a string is its UTF-8, with a question mark for each unpaired surrogate. */
  lemma {:induction false} Utf8Back(s: Units)
    ensures FromUtf8(GetBytes(s)) == Some(Mended(s))
    decreases |s|
  {
    hide FromUtf8, Mended, Supplementary, TwoBytes, ThreeBytes;
    if s == [] {
      NothingToMend();
    } else {
      MendedRest(s);
      if |s| > 1 && IsHigh(s[0]) && IsLow(s[1]) {
        Utf8Back(s[2..]);
        PairBack(s[0], s[1], GetBytes(s[2..]));
      } else {
        Utf8Back(s[1..]);
        UnitBack(s);
      }
    }
  }

  lemma NothingToMend()
    ensures FromUtf8([]) == Some([]) && Mended([]) == []
  {
  }

  /** An ASCII string is its own bytes. */
  lemma {:induction false} AsciiIsItself(s: Units)
    requires forall i | 0 <= i < |s| :: s[i] < 0x80
    ensures Framed(s) && |GetBytes(s)| == |s|
    ensures forall i | 0 <= i < |s| :: GetBytes(s)[i] == s[i]
  {
    if s != [] {
      AsciiIsItself(s[1..]);
    }
  }

  function NameView(s: Option<Units>): CString { if s.Some? then Some(GetBytes(s.value)) else None }

  /** Null, or a string that arrives as itself. */
  predicate Fits(s: Option<Units>) { s.Some? ==> Framed(s.value) && 0 !in s.value && |s.value| <= INT_MAX - 4 }

  lemma StringSent(s: Option<Units>)
    requires Fits(s)
    ensures SendString(s) == EncCString(NameView(s))
    ensures ShortString(NameView(s))
  {
    hide Le, GetBytes, Framed;
    if s.Some? {
      BytesPerUnit(s.value);
      ZeroBytes(s.value);
    }
  }

  // ---------------------------------------------------------------------
  // Types
  // ---------------------------------------------------------------------

  function TypeView(t: RType): PlcType
    requires |t.subTypes| < 0x8000
  {
    PlcType(t.dataType, |t.subTypes|, NameView(t.typeName), SubTypesView(t.subTypes))
  }

  function SubTypesView(ts: seq<RType>): (vs: seq<PlcType>)
    ensures |vs| == |ts|
    ensures forall i | 0 <= i < |ts| :: vs[i] == PlcType(ts[i].dataType, 0, NameView(ts[i].typeName), [])
  {
    if ts == [] then []
    else [PlcType(ts[0].dataType, 0, NameView(ts[0].typeName), [])] + SubTypesView(ts[1..])
  }

  predicate Plain(t: RType) {
    -128 <= t.dataType < 128 && Fits(t.typeName) && !IsNested(t.dataType) && t.subTypes == []
  }

  /** The types written in full: no subtypes, or some, none of which would have its own. */
  predicate Shallow(t: RType) {
    || Plain(t)
    || (&& IsNested(t.dataType) && Fits(t.typeName)
        && 0 < |t.subTypes| < 0x8000
        && (forall i | 0 <= i < |t.subTypes| :: Plain(t.subTypes[i])))
  }

  lemma TypeSent(t: RType)
    requires Shallow(t)
    ensures SendType(t) == EncType(TypeView(t)) && GoodType(TypeView(t))
  {
    hide Le, EncCString, SendString, Framed, ShortString;
    StringSent(t.typeName);
    SubTypesSent(t.subTypes);
  }

  lemma {:induction false} SubTypesSent(ts: seq<RType>)
    requires forall i | 0 <= i < |ts| :: Plain(ts[i])
    ensures SendSubTypes(ts) == EncTypes(SubTypesView(ts))
    ensures forall i | 0 <= i < |ts| :: GoodType(SubTypesView(ts)[i])
  {
    hide EncCString, SendString, Framed, ShortString;
    if ts != [] {
      StringSent(ts[0].typeName);
      SubTypesSent(ts[1..]);
      var v := PlcType(ts[0].dataType, 0, NameView(ts[0].typeName), []);
      assert SubTypesView(ts)[1..] == SubTypesView(ts[1..]);
      PlainSent(ts[0], v);
    }
  }

  lemma PlainSent(t: RType, v: PlcType)
    requires Plain(t) && v == PlcType(t.dataType, 0, NameView(t.typeName), [])
    ensures EncType(v) == [t.dataType % 256] + EncCString(NameView(t.typeName))
    ensures GoodType(v)
  {
    hide EncCString, Framed;
    StringSent(t.typeName);
  }

  /** The type of an object that has neither a primitive array class nor a simple one misses its count. */
  lemma UdtTypeIsMisread(t: RType, s: Bytes)
    requires -128 <= t.dataType < 128 && IsNested(t.dataType) && t.subTypes == [] && Fits(t.typeName)
    ensures var p := DecType(SendType(t) + s); p.Got? ==> |p.rest| + 2 <= |s|
  {
    hide Le, EncCString, SendString, Framed, DecByte, DecCString, DecInt16;
    StringSent(t.typeName);
    assert SendType(t) + s == [t.dataType % 256] + (EncCString(NameView(t.typeName)) + s);
    ByteBack(t.dataType % 256, EncCString(NameView(t.typeName)) + s);
    CStringBack(NameView(t.typeName), s);
    Int16Takes2(s);
  }

  lemma Int16Takes2(s: Bytes)
    ensures var p := DecInt16(s); p.Got? ==> |p.rest| + 2 == |s|
  {
  }

  // ---------------------------------------------------------------------
  // Arrays
  // ---------------------------------------------------------------------

  /** The elements that are not arrays, in order. */
  function Leaves(x: RObject): seq<RObject>
    decreases x, 1
  {
    if x.RArray? then AllLeaves(x.elems) else [x]
  }

  function AllLeaves(xs: seq<RObject>): seq<RObject>
    decreases xs, 0
  {
    if xs == [] then [] else Leaves(xs[0]) + AllLeaves(xs[1..])
  }

  function LeafView(x: RObject): Value {
    match x
    case RNum(_, image) => Scalar(image)
    case RText(s) => Text(Some(GetBytes(s)))
    case _ => Null
  }

  function LeavesView(xs: seq<RObject>): (vs: seq<Value>)
    ensures |vs| == |xs|
    ensures forall i | 0 <= i < |xs| :: vs[i] == LeafView(xs[i])
  {
    if xs == [] then [] else [LeafView(xs[0])] + LeavesView(xs[1..])
  }

  predicate LeafOk(t: RType, x: RObject) {
    match x
    case RNum(tag, image) => t.dataType == tag && IsScalar(tag) && |image| == Width(tag)
    case RText(s) => t.dataType == PLC_DATA_TEXT && Fits(Some(s))
    case _ => false
  }

  predicate LeavesOk(t: RType, xs: seq<RObject>) { forall i | 0 <= i < |xs| :: LeafOk(t, xs[i]) }

  lemma {:induction false} LeavesViewSplit(xs: seq<RObject>, ys: seq<RObject>)
    ensures EncRaws(LeavesView(xs + ys)) == EncRaws(LeavesView(xs)) + EncRaws(LeavesView(ys))
  {
    hide EncRaw;
    if xs == [] {
      assert xs + ys == ys;
    } else {
      assert (xs + ys)[1..] == xs[1..] + ys;
      LeavesViewSplit(xs[1..], ys);
      assert LeavesView(xs)[1..] == LeavesView(xs[1..]);
      assert LeavesView(xs + ys)[1..] == LeavesView(xs[1..] + ys);
      ConcatAssoc(EncRaw(LeafView(xs[0])), EncRaws(LeavesView(xs[1..])), EncRaws(LeavesView(ys)));
    }
  }

  lemma LeafSent(t: RType, x: RObject)
    requires LeafOk(t, x)
    ensures SendFlat(t, x) == Some(EncRaw(LeafView(x)))
    ensures SendObject(t, x) == Some(EncRaw(LeafView(x)))
  {
    hide Le, GetBytes, Framed;
    if x.RText? {
      StringSent(Some(x.text));
    }
  }

  /** The flat writer sends the leaves, in order, each as an element of its own. */
  lemma {:induction false} FlatSent(t: RType, x: RObject)
    requires LeavesOk(t, Leaves(x))
    ensures SendFlat(t, x) == Some(EncRaws(LeavesView(Leaves(x))))
    decreases x, 1
  {
    hide EncRaw, LeafView, LeafOk;
    if x.RArray? {
      FlatsSent(t, x.elems);
    } else {
      assert LeafOk(t, Leaves(x)[0]);
      LeafSent(t, x);
      OneRaw(LeafView(x));
      assert LeavesView([x]) == [LeafView(x)];
    }
  }

  lemma OneRaw(v: Value)
    ensures EncRaws([v]) == EncRaw(v)
  {
    hide EncRaw;
    assert EncRaw(v) + [] == EncRaw(v);
  }

  lemma {:induction false} FlatsSent(t: RType, xs: seq<RObject>)
    requires LeavesOk(t, AllLeaves(xs))
    ensures SendFlats(t, xs) == Some(EncRaws(LeavesView(AllLeaves(xs))))
    decreases xs, 0
  {
    hide EncRaw, LeafView, LeafOk, SendFlat, Leaves;
    if xs != [] {
      LeavesOkSplit(t, Leaves(xs[0]), AllLeaves(xs[1..]));
      FlatSent(t, xs[0]);
      FlatsSent(t, xs[1..]);
      LeavesViewSplit(Leaves(xs[0]), AllLeaves(xs[1..]));
    }
  }

  lemma LeavesOkSplit(t: RType, xs: seq<RObject>, ys: seq<RObject>)
    requires LeavesOk(t, xs + ys)
    ensures LeavesOk(t, xs) && LeavesOk(t, ys)
  {
    hide LeafOk;
    assert forall i | 0 <= i < |xs| :: xs[i] == (xs + ys)[i];
    assert forall i | 0 <= i < |ys| :: ys[i] == (xs + ys)[|xs| + i];
  }

  /** Rectangular: at each depth, arrays of the same length. */
  predicate Rect(x: RObject, dims: seq<int>)
    decreases |dims|
  {
    if dims == [] then !x.RArray?
    else x.RArray? && |x.elems| == dims[0] && (forall i | 0 <= i < |x.elems| :: Rect(x.elems[i], dims[1..]))
  }

  function At(x: RObject, path: seq<int>): Option<RObject>
    decreases |path|
  {
    if path == [] then Some(x)
    else if x.RArray? && 0 <= path[0] < |x.elems| then At(x.elems[path[0]], path[1..])
    else None
  }

  /**
    A rectangular array has as many leaves as the product of its dimensions, and they
    are in row-major order.
  */
  lemma {:induction false} LeavesOfRect(x: RObject, dims: seq<int>)
    requires Rect(x, dims) && AllNat(dims)
    ensures |Leaves(x)| == Prod(dims)
    decreases |dims|, 0
  {
    if dims != [] {
      assert AllNat(dims[1..]);
      LeavesOfRows(x.elems, dims[1..]);
    }
  }

  lemma {:induction false} LeavesOfRows(xs: seq<RObject>, dims: seq<int>)
    requires AllNat(dims) && (forall i | 0 <= i < |xs| :: Rect(xs[i], dims))
    ensures |AllLeaves(xs)| == |xs| * Prod(dims)
    decreases |dims|, 1 + |xs|
  {
    hide Rect, Leaves, Prod;
    if xs != [] {
      LeavesOfRect(xs[0], dims);
      LeavesOfRows(xs[1..], dims);
      OneLess(|xs|, dims);
    }
  }

  lemma {:induction false} LeafOfRow(xs: seq<RObject>, dims: seq<int>, i: nat, o: nat)
    requires AllNat(dims) && (forall k | 0 <= k < |xs| :: Rect(xs[k], dims))
    requires i < |xs| && o < Prod(dims)
    ensures |Leaves(xs[i])| == Prod(dims)
    ensures 0 <= i * Prod(dims) + o < |AllLeaves(xs)|
    ensures AllLeaves(xs)[i * Prod(dims) + o] == Leaves(xs[i])[o]
    decreases i
  {
    hide Rect, Leaves, Prod;
    LeavesOfRect(xs[0], dims);
    LeavesOfRect(xs[i], dims);
    LeavesOfRows(xs, dims);
    Digits(i, |xs|, Prod(dims), o);
    if i > 0 {
      LeafOfRow(xs[1..], dims, i - 1, o);
      Digits(i - 1, |xs| - 1, Prod(dims), o);
    }
  }

  lemma {:induction false} LeavesAreRowMajor(x: RObject, dims: seq<int>, path: seq<int>)
    requires Rect(x, dims) && InRange(path, dims)
    ensures 0 <= Offset(path, dims) < |Leaves(x)|
    ensures At(x, path) == Some(Leaves(x)[Offset(path, dims)])
    decreases |dims|
  {
    OffsetInRange(path, dims);
    LeavesOfRect(x, dims);
    if dims != [] {
      assert AllNat(dims[1..]) && InRange(path[1..], dims[1..]);
      LeavesAreRowMajor(x.elems[path[0]], dims[1..], path[1..]);
      OffsetInRange(path[1..], dims[1..]);
      LeafOfRow(x.elems, dims[1..], path[0], Offset(path[1..], dims[1..]));
    }
  }

  /** getDimensions finds the dimensions of a rectangular array without empty arrays. */
  lemma {:induction false} DimensionsOfRect(x: RObject, dims: seq<int>)
    requires Rect(x, dims) && (forall i | 0 <= i < |dims| :: dims[i] > 0)
    requires forall y | y in Leaves(x) :: !y.RNull? && !y.RBytes?
    ensures Dimensions(x) == Some(dims)
    decreases |dims|
  {
    if dims == [] {
      assert x in Leaves(x);
    } else {
      assert AllLeaves(x.elems) == Leaves(x.elems[0]) + AllLeaves(x.elems[1..]);
      DimensionsOfRect(x.elems[0], dims[1..]);
      assert [dims[0]] + dims[1..] == dims;
    }
  }

  lemma {:induction false} DimensionsFit(x: RObject)
    requires Typed(x) && Dimensions(x).Some?
    ensures forall i | 0 <= i < |Dimensions(x).value| :: 0 < Dimensions(x).value[i] <= INT_MAX
  {
    if x.RArray? {
      assert Typed(x.elems[0]);
      DimensionsFit(x.elems[0]);
    }
  }

  // ---------------------------------------------------------------------
  // Cells and responses
  // ---------------------------------------------------------------------

  /** An array the backend reads as it was sent: its leaves are as many as its dimensions say. */
  predicate ArrayOk(t: RType, x: RObject) {
    && Typed(x) && x.RArray? && Dimensions(x).Some?
    && (DimensionsFit(x); true)
    && SizeOf(|Dimensions(x).value|, Dimensions(x).value).Some?
    && |Dimensions(x).value| <= INT_MAX
    && |Leaves(x)| == Prod(Dimensions(x).value)
    && (Leaves(x) != [] ==> DataFits(t.dataType, |Leaves(x)|))
    && LeavesOk(t, Leaves(x))
  }

  predicate CellOk(t: RType, x: RObject) {
    match x
    case RNull => true
    case RNum(_, _) => LeafOk(t, x)
    case RText(_) => LeafOk(t, x)
    case RBytes(b) => t.dataType == PLC_DATA_BYTEA && |b| <= INT_MAX - 4
    case RArray(_, _, _, _) => t.dataType == PLC_DATA_ARRAY && t.subTypes != [] && ArrayOk(t.subTypes[0], x)
    case ROther => false
  }

  function CellView(t: RType, x: RObject): Value
    requires CellOk(t, x)
  {
    match x
    case RBytes(b) => Bytea(b)
    case RArray(_, _, _, _) =>
      DimensionsFit(x);
      Array(|Dimensions(x).value|, Dimensions(x).value, LeavesView(Leaves(x)))
    case _ => LeafView(x)
  }

  lemma {:induction false} IntsSent(xs: seq<Int32>)
    ensures SendInts(xs) == EncInts(xs)
  {
    hide Le;
    if xs != [] {
      IntsSent(xs[1..]);
    }
  }

  lemma ArraySent(t: RType, x: RObject)
    requires t.dataType == PLC_DATA_ARRAY && t.subTypes != [] && ArrayOk(t.subTypes[0], x)
    requires Shallow(t)
    ensures SendObject(t, x) == Some(EncRaw(CellView(t, x)))
    ensures Matches(TypeView(t), CellView(t, x)) && Flat(TypeView(t), CellView(t, x))
  {
    hide Le, EncRaws, Dimensions, Leaves, LeafOk, Framed, SizeOf, Prod, SendInts, EncInts, SendFlat;
    var e := t.subTypes[0];
    DimensionsFit(x);
    var dims: seq<Int32> := Dimensions(x).value;
    FlatSent(e, x);
    IntsSent(dims);
    Prefixed(Le(|dims|, 4) + EncInts(dims), EncRaws(LeavesView(Leaves(x))));
    ArrayHasDimensions(x);
    SizeIsCount(dims);
    LeavesMatch(e, TypeView(t).subTypes[0], Leaves(x));
  }

  lemma Prefixed(a: Bytes, b: Bytes)
    ensures [DATA] + (a + b) == [DATA] + a + b
  {
  }

  lemma ArrayHasDimensions(x: RObject)
    requires x.RArray? && Dimensions(x).Some?
    ensures Dimensions(x).value != []
  {
  }

  lemma SizeIsCount(dims: seq<Int32>)
    requires dims != [] && SizeOf(|dims|, dims).Some?
    ensures SizeOf(|dims|, dims).value == Prod(dims)
  {
    SizeIsProduct(1, dims);
  }

  lemma LeavesMatch(e: RType, v: PlcType, xs: seq<RObject>)
    requires LeavesOk(e, xs) && v.tag == e.dataType
    ensures forall i | 0 <= i < |xs| :: Matches(v, LeavesView(xs)[i]) && Flat(v, LeavesView(xs)[i])
    ensures xs != [] ==> IsElement(v.tag)
  {
    hide GetBytes, Framed;
    forall i | 0 <= i < |xs| ensures Matches(v, LeavesView(xs)[i]) && Flat(v, LeavesView(xs)[i]) {
      assert LeafOk(e, xs[i]);
      LeafMatches(e, v, xs[i]);
    }
    if xs != [] {
      assert LeafOk(e, xs[0]);
    }
  }

  lemma LeafMatches(e: RType, v: PlcType, x: RObject)
    requires LeafOk(e, x) && v.tag == e.dataType
    ensures Matches(v, LeafView(x)) && Flat(v, LeafView(x))
  {
    hide GetBytes, Framed;
    if x.RText? {
      BytesPerUnit(x.text);
      ZeroBytes(x.text);
    }
  }

  /** A cell is written as the backend would write its value. */
  lemma CellSent(t: RType, x: RObject)
    requires Shallow(t) && CellOk(t, x)
    ensures SendObject(t, x) == Some(EncRaw(CellView(t, x)))
    ensures Matches(TypeView(t), CellView(t, x)) && Flat(TypeView(t), CellView(t, x))
  {
    hide Le, Framed, GetBytes, ArrayOk, EncRaws;
    match x
    case RArray(_, _, _, _) => ArraySent(t, x);
    case RNum(_, _) => LeafSent(t, x); LeafMatches(t, TypeView(t), x);
    case RText(_) => LeafSent(t, x); LeafMatches(t, TypeView(t), x);
    case _ =>
  }

  predicate ColumnsOk(types: seq<RType>, names: seq<Option<Units>>) {
    && |types| == |names|
    && (forall i | 0 <= i < |types| :: Shallow(types[i]) && names[i].Some? && Fits(names[i]))
  }

  predicate RowOk(types: seq<RType>, row: seq<RObject>) {
    && |types| == |row|
    && (forall i | 0 <= i < |row| :: Shallow(types[i]) && CellOk(types[i], row[i]))
  }

  function TypesView(ts: seq<RType>): (vs: seq<PlcType>)
    requires forall i | 0 <= i < |ts| :: Shallow(ts[i])
    ensures |vs| == |ts|
    ensures forall i | 0 <= i < |ts| :: Shallow(ts[i]) && vs[i] == TypeView(ts[i])
  {
    seq(|ts|, i requires 0 <= i < |ts| => assert Shallow(ts[i]); TypeView(ts[i]))
  }

  function NamesView(names: seq<Option<Units>>): (vs: seq<CString>)
    ensures |vs| == |names|
  {
    seq(|names|, i requires 0 <= i < |names| => NameView(names[i]))
  }

  function RowView(types: seq<RType>, row: seq<RObject>): (vs: seq<Value>)
    requires RowOk(types, row)
    ensures |vs| == |row|
  {
    seq(|row|, i requires 0 <= i < |row| => CellView(types[i], row[i]))
  }

  lemma {:induction false} ColumnsSent(types: seq<RType>, names: seq<Option<Units>>)
    requires ColumnsOk(types, names)
    ensures SendColumns(types, names) == Some(EncColumns(TypesView(types), NamesView(names)))
    ensures forall i | 0 <= i < |types| :: GoodType(TypesView(types)[i]) && ShortString(NamesView(names)[i])
  {
    hide EncType, EncCString, SendType, SendString, Shallow, Fits, GoodType, ShortString, TypeView, NameView;
    if types != [] {
      TypeSent(types[0]);
      StringSent(names[0]);
      SomeIsChars(names[0]);
      ColumnsSent(types[1..], names[1..]);
      assert TypesView(types)[1..] == TypesView(types[1..]);
      assert NamesView(names)[1..] == NamesView(names[1..]);
    }
  }

  lemma SomeIsChars(s: Option<Units>)
    requires s.Some?
    ensures SendString(s) == SendChars(s.value)
  {
  }

  lemma {:induction false} RowSent(types: seq<RType>, row: seq<RObject>)
    requires RowOk(types, row)
    ensures SendRow(types, row) == Some(EncRaws(RowView(types, row)))
    ensures forall i | 0 <= i < |row| ::
      Matches(TypeView(types[i]), RowView(types, row)[i]) && Flat(TypeView(types[i]), RowView(types, row)[i])
  {
    hide SendObject, EncRaw, CellView, Shallow, CellOk, Matches, Flat, TypeView;
    if row != [] {
      CellSent(types[0], row[0]);
      assert RowOk(types[1..], row[1..]);
      RowSent(types[1..], row[1..]);
      assert RowView(types, row)[1..] == RowView(types[1..], row[1..]);
    }
  }

  predicate RowsOk(types: seq<RType>, rows: seq<seq<RObject>>) {
    forall i | 0 <= i < |rows| :: RowOk(types, rows[i])
  }

  function RowsView(types: seq<RType>, rows: seq<seq<RObject>>): (vs: seq<seq<Value>>)
    requires RowsOk(types, rows)
    ensures |vs| == |rows|
    ensures forall i | 0 <= i < |rows| :: |vs[i]| == |types|
  {
    seq(|rows|, i requires 0 <= i < |rows| => RowView(types, rows[i]))
  }

  lemma {:induction false} RowsSent(types: seq<RType>, rows: seq<seq<RObject>>)
    requires RowsOk(types, rows)
    ensures SendRows(types, rows) == Some(EncRows(RowsView(types, rows)))
    ensures forall i, j | 0 <= i < |rows| && 0 <= j < |types| ::
      Matches(TypeView(types[j]), RowsView(types, rows)[i][j]) && Flat(TypeView(types[j]), RowsView(types, rows)[i][j])
    decreases |rows|
  {
    hide SendRow, EncRaws, RowView, RowOk, Matches, Flat, TypeView;
    if rows != [] {
      RowSent(types, rows[0]);
      assert RowsOk(types, rows[1..]);
      RowsSent(types, rows[1..]);
      assert RowsView(types, rows)[1..] == RowsView(types, rows[1..]);
    }
  }

  predicate ResponseOk(r: Response) {
    match r
    case CallResponse(_, numCols, types, names, rows) =>
      Sized(r) && numCols >= 0 && ColumnsOk(types, names) && RowsOk(types, rows)
    case ExceptionResponse(message, stacktrace) => Fits(message) && Fits(stacktrace)
    case LogResponse(_, text) => Fits(text)
  }

  function ResponseView(r: Response): Message
    requires ResponseOk(r)
  {
    match r
    case CallResponse(numRows, numCols, types, names, rows) =>
      Result(numRows, numCols, TypesView(types), NamesView(names), RowsView(types, rows), None)
    case ExceptionResponse(message, stacktrace) => Exception(Error(NameView(message), NameView(stacktrace)))
    case LogResponse(level, text) => Log(level, NameView(text))
  }

  lemma ResponseSent(r: Response)
    requires ResponseOk(r)
    ensures GoodMsg(ResponseView(r)) && Deliverable(ResponseView(r))
    ensures SendResponse(r) == Some(EncMsg(ResponseView(r)))
  {
    hide Le, EncCString, SendString, EncColumns, EncRows, SendColumns, SendRows, RowOk, Matches, Flat, TypeView, NameView;
    hide GoodType, ShortString, Shallow, Fits;
    match r
    case CallResponse(numRows, numCols, types, names, rows) =>
      ColumnsSent(types, names);
      RowsSent(types, rows);
    case ExceptionResponse(message, stacktrace) =>
      StringSent(message);
      StringSent(stacktrace);
    case LogResponse(_, text) => StringSent(text);
  }

  /** The backend decodes a response of the JVM side as the message it stands for, and not a byte more. */
  lemma ResponseAgrees(r: Response, s: Bytes)
    requires ResponseOk(r)
    ensures SendResponse(r).Some?
    ensures DecMsg(SendResponse(r).value + s) == Got(ResponseView(r), s)
  {
    hide EncMsg, DecMsg, SendResponse;
    ResponseSent(r);
    MessageBack(ResponseView(r), s);
  }

  /** What a function may return for its result to arrive: null, a boxed number, a framed string, bytes, a rectangular array. */
  predicate Returnable(x: RObject, dims: seq<Int32>) {
    && Typed(x)
    && (match x
        case RText(s) => Fits(Some(s))
        case RBytes(b) => |b| <= INT_MAX - 4
        case RArray(primitive, _, _, _) =>
          && primitive && Rect(x, dims) && (forall i | 0 <= i < |dims| :: dims[i] > 0)
          && |dims| <= INT_MAX && IsElement(x.tag) && DataFits(x.tag, Prod(dims))
          && LeavesOk(NewType(x.tag), Leaves(x))
        case ROther => false
        case _ => true)
  }

  /** The value of a function's result, an array by its dimensions and its leaves. */
  function ReturnedValue(x: RObject, dims: seq<Int32>): Value
    requires Returnable(x, dims)
  {
    match x
    case RBytes(b) => Bytea(b)
    case RArray(_, _, _, _) => Array(|dims|, dims, LeavesView(Leaves(x)))
    case _ => LeafView(x)
  }

  lemma {:induction false} SizeFits(acc: int, dims: seq<Int32>)
    requires acc > 0 && (forall i | 0 <= i < |dims| :: dims[i] > 0) && acc * Prod(dims) <= INT_MAX
    ensures SizeFrom(acc, dims).Some?
    decreases |dims|
  {
    if dims != [] {
      var p := Prod(dims[1..]);
      PositiveProduct(dims[1..]);
      assert acc * (dims[0] * p) == acc * dims[0] * p;
      assert acc * dims[0] > 0;
      assert acc * dims[0] * p >= acc * dims[0] by { assert acc * dims[0] * (p - 1) >= 0; }
      SizeFits(acc * dims[0], dims[1..]);
    }
  }

  lemma {:induction false} PositiveProduct(dims: seq<Int32>)
    requires forall i | 0 <= i < |dims| :: dims[i] > 0
    ensures Prod(dims) > 0
  {
    if dims != [] {
      PositiveProduct(dims[1..]);
      assert dims[0] * Prod(dims[1..]) > 0;
    }
  }

  lemma OnlyElements(t: RType, xs: seq<RObject>)
    requires LeavesOk(t, xs)
    ensures forall y | y in xs :: !y.RNull? && !y.RBytes?
  {
    forall y | y in xs ensures !y.RNull? && !y.RBytes? {
      var i :| 0 <= i < |xs| && xs[i] == y;
      assert LeafOk(t, xs[i]);
    }
  }

  lemma ReturnableArray(x: RObject, dims: seq<Int32>)
    requires x.RArray? && Returnable(x, dims)
    ensures ArrayOk(NewType(x.tag), x) && Dimensions(x).value == dims
    ensures forall i | 0 <= i < |dims| :: 0 < dims[i] <= INT_MAX
  {
    hide LeafOk, Leaves, Rect, Dimensions;
    OnlyElements(NewType(x.tag), Leaves(x));
    DimensionsOfRect(x, dims);
    LeavesOfRect(x, dims);
    DimensionsFit(x);
    SizeFits(1, dims);
  }

  // The names of the ten data types, in the order of their tags.
  const TYPE_NAMES: seq<string> :=
    ["boolean", "int2", "int4", "int8", "float4", "float8", "text", "array", "udt", "bytea"]

  lemma NewTypeName(tag: int)
    requires PLC_DATA_INT1 <= tag <= PLC_DATA_BYTEA
    ensures forall i | 0 <= i < |TYPE_NAMES[tag]| :: 0 as char < TYPE_NAMES[tag][i] < 128 as char
    ensures NewType(tag).typeName == Some(Ascii(TYPE_NAMES[tag]))
  {
    hide Ascii;
  }

  lemma NewTypeFits(tag: int)
    requires PLC_DATA_INT1 <= tag <= PLC_DATA_BYTEA
    ensures Fits(NewType(tag).typeName)
  {
    hide Framed, NewType;
    NewTypeName(tag);
    AsciiIsItself(Ascii(TYPE_NAMES[tag]));
  }

  lemma NewTypeIsShallow(tag: int)
    requires PLC_DATA_INT1 <= tag <= PLC_DATA_BYTEA && !IsNested(tag)
    ensures Plain(NewType(tag))
  {
    hide NewType, Fits;
    NewTypeTag(tag);
    NewTypeFits(tag);
  }

  lemma ArrayTypeIsShallow(tag: int)
    requires IsScalar(tag)
    ensures Shallow(NewType(PLC_DATA_ARRAY).(subTypes := [NewType(tag)]))
  {
    hide NewType, Plain, Fits;
    NewTypeIsShallow(tag);
    NewTypeTag(PLC_DATA_ARRAY);
    NewTypeFits(PLC_DATA_ARRAY);
  }

  /** The type announced for a result; a null goes out as text. */
  function ReturnedType(x: RObject, dims: seq<Int32>): RType
    requires Returnable(x, dims)
  {
    if x.RNull? then NewType(PLC_DATA_TEXT) else TypeOf(x).value
  }

  lemma ReturnedCell(x: RObject, dims: seq<Int32>)
    requires Returnable(x, dims)
    ensures Shallow(ReturnedType(x, dims)) && CellOk(ReturnedType(x, dims), x)
    ensures CellView(ReturnedType(x, dims), x) == ReturnedValue(x, dims)
  {
    hide GetBytes, Framed, Leaves, Dimensions, ArrayOk, NewType, Plain;
    match x
    case RNull => NewTypeIsShallow(PLC_DATA_TEXT);
    case RNum(tag, _) => NewTypeIsShallow(tag); NewTypeTag(tag);
    case RText(_) => NewTypeIsShallow(PLC_DATA_TEXT); NewTypeTag(PLC_DATA_TEXT);
    case RBytes(_) => NewTypeIsShallow(PLC_DATA_BYTEA); NewTypeTag(PLC_DATA_BYTEA);
    case RArray(_, tag, _, _) =>
      ArrayTypeIsShallow(tag);
      NewTypeTag(PLC_DATA_ARRAY);
      ReturnableArray(x, dims);
  }

  lemma NewTypeTag(tag: int)
    requires PLC_DATA_INT1 <= tag <= PLC_DATA_BYTEA
    ensures NewType(tag).dataType == tag && NewType(tag).subTypes == []
  {
  }

  predicate Spells(name: CString, s: string) {
    name.Some? && |name.value| == |s| && forall i | 0 <= i < |s| :: name.value[i] == s[i] as int
  }

  predicate IsPlain(w: PlcType, tag: int, name: string) {
    w.tag == tag && w.subTypes == [] && Spells(w.typeName, name)
  }

  lemma NewTypeIsPlain(tag: int)
    requires PLC_DATA_INT1 <= tag <= PLC_DATA_BYTEA
    ensures Spells(NameView(NewType(tag).typeName), TYPE_NAMES[tag])
  {
    hide GetBytes, Framed, Spells, NewType;
    NewTypeName(tag);
    AsciiSpells(TYPE_NAMES[tag]);
  }

  lemma AsciiSpells(s: string)
    requires forall i | 0 <= i < |s| :: 0 as char < s[i] < 128 as char
    ensures Spells(NameView(Some(Ascii(s))), s)
  {
    hide GetBytes, Framed;
    AsciiIsItself(Ascii(s));
  }

  /** The type of the column: that of the result's class, and of its elements' for an array. */
  lemma ReturnedTypeIs(x: RObject, dims: seq<Int32>)
    requires Returnable(x, dims)
    ensures |ReturnedType(x, dims).subTypes| < 0x8000
    ensures var w := TypeView(ReturnedType(x, dims));
      match x
      case RNum(tag, _) => IsPlain(w, tag, TYPE_NAMES[tag])
      case RArray(_, tag, _, _) =>
        && w.tag == 7 && Spells(w.typeName, "array")
        && |w.subTypes| == w.nSubTypes == 1 && IsPlain(w.subTypes[0], tag, TYPE_NAMES[tag])
      case RBytes(_) => IsPlain(w, 9, "bytea")
      case _ => IsPlain(w, 6, "text")
  {
    hide GetBytes, Framed, NewType, Spells, LeavesOk;
    forall tag | PLC_DATA_INT1 <= tag <= PLC_DATA_BYTEA
      ensures NewType(tag).dataType == tag && Spells(NameView(NewType(tag).typeName), TYPE_NAMES[tag])
      ensures NewType(tag).subTypes == []
    {
      NewTypeIsPlain(tag);
      NewTypeTag(tag);
    }
  }

  /**
    From what a function returned to the row the backend receives: one row of one
    column, with the type of the result's class and the result's value.
  */
  lemma ReturnAgrees(name: Option<Units>, x: RObject, dims: seq<Int32>, s: Bytes)
    requires name.Some? && Fits(name) && Returnable(x, dims)
    ensures var r := ResponseTo(name, x);
      && r.Some? && SendResponse(r.value).Some?
      && Shallow(ReturnedType(x, dims))
      && DecMsg(SendResponse(r.value).value + s)
         == Got(Result(1, 1, [TypeView(ReturnedType(x, dims))], [NameView(name)], [[ReturnedValue(x, dims)]], None), s)
  {
    hide SendResponse, DecMsg, Fits, Shallow, CellOk, TypeView, CellView, NameView, ReturnedValue;
    ReturnedCell(x, dims);
    var t := ReturnedType(x, dims);
    var r := CallResponse(1, 1, [t], [name], [[x]]);
    assert RowOk([t], [x]);
    ResponseAgrees(r, s);
    assert TypesView([t]) == [TypeView(t)];
    assert NamesView([name]) == [NameView(name)];
    assert RowView([t], [x]) == [CellView(t, x)];
    assert RowsView([t], [[x]]) == [RowView([t], [x])];
  }
}
