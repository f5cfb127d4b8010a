/** The five-slot, move-to-front cache of function descriptions. */
module FunctionCache {
  import opened Primitives
  import opened Catalog
  import opened Descriptions

  const PLC_FUNCTION_CACHE_SIZE := 5

  /** A heap record: everything but the flag is written once, when it is filled. */
  class ProcInfo {
    const desc: ProcDesc
    var hasChanged: int

    constructor (desc: ProcDesc)
      ensures this.desc == desc && hasChanged == 1
    {
      this.desc := desc;
      hasChanged := 1;
    }
  }

  // ---------------------------------------------------------------------
  // Recency lists
  // ---------------------------------------------------------------------

  /** `l` with every `o` taken out. */
  function Without(l: seq<Oid>, o: Oid): (r: seq<Oid>)
    ensures o !in r && forall x :: x in r <==> x in l && x != o
    ensures |r| <= |l| && (o !in l ==> r == l)
  {
    if l == [] then []
    else if l[0] == o then Without(l[1..], o)
    else [l[0]] + Without(l[1..], o)
  }

  function Take5(l: seq<Oid>): seq<Oid> { if |l| <= PLC_FUNCTION_CACHE_SIZE then l else l[..PLC_FUNCTION_CACHE_SIZE] }

  /** The least-recently-used discipline: the request in front, at most five. */
  function Touch(l: seq<Oid>, o: Oid): seq<Oid> { Take5([o] + Without(l, o)) }

  /** The recency list after a history of requests. */
  function Recent(h: seq<Oid>): seq<Oid> {
    if h == [] then [] else Touch(Recent(h[..|h| - 1]), h[|h| - 1])
  }

  /** The position of the last request for `o`, -1 if there was none. */
  function LastUse(h: seq<Oid>, o: Oid): (k: int)
    ensures -1 <= k < |h|
    ensures k >= 0 <==> o in h
  {
    if h == [] then -1
    else if h[|h| - 1] == o then |h| - 1
    else LastUse(h[..|h| - 1], o)
  }

  predicate Distinct<T(==)>(l: seq<T>) { forall i, j | 0 <= i < j < |l| :: l[i] != l[j] }

  /** Each element was last requested after all that follow it. */
  predicate ByRecency(l: seq<Oid>, h: seq<Oid>) {
    l == [] || ((forall x | x in l[1..] :: LastUse(h, l[0]) > LastUse(h, x)) && ByRecency(l[1..], h))
  }

  /**
    `l` holds the most recently requested functions of `h`, most recent first:
    every other function of `h` was last requested before all of them, and there
    is one only if `l` is full.
  */
  ghost predicate IsLru(l: seq<Oid>, h: seq<Oid>) {
    && |l| <= PLC_FUNCTION_CACHE_SIZE
    && (forall x | x in l :: x in h)
    && ByRecency(l, h)
    && (forall o | o in h && o !in l ::
          |l| == PLC_FUNCTION_CACHE_SIZE && forall x | x in l :: LastUse(h, x) > LastUse(h, o))
  }

  /** Another request does not change the order of the rest. */
  lemma {:induction false} WithoutKeepsOrder(l: seq<Oid>, h: seq<Oid>, o: Oid)
    requires ByRecency(l, h)
    ensures ByRecency(Without(l, o), h + [o])
  {
    if l != [] {
      WithoutKeepsOrder(l[1..], h, o);
      if l[0] != o {
        var t := Without(l[1..], o);
        assert ([l[0]] + t)[1..] == t;
        forall x | x in t ensures LastUse(h + [o], l[0]) > LastUse(h + [o], x) {
          AnotherUse(h, o, x);
          AnotherUse(h, o, l[0]);
        }
      }
    }
  }

  lemma AnotherUse(h: seq<Oid>, o: Oid, x: Oid)
    ensures LastUse(h + [o], x) == if x == o then |h| else LastUse(h, x)
  {
    assert (h + [o])[..|h|] == h;
  }

  /** A list by recency cut anywhere: both parts are, and the first is the more recent. */
  lemma {:induction false} CutByRecency(l: seq<Oid>, h: seq<Oid>, k: nat)
    requires ByRecency(l, h) && k <= |l|
    ensures ByRecency(l[..k], h)
    ensures forall x, y | x in l[..k] && y in l[k..] :: LastUse(h, x) > LastUse(h, y)
    decreases k
  {
    if k > 0 {
      CutByRecency(l[1..], h, k - 1);
      assert l[..k][1..] == l[1..][..k - 1];
      assert l[k..] == l[1..][k - 1..];
      forall x, y | x in l[..k] && y in l[k..] ensures LastUse(h, x) > LastUse(h, y) {
        if x != l[0] {
          assert x in l[1..][..k - 1];
        } else {
          assert y in l[1..];
        }
      }
    }
  }

  lemma {:induction false} WithoutLength(l: seq<Oid>, h: seq<Oid>, o: Oid)
    requires ByRecency(l, h)
    ensures |Without(l, o)| == if o in l then |l| - 1 else |l|
  {
    if l != [] {
      WithoutLength(l[1..], h, o);
    }
  }

  /** One request keeps the characterisation. */
  lemma TouchKeepsLru(l: seq<Oid>, h: seq<Oid>, o: Oid)
    requires IsLru(l, h)
    ensures IsLru(Touch(l, o), h + [o])
  {
    var h', w := h + [o], Without(l, o);
    var full := [o] + w;
    WithoutKeepsOrder(l, h, o);
    WithoutLength(l, h, o);
    AnotherUse(h, o, o);
    forall x | x in w ensures LastUse(h', o) > LastUse(h', x) {
      AnotherUse(h, o, x);
    }
    assert full[1..] == w;
    var k := Min(|full|, PLC_FUNCTION_CACHE_SIZE);
    CutByRecency(full, h', k);
    var t := full[..k];
    assert t == Touch(l, o);
    forall x | x in h' && x !in t
      ensures |t| == PLC_FUNCTION_CACHE_SIZE && forall y | y in t :: LastUse(h', y) > LastUse(h', x)
    {
      assert t[0] == o;
      assert x in h;
      if x in l {
        assert x in full;
        DroppedIsOlder(full, h', x, k);
      } else {
        forall y | y in t ensures LastUse(h', y) > LastUse(h', x) {
          assert y in full;
          OlderThanKept(l, h, o, x, y);
        }
      }
    }
  }

  /** What falls off the end is older than what stays. */
  lemma DroppedIsOlder(full: seq<Oid>, h: seq<Oid>, x: Oid, k: nat)
    requires k <= |full| && x in full && x !in full[..k] && ByRecency(full, h)
    ensures k < |full| && forall y | y in full[..k] :: LastUse(h, y) > LastUse(h, x)
  {
    hide ByRecency, LastUse;
    assert full == full[..k] + full[k..];
    assert x in full[k..];
    CutByRecency(full, h, k);
  }

  lemma OlderThanKept(l: seq<Oid>, h: seq<Oid>, o: Oid, x: Oid, y: Oid)
    requires IsLru(l, h) && x in h && x != o && x !in l && (y == o || y in l)
    ensures LastUse(h + [o], y) > LastUse(h + [o], x)
  {
    AnotherUse(h, o, x);
    AnotherUse(h, o, y);
  }

  /**
    The characterisation of the cache: after any history it holds exactly the most
    recently requested distinct functions, in order of their last request.
  */
  lemma {:induction false} RecentIsLru(h: seq<Oid>)
    ensures IsLru(Recent(h), h)
  {
    if h != [] {
      var k := |h| - 1;
      RecentIsLru(h[..k]);
      TouchKeepsLru(Recent(h[..k]), h[..k], h[k]);
      assert h == h[..k] + [h[k]];
    }
  }

  lemma {:induction false} SizeByRecency(l: seq<Oid>, h: seq<Oid>, s: set<Oid>)
    requires ByRecency(l, h) && forall x | x in l :: x in s
    ensures |l| <= |s|
    ensures (forall x | x in s :: x in l) ==> |l| == |s|
    decreases |l|
  {
    if l == [] {
      assert (forall x | x in s :: x in l) ==> s == {};
    } else {
      SizeByRecency(l[1..], h, s - {l[0]});
      assert l == [l[0]] + l[1..];
    }
  }

  function Requested(h: seq<Oid>): set<Oid> { set o | o in h }

  /** How many functions the cache holds: all of the requested ones, up to five. */
  lemma RecentSize(h: seq<Oid>)
    ensures var n := |Requested(h)|;
      |Recent(h)| == if n < PLC_FUNCTION_CACHE_SIZE then n else PLC_FUNCTION_CACHE_SIZE
  {
    RecentIsLru(h);
    var s := Requested(h);
    SizeByRecency(Recent(h), h, s);
    if |Recent(h)| < PLC_FUNCTION_CACHE_SIZE {
      assert forall x | x in s :: x in Recent(h);
    }
  }

  // ---------------------------------------------------------------------
  // The cache
  // ---------------------------------------------------------------------

  lemma {:induction false} WithoutAt(l: seq<Oid>, k: nat)
    requires Distinct(l) && k < |l|
    ensures Without(l, l[k]) == l[..k] + l[k + 1..]
    decreases k
  {
    if k == 0 {
      assert l[0] !in l[1..];
      assert l[..0] + l[1..] == l[1..];
    } else {
      assert l[0] != l[k];
      assert Distinct(l[1..]);
      WithoutAt(l[1..], k - 1);
      SplitAt(l, k);
    }
  }

  lemma SplitAt<T>(l: seq<T>, k: nat)
    requires 0 < k < |l|
    ensures l[1..][k - 1] == l[k]
    ensures [l[0]] + (l[1..][..k - 1] + l[1..][k..]) == l[..k] + l[k + 1..]
  {
  }

  /** The first `n` slots are taken, the rest are empty. */
  predicate Front(s: seq<ProcInfo?>, n: nat) { n <= |s| && forall i | 0 <= i < |s| :: s[i] != null <==> i < n }

  lemma PromotedFront(was: seq<ProcInfo?>, n: nat, k: nat)
    requires Front(was, n) && k < n
    ensures var now := [was[k]] + was[..k] + was[k + 1..];
      && |now| == |was| && Front(now, n)
      && var oids := OidsOf(was[..n]); OidsOf(now[..n]) == [oids[k]] + (oids[..k] + oids[k + 1..])
  {
    var now := [was[k]] + was[..k] + was[k + 1..];
    assert forall i | 0 <= i < |now| :: now[i] == was[if i == 0 then k else if i <= k then i - 1 else i];
    var oids := OidsOf(was[..n]);
    var moved := [oids[k]] + (oids[..k] + oids[k + 1..]);
    assert forall i | 0 <= i < n :: moved[i] == oids[if i == 0 then k else if i <= k then i - 1 else i];
  }

  lemma PushedFront(was: seq<ProcInfo?>, n: nat, func: ProcInfo)
    requires Front(was, n) && was != []
    ensures var now, m := [func] + was[..|was| - 1], if n < |was| then n + 1 else n;
      && |now| == |was| && Front(now, m)
      && OidsOf(now[..m]) == ([func.desc.funcOid] + OidsOf(was[..n]))[..m]
  {
    var now, m := [func] + was[..|was| - 1], if n < |was| then n + 1 else n;
    assert forall i | 1 <= i < |now| :: now[i] == was[i - 1];
    var pushed := [func.desc.funcOid] + OidsOf(was[..n]);
    assert forall i | 1 <= i < m :: pushed[i] == was[i - 1].desc.funcOid;
  }

  lemma PushedDistinct(l: seq<Oid>, o: Oid)
    requires Distinct(l) && o !in l
    ensures Distinct([o] + l) && Distinct(Take5([o] + l))
  {
  }

  function OidsOf(s: seq<ProcInfo?>): (oids: seq<Oid>)
    requires forall i | 0 <= i < |s| :: s[i] != null
    ensures |oids| == |s| && forall i | 0 <= i < |s| :: oids[i] == s[i].desc.funcOid
  {
    seq(|s|, i requires 0 <= i < |s| => s[i].desc.funcOid)
  }

  ghost function RecordsOf(s: seq<ProcInfo?>): set<ProcInfo> {
    set i | 0 <= i < |s| && s[i] != null :: s[i]
  }

  lemma RecordsOfSum(a: seq<ProcInfo?>, b: seq<ProcInfo?>)
    ensures RecordsOf(a + b) == RecordsOf(a) + RecordsOf(b)
  {
    forall p | p in RecordsOf(a) + RecordsOf(b) ensures p in RecordsOf(a + b) {
      if p in RecordsOf(a) {
        var i :| 0 <= i < |a| && a[i] == p;
        assert (a + b)[i] == p;
      } else {
        var i :| 0 <= i < |b| && b[i] == p;
        assert (a + b)[|a| + i] == p;
      }
    }
  }

  lemma RecordsOfOne(p: ProcInfo?)
    ensures RecordsOf([p]) == if p == null then {} else {p}
  {
    if p != null {
      assert [p][0] in RecordsOf([p]);
    }
  }

  /** A list cut at one entry. */
  lemma RecordsOfCut(s: seq<ProcInfo?>, k: nat)
    requires k < |s|
    ensures RecordsOf(s) == RecordsOf(s[..k]) + RecordsOf([s[k]]) + RecordsOf(s[k + 1..])
  {
    assert s == s[..k] + [s[k]] + s[k + 1..];
    RecordsOfSum(s[..k] + [s[k]], s[k + 1..]);
    RecordsOfSum(s[..k], [s[k]]);
  }

  lemma PromotedRecords(was: seq<ProcInfo?>, k: nat)
    requires k < |was|
    ensures RecordsOf([was[k]] + was[..k] + was[k + 1..]) == RecordsOf(was)
  {
    RecordsOfCut(was, k);
    RecordsOfSum([was[k]] + was[..k], was[k + 1..]);
    RecordsOfSum([was[k]], was[..k]);
  }

  /** Pushing a record in front pushes the last entry out. */
  lemma PushedRecords(was: seq<ProcInfo?>, func: ProcInfo)
    requires was != []
    requires was[|was| - 1] != null ==> was[|was| - 1] !in RecordsOf(was[..|was| - 1])
    ensures var last := was[|was| - 1];
      RecordsOf([func] + was[..|was| - 1]) == {func} + (RecordsOf(was) - (if last == null then {} else {last}))
  {
    var k := |was| - 1;
    RecordsOfCut(was, k);
    RecordsOfOne(was[k]);
    RecordsOfSum([func], was[..k]);
    RecordsOfOne(func);
  }

  lemma Moved(l: seq<Oid>, k: nat)
    requires Distinct(l) && k < |l|
    ensures Distinct([l[k]] + (l[..k] + l[k + 1..]))
  {
    var m := [l[k]] + (l[..k] + l[k + 1..]);
    assert forall i | 0 <= i < |m| :: m[i] == l[if i == 0 then k else if i <= k then i - 1 else i];
  }

  lemma TouchTwice(l: seq<Oid>, o: Oid)
    requires Distinct(l)
    ensures Touch(Touch(l, o), o) == Touch(l, o)
  {
    var t := Touch(l, o);
    assert t[0] == o && t[1..] == ([o] + Without(l, o))[..|t|][1..];
    assert o !in t[1..];
  }

  /** The description passes the validity test. */
  predicate Passes(d: ProcDesc, cat: Snapshot, oid: Oid) {
    oid in cat.procs && ProcedureValid(cat, d, cat.procs[oid]) == Some(true)
  }

  class Cache {
    const slots: array<ProcInfo?>
    var initialized: bool
    ghost var count: nat           // how many slots are taken
    ghost var put: set<ProcInfo>   // every record handed to Put
    ghost var freed: set<ProcInfo> // every record handed to free_proc_info
    ghost var origin: map<ProcInfo, (Snapshot, Option<TupleDesc>)>  // what each record was built from

    constructor ()
      ensures Valid() && fresh(this) && fresh(slots) && Oids() == [] && Coherent({})
    {
      slots := new ProcInfo?[PLC_FUNCTION_CACHE_SIZE](_ => null);
      initialized := false;
      count, put, freed, origin := 0, {}, {}, map[];
    }

    /** Taken slots in front, no function twice. */
    ghost predicate Shaped()
      reads this, slots
    {
      && slots.Length == PLC_FUNCTION_CACHE_SIZE && count <= PLC_FUNCTION_CACHE_SIZE
      && (forall i | 0 <= i < PLC_FUNCTION_CACHE_SIZE :: slots[i] != null <==> i < count)
      && Distinct(Oids())
    }

    /** The records owned are exactly the records in the slots; none of them is freed. */
    ghost predicate Valid()
      reads this, slots
    {
      && Shaped()
      && (!initialized ==> count == 0)
      && freed <= put && put - freed == Records()
    }

    ghost function Oids(): seq<Oid>
      reads this, slots
      requires slots.Length == PLC_FUNCTION_CACHE_SIZE && count <= PLC_FUNCTION_CACHE_SIZE
      requires forall i | 0 <= i < count :: slots[i] != null
    {
      OidsOf(slots[..count])
    }

    ghost function Records(): set<ProcInfo>
      reads this, slots
    {
      RecordsOf(slots[..])
    }

    /** Each cached record is what some snapshot in `seen` gave. */
    ghost predicate Coherent(seen: set<Snapshot>)
      reads this, slots
    {
      forall p | p in Records() ::
        && p in origin && origin[p].0 in seen && WellFormed(origin[p].0)
        && Build(origin[p].0, origin[p].1, p.desc.funcOid) == Some(p.desc)
    }

    /** function_cache_up */
    method Up(index: nat)
      requires slots.Length == PLC_FUNCTION_CACHE_SIZE && index < PLC_FUNCTION_CACHE_SIZE
      modifies slots
      ensures slots[..] == [old(slots[index])] + old(slots[..index]) + old(slots[index + 1..])
    {
      if index > 0 {
        var tmp := slots[index];
        var i := index;
        while i > 0
          invariant 0 <= i <= index
          invariant forall k | 0 <= k <= i :: slots[k] == old(slots[k])
          invariant forall k | i < k <= index :: slots[k] == old(slots[k - 1])
          invariant forall k | index < k < PLC_FUNCTION_CACHE_SIZE :: slots[k] == old(slots[k])
        {
          slots[i] := slots[i - 1];
          i := i - 1;
        }
        slots[0] := tmp;
      }
    }

    /** function_cache_get: a hit moves the entry to the front. */
    method Get(funcOid: Oid) returns (r: ProcInfo?)
      requires Valid()
      modifies slots, this`initialized
      ensures Valid() && initialized && Records() == old(Records())
      ensures r != null <==> funcOid in old(Oids())
      ensures r != null ==> count > 0 && slots[0] == r && r.desc.funcOid == funcOid
      ensures Oids() == if r != null then Touch(old(Oids()), funcOid) else old(Oids())
    {
      ghost var oids, records := Oids(), Records();
      if !initialized {
        Clear();
      }
      for i := 0 to PLC_FUNCTION_CACHE_SIZE
        invariant Valid() && initialized && Oids() == oids && Records() == records
        invariant forall k | 0 <= k < i && k < count :: oids[k] != funcOid
      {
        if slots[i] != null && slots[i].desc.funcOid == funcOid {
          r := slots[i];
          PromoteEntry(i);
          return r;
        }
      }
      return null;
    }

    /** The first use of the cache empties it; it is empty already. */
    method Clear()
      requires Valid() && !initialized
      modifies slots, this`initialized
      ensures Valid() && initialized && Oids() == old(Oids()) && Records() == old(Records())
    {
      for i := 0 to PLC_FUNCTION_CACHE_SIZE
        invariant forall k | 0 <= k < PLC_FUNCTION_CACHE_SIZE :: slots[k] == null
      {
        slots[i] := null;
      }
      initialized := true;
    }

    /** function_cache_up on a taken slot. */
    method PromoteEntry(k: nat)
      requires Valid() && initialized && k < count
      modifies slots
      ensures Valid() && Records() == old(Records())
      ensures slots[0] == old(slots[k]) && Oids() == Touch(old(Oids()), old(slots[k].desc.funcOid))
    {
      hide Distinct, RecordsOf, Without;
      ghost var oids, was := Oids(), slots[..];
      assert Front(was, count);
      assert was[..count] == slots[..count];
      PromotedRecords(was, k);
      PromotedFront(was, count, k);
      WithoutAt(oids, k);
      Moved(oids, k);
      Up(k);
      assert slots[..] == [was[k]] + was[..k] + was[k + 1..];
      FrontOids();
    }

    /** The slots as a list. */
    lemma FrontOids()
      requires slots.Length == PLC_FUNCTION_CACHE_SIZE && Front(slots[..], count)
      ensures forall i | 0 <= i < PLC_FUNCTION_CACHE_SIZE :: slots[i] != null <==> i < count
      ensures Oids() == OidsOf(slots[..][..count])
    {
      assert forall i | 0 <= i < PLC_FUNCTION_CACHE_SIZE :: slots[i] == slots[..][i];
      assert slots[..][..count] == slots[..count];
    }

    /** free_proc_info: the record must be owned and not freed before. */
    method FreeProcInfo(p: ProcInfo)
      requires p in put && p !in freed
      modifies this`freed
      ensures freed == old(freed) + {p}
    {
      freed := freed + {p};
    }

    /** The branch of function_cache_put for a function that is not cached. */
    method PutNew(func: ProcInfo)
      requires Valid() && initialized && func !in put && func.desc.funcOid !in Oids()
      modifies this`count, this`put, this`freed, slots
      ensures Valid() && put == old(put) + {func} && old(freed) <= freed
      ensures count > 0 && slots[0] == func
      ensures Oids() == Take5([func.desc.funcOid] + old(Oids()))
      ensures Records() <= old(Records()) + {func}
    {
      hide Distinct, RecordsOf, Without;
      ghost var was, oids := slots[..], Oids();
      assert Front(was, count);
      assert was[..count] == slots[..count];
      LastIsAlone();
      PushedRecords(was, func);
      PushedFront(was, count, func);
      PushedDistinct(oids, func.desc.funcOid);
      if slots[PLC_FUNCTION_CACHE_SIZE - 1] != null {
        FreeProcInfo(slots[PLC_FUNCTION_CACHE_SIZE - 1]);
      }
      MoveRight();
      slots[0] := func;
      put := put + {func};
      count := if count < PLC_FUNCTION_CACHE_SIZE then count + 1 else count;
      assert slots[..] == [func] + was[..PLC_FUNCTION_CACHE_SIZE - 1];
      FrontOids();
      assert Oids() == Take5([func.desc.funcOid] + oids);
    }

    /** The shift that makes room in slot 0. */
    method MoveRight()
      requires slots.Length == PLC_FUNCTION_CACHE_SIZE
      modifies slots
      ensures slots[1..] == old(slots[..PLC_FUNCTION_CACHE_SIZE - 1])
    {
      ghost var was := slots[..];
      var i := PLC_FUNCTION_CACHE_SIZE - 1;
      while i > 0
        invariant 0 <= i < PLC_FUNCTION_CACHE_SIZE
        invariant forall k | 0 <= k <= i :: slots[k] == was[k]
        invariant forall k | i < k < PLC_FUNCTION_CACHE_SIZE :: slots[k] == was[k - 1]
      {
        slots[i] := slots[i - 1];
        i := i - 1;
      }
    }

    /** The record in the last slot is in no other. */
    lemma LastIsAlone()
      requires Shaped()
      ensures slots[PLC_FUNCTION_CACHE_SIZE - 1] != null ==>
        && slots[PLC_FUNCTION_CACHE_SIZE - 1] in Records()
        && slots[PLC_FUNCTION_CACHE_SIZE - 1] !in RecordsOf(slots[..][..PLC_FUNCTION_CACHE_SIZE - 1])
    {
      var last := PLC_FUNCTION_CACHE_SIZE - 1;
      if slots[last] != null {
        assert forall i | 0 <= i < last :: Oids()[i] != Oids()[last];
      }
    }

    /** The branch for a function whose old record Get has brought to the front. */
    method Replace(oldFunc: ProcInfo, func: ProcInfo)
      requires Valid() && func !in put && count > 0
      requires slots[0] == oldFunc && oldFunc.desc.funcOid == func.desc.funcOid
      modifies this`put, this`freed, slots
      ensures Valid() && put == old(put) + {func} && freed == old(freed) + {oldFunc}
      ensures slots[0] == func && Oids() == old(Oids())
      ensures Records() == old(Records()) - {oldFunc} + {func}
    {
      ghost var was, oids := slots[..], Oids();
      assert forall i | 0 < i < count :: oids[i] != oids[0];
      RecordsOfCut(was, 0);
      RecordsOfOne(oldFunc);
      RecordsOfOne(func);
      assert oldFunc !in RecordsOf(was[1..]);
      FreeProcInfo(oldFunc);
      slots[0] := func;
      put := put + {func};
      assert slots[1..] == was[1..];
      RecordsOfCut(slots[..], 0);
      assert Oids() == oids;
    }

    /**
      function_cache_put of a record not put before.  Valid() says that what was
      put and not freed is what the slots hold; the record freed is the one pushed
      out, or the previous one for the same function.
    */
    method Put(func: ProcInfo)
      requires Valid() && func !in put
      modifies this`initialized, this`count, this`put, this`freed, slots
      ensures Valid() && put == old(put) + {func} && old(freed) <= freed
      ensures count > 0 && slots[0] == func
      ensures Oids() == Touch(old(Oids()), func.desc.funcOid)
      ensures Records() <= old(Records()) + {func}
    {
      var oldFunc := Get(func.desc.funcOid);
      if oldFunc == null {
        PutNew(func);
      } else {
        Replace(oldFunc, func);
      }
    }

    /**
      get_proc_info; null when an error is raised, which happens only when the
      function cannot be described.  A cached record is reused, with its flag
      cleared, exactly when it passes the validity test, which is when neither the
      function nor a relation its types hang on has been written since the record was
      built; otherwise one is built anew.
      What is returned is what would be built from `cat` now, except that a reused
      record which depends on the calling query must have been built for a query
      expecting the same row.
    */
    method GetProcInfo(cat: Snapshot, call: Option<TupleDesc>, procoid: Oid, ghost seen: set<Snapshot>)
      returns (r: ProcInfo?)
      requires Valid() && WellFormed(cat) && Coherent(seen) && forall c | c in seen :: Pins(c, cat)
      modifies this`initialized, this`count, this`put, this`freed, this`origin, slots, Records()
      ensures Valid() && Coherent(seen + {cat})
      ensures Build(cat, call, procoid).Some? ==> r != null
      ensures r != null ==> procoid in cat.procs
      ensures forall p | p in old(Records()) && p.desc.funcOid == procoid ::
        && (r == p <==> Passes(p.desc, cat, procoid))
        && p in old(origin) && (r == p <==> Unchanged(old(origin)[p].0, cat, procoid))
      ensures r != null ==> r in Records() && r.desc.funcOid == procoid && Oids() == Touch(old(Oids()), procoid)
      ensures r == null ==> Oids() == old(Oids()) || Oids() == Touch(old(Oids()), procoid)
      ensures r != null ==> r.hasChanged == if r in old(Records()) then 0 else 1
      ensures forall p | p in old(Records()) && p != r :: p.hasChanged == old(p.hasChanged)
      ensures Records() <= old(Records()) + (if r == null then {} else {r})
      ensures forall p | p in old(Records()) :: p in origin && origin[p] == old(origin[p])
      ensures r != null && r !in old(Records()) ==> fresh(r) && r in origin && origin[r] == (cat, call)
      ensures r != null && Build(cat, call, procoid).Some? ==>
        && r in origin
        && (Some(r.desc) == Build(cat, call, procoid) <==>
              (r.hasChanged == 0 && DependsOnCall(r.desc) ==>
                 CallsAgree(origin[r].0, origin[r].1, cat, call)))
    {
      hide Unchanged, Build, ProcedureValid, CallsAgree, DependsOnCall, Touch, WellFormed, Pins;
      NoProcedure(cat, call, procoid);
      PassesIfUnchanged(cat, procoid, seen);
      if procoid !in cat.procs {
        return null;
      }
      ghost var oids := Oids();
      OneForEach(procoid);
      var pinfo := Get(procoid);
      assert pinfo != null ==> pinfo in Records();
      var valid := Some(false);
      if pinfo != null {
        valid := PlcProcedureValid(cat, pinfo.desc, cat.procs[procoid]);
      }
      if valid.None? {
        ErrorIsDue(origin[pinfo].0, origin[pinfo].1, cat, call, procoid);
        return null;
      }
      if !valid.value {
        TouchTwice(oids, procoid);
        r := Rebuild(cat, call, procoid, seen);
      } else {
        r := pinfo;
        r.hasChanged := 0;
        if Build(cat, call, procoid).Some? {
          ReuseIsFresh(origin[r].0, origin[r].1, cat, call, procoid);
        }
      }
    }

    /** A cached record passes the test exactly when nothing it hangs on has been written since it was built. */
    lemma PassesIfUnchanged(cat: Snapshot, procoid: Oid, seen: set<Snapshot>)
      requires Coherent(seen)
      ensures forall p | p in Records() && p.desc.funcOid == procoid ::
        p in origin && (Passes(p.desc, cat, procoid) <==> Unchanged(origin[p].0, cat, procoid))
    {
      hide Build, ProcedureValid, Unchanged, WellFormed, FirstChangeIsGone;
      forall p | p in Records() && p.desc.funcOid == procoid
        ensures Passes(p.desc, cat, procoid) <==> Unchanged(origin[p].0, cat, procoid)
      {
        if procoid in cat.procs {
          ValidIffUnchanged(origin[p].0, origin[p].1, cat, procoid);
        } else {
          NotUnchanged(origin[p].0, cat, procoid);
        }
      }
    }

    /** No two cached records are of the same function; the listed functions are those of the records. */
    lemma OneForEach(oid: Oid)
      requires Shaped()
      ensures forall p, q | p in Records() && q in Records() && p.desc.funcOid == oid && q.desc.funcOid == oid :: p == q
      ensures forall p | p in Records() :: p.desc.funcOid in Oids()
      ensures oid in Oids() ==> exists p :: p in Records() && p.desc.funcOid == oid
    {
      if oid in Oids() {
        var i :| 0 <= i < count && Oids()[i] == oid;
        assert slots[..][i] in Records();
      }
      forall p | p in Records() ensures exists i :: 0 <= i < count && slots[i] == p && Oids()[i] == p.desc.funcOid {
        var i :| 0 <= i < |slots[..]| && slots[..][i] == p;
        assert slots[i] == p && slots[..count][i] == p;
      }
    }

    /** The rebuild path: a fresh record replaces whatever was cached for the function. */
    method Rebuild(cat: Snapshot, call: Option<TupleDesc>, procoid: Oid, ghost seen: set<Snapshot>)
      returns (r: ProcInfo?)
      requires Valid() && WellFormed(cat) && Coherent(seen) && procoid in cat.procs
      modifies this`initialized, this`count, this`put, this`freed, this`origin, slots
      ensures Valid() && Coherent(seen + {cat})
      ensures forall p | p in old(Records()) && p in old(origin) :: p in origin && origin[p] == old(origin[p])
      ensures r == null ==> Build(cat, call, procoid).None? && Oids() == old(Oids()) && Records() == old(Records())
      ensures r != null ==>
        && fresh(r) && r.hasChanged == 1 && r.desc.funcOid == procoid && Some(r.desc) == Build(cat, call, procoid)
        && r in Records() && r in origin && origin[r] == (cat, call)
        && Oids() == Touch(old(Oids()), procoid) && Records() <= old(Records()) + {r}
    {
      hide FillType, FillTypes, ArgNames, Touch;
      var desc := Build(cat, call, procoid);
      if desc.None? {
        return null;
      }
      r := new ProcInfo(desc.value);
      Put(r);
      assert slots[..][0] == r;
      origin := origin[r := (cat, call)];
    }
  }

  datatype Request = Request(cat: Snapshot, call: Option<TupleDesc>, oid: Oid)

  function RequestOids(reqs: seq<Request>): seq<Oid> {
    seq(|reqs|, i requires 0 <= i < |reqs| => reqs[i].oid)
  }

  /** The catalog over time: stamps are never reused for different content. */
  predicate History(reqs: seq<Request>) {
    && (forall i | 0 <= i < |reqs| :: WellFormed(reqs[i].cat))
    && (forall i, j | 0 <= i < j < |reqs| :: Pins(reqs[i].cat, reqs[j].cat))
  }

  /**
    What the i-th request was answered with.  An error is raised only when the
    function cannot be described.  Otherwise the answer was built for request `k`, at
    or before the i-th and for the same function; the flag is 0 exactly when it is a
    reused one; and it is what the catalog describes now exactly when it does not
    depend on the calling query or the two queries expect the same row.
  */
  ghost predicate Answered(p: ProcInfo?, flag: int, reqs: seq<Request>, i: nat, k: nat)
    requires k <= i < |reqs|
  {
    var q, built := reqs[i], reqs[k];
    && (Build(q.cat, q.call, q.oid).Some? ==> p != null)
    && (p != null ==>
          && built.oid == q.oid && Build(built.cat, built.call, q.oid) == Some(p.desc)
          && flag == (if k < i then 0 else 1)
          && (Build(q.cat, q.call, q.oid).Some? ==>
                (Some(p.desc) == Build(q.cat, q.call, q.oid) <==>
                   (flag == 0 && DependsOnCall(p.desc) ==> CallsAgree(built.cat, built.call, q.cat, q.call)))))
  }

  lemma NoProcedure(cat: Snapshot, call: Option<TupleDesc>, oid: Oid)
    ensures Build(cat, call, oid).Some? ==> oid in cat.procs
  {
  }

  /** Record `p` was built for an earlier request. */
  ghost predicate BuiltFor(cache: Cache, p: ProcInfo, reqs: seq<Request>, i: nat)
    requires i <= |reqs|
    reads cache
  {
    p in cache.origin && exists k | 0 <= k < i :: BuiltBy(cache.origin[p], p.desc, reqs[k])
  }

  predicate BuiltBy(from: (Snapshot, Option<TupleDesc>), d: ProcDesc, q: Request) {
    from == (q.cat, q.call) && q.oid == d.funcOid
  }

  lemma RecentStep(reqs: seq<Request>, i: nat)
    requires i < |reqs|
    ensures Recent(RequestOids(reqs[..i + 1])) == Touch(Recent(RequestOids(reqs[..i])), reqs[i].oid)
  {
    hide Touch;
    assert RequestOids(reqs[..i + 1])[..i] == RequestOids(reqs[..i]);
  }

  lemma NoRequests()
    ensures Recent(RequestOids([])) == []
  {
  }

  /** A cached record answers the request as it stands. */
  ghost predicate Hit(cache: Cache, q: Request)
    reads cache, cache.slots
  {
    exists r :: r in cache.Records() && Usable(r, q)
  }

  predicate Usable(r: ProcInfo, q: Request) {
    r.desc.funcOid == q.oid && Passes(r.desc, q.cat, q.oid)
  }

  /** The function is among the most recently requested ones, and its last answer still passes the test. */
  ghost predicate Reusable(answers: seq<ProcInfo?>, reqs: seq<Request>, i: nat)
    requires i <= |answers| && i < |reqs|
  {
    var h, o := RequestOids(reqs[..i]), reqs[i].oid;
    && o in Recent(h) && 0 <= LastUse(h, o) < i
    && answers[LastUse(h, o)] != null && Usable(answers[LastUse(h, o)], reqs[i])
  }

  /**
    The same in terms of the catalog: the function is among the most recently
    requested ones, and neither it nor a relation its types hang on has been written
    since its last answer was built.
  */
  predicate StillCurrent(built: seq<nat>, reqs: seq<Request>, i: nat)
    requires i <= |built| && i < |reqs|
  {
    var h, o := RequestOids(reqs[..i]), reqs[i].oid;
    && o in Recent(h) && 0 <= LastUse(h, o) < i
    && built[LastUse(h, o)] < |reqs| && Unchanged(reqs[built[LastUse(h, o)]].cat, reqs[i].cat, o)
  }

  lemma {:induction false} LastUseAsksForIt(h: seq<Oid>, o: Oid)
    ensures LastUse(h, o) >= 0 ==> h[LastUse(h, o)] == o
  {
    if h != [] && h[|h| - 1] != o {
      LastUseAsksForIt(h[..|h| - 1], o);
    }
  }

  /** A request's last answer passes the test exactly when nothing it hangs on has been written. */
  lemma ReusableIffCurrent(answers: seq<ProcInfo?>, flags: seq<int>, built: seq<nat>, reqs: seq<Request>, i: nat)
    requires |answers| == |flags| == |built| == |reqs| && i < |reqs| && History(reqs)
    requires NoError(answers) && AllAnswered(answers, flags, built, reqs)
    ensures Reusable(answers, reqs, i) <==> StillCurrent(built, reqs, i)
  {
    hide Recent, Build, ProcedureValid, Unchanged, WellFormed, Pins, DependsOnCall, CallsAgree, FirstChangeIsGone, LastUse;
    var h, q := RequestOids(reqs[..i]), reqs[i];
    var j := LastUse(h, q.oid);
    LastUseAsksForIt(h, q.oid);
    if 0 <= j < i {
      var k := built[j];
      assert Answered(answers[j], flags[j], reqs, j, k);
      BuiltDescribes(reqs[k].cat, reqs[k].call, q.oid, answers[j].desc);
      if q.oid in q.cat.procs {
        ValidIffUnchanged(reqs[k].cat, reqs[k].call, q.cat, q.oid);
      } else {
        NotUnchanged(reqs[k].cat, q.cat, q.oid);
      }
    }
  }

  lemma NotUnchanged(c1: Snapshot, c2: Snapshot, oid: Oid)
    requires oid !in c2.procs
    ensures !Unchanged(c1, c2, oid)
  {
  }

  /** The record is the last answer for its function. */
  ghost predicate Latest(r: ProcInfo, answers: seq<ProcInfo?>, reqs: seq<Request>, i: nat)
    requires i <= |answers| && i <= |reqs|
  {
    var k := LastUse(RequestOids(reqs[..i]), r.desc.funcOid);
    0 <= k < i && answers[k] == r
  }

  /** In an error-free run the cache is hit exactly when the last answer can be reused. */
  lemma HitIsReusable(cache: Cache, answers: seq<ProcInfo?>, reqs: seq<Request>, i: nat)
    requires cache.Valid() && i <= |answers| && i < |reqs|
    requires cache.Oids() == Recent(RequestOids(reqs[..i]))
    requires forall r | r in cache.Records() :: Latest(r, answers, reqs, i)
    ensures Hit(cache, reqs[i]) <==> Reusable(answers, reqs, i)
  {
    hide Recent, RequestOids, LastUse, ProcedureValid, Distinct;
    cache.OneForEach(reqs[i].oid);
    if Hit(cache, reqs[i]) {
      var r :| r in cache.Records() && Usable(r, reqs[i]);
      assert Latest(r, answers, reqs, i);
    }
    if Reusable(answers, reqs, i) {
      var r :| r in cache.Records() && r.desc.funcOid == reqs[i].oid;
      assert Latest(r, answers, reqs, i);
      assert Usable(r, reqs[i]);
    }
  }

  /** An answer is the latest of its function, and the others stay the latest of theirs. */
  lemma StillLatest(r: ProcInfo, answers: seq<ProcInfo?>, p: ProcInfo, reqs: seq<Request>, i: nat)
    requires i == |answers| < |reqs|
    requires if r.desc.funcOid == reqs[i].oid then r == p else Latest(r, answers, reqs, i)
    ensures Latest(r, answers + [p], reqs, i + 1)
  {
    hide LastUse;
    assert RequestOids(reqs[..i + 1]) == RequestOids(reqs[..i]) + [reqs[i].oid];
    AnotherUse(RequestOids(reqs[..i]), reqs[i].oid, r.desc.funcOid);
  }

  /** What can be reused does not depend on later answers. */
  lemma ReusableIsStable(answers: seq<ProcInfo?>, p: ProcInfo?, reqs: seq<Request>, k: nat)
    requires k <= |answers| && k < |reqs|
    ensures Reusable(answers, reqs, k) <==> Reusable(answers + [p], reqs, k)
  {
    hide Recent, RequestOids, LastUse, Usable;
  }

  /** One request of a run; `k` is the request its answer was built for. */
  method ServeOne(cache: Cache, reqs: seq<Request>, i: nat, ghost seen: set<Snapshot>)
    returns (p: ProcInfo?, flag: int, ghost k: nat)
    requires i < |reqs| && cache.Valid() && cache.Coherent(seen) && History(reqs)
    requires forall c | c in seen :: Pins(c, reqs[i].cat)
    requires forall r | r in cache.Records() :: BuiltFor(cache, r, reqs, i)
    modifies cache, cache.slots, cache.Records()
    ensures cache.Valid() && cache.Coherent(seen + {reqs[i].cat})
    ensures k <= i && Answered(p, flag, reqs, i, k)
    ensures forall r | r in cache.Records() :: BuiltFor(cache, r, reqs, i + 1)
    ensures forall r | r in cache.Records() :: r in old(cache.Records()) || fresh(r)
    ensures p != null ==> cache.Oids() == Touch(old(cache.Oids()), reqs[i].oid)
    ensures p != null ==> (flag == 0 <==> old(Hit(cache, reqs[i])))
    ensures p != null ==> p.desc.funcOid == reqs[i].oid && p in cache.Records()
    ensures forall r | r in cache.Records() :: r in old(cache.Records()) || r == p
  {
    hide Build, DependsOnCall, CallsAgree, Touch, WellFormed, Pins, Distinct, ProcedureValid;
    var q := reqs[i];
    ghost var hit := Hit(cache, q);
    p := cache.GetProcInfo(q.cat, q.call, q.oid, seen);
    k, flag := i, 1;
    if p != null {
      flag := p.hasChanged;
      if p in old(cache.Records()) {
        k :| 0 <= k < i && BuiltBy(cache.origin[p], p.desc, reqs[k]);
      }
      assert BuiltBy(cache.origin[p], p.desc, reqs[k]);
      assert p in old(cache.Records()) ==> Usable(p, q);
    }
    forall r | r in cache.Records() ensures BuiltFor(cache, r, reqs, i + 1) {
      if r in old(cache.Records()) {
        ghost var j :| 0 <= j < i && BuiltBy(cache.origin[r], r.desc, reqs[j]);
        assert BuiltBy(cache.origin[r], r.desc, reqs[j]);
      }
    }
  }

  /** An error-free run so far: the functions cached, the records cached, and the reuses. */
  ghost predicate Sound(cache: Cache, answers: seq<ProcInfo?>, flags: seq<int>, reqs: seq<Request>)
    requires cache.Valid() && |answers| == |flags| <= |reqs|
    reads cache, cache.slots
  {
    && cache.Oids() == Recent(RequestOids(reqs[..|answers|]))
    && (forall r | r in cache.Records() :: Latest(r, answers, reqs, |answers|))
    && (forall k | 0 <= k < |answers| :: flags[k] == 0 <==> Reusable(answers, reqs, k))
  }

  lemma SoundStep(cache: Cache, answers: seq<ProcInfo?>, flags: seq<int>, p: ProcInfo, flag: int, reqs: seq<Request>)
    requires cache.Valid() && |answers| == |flags| < |reqs|
    requires var i := |answers|;
      && cache.Oids() == Touch(Recent(RequestOids(reqs[..i])), reqs[i].oid)
      && p.desc.funcOid == reqs[i].oid && p in cache.Records()
      && (forall r | r in cache.Records() && r != p :: Latest(r, answers, reqs, i))
      && (flag == 0 <==> Reusable(answers, reqs, i))
    requires forall k | 0 <= k < |answers| :: flags[k] == 0 <==> Reusable(answers, reqs, k)
    ensures Sound(cache, answers + [p], flags + [flag], reqs)
  {
    hide Cache.Valid, Reusable, Latest, Recent, RequestOids, Touch;
    var i := |answers|;
    RecentStep(reqs, i);
    assert cache.Shaped() by { ValidIsShaped(cache); }
    cache.OneForEach(reqs[i].oid);
    forall r | r in cache.Records() ensures Latest(r, answers + [p], reqs, i + 1) {
      StillLatest(r, answers, p, reqs, i);
    }
    forall k | 0 <= k <= i ensures (flags + [flag])[k] == 0 <==> Reusable(answers + [p], reqs, k) {
      ReusableIsStable(answers, p, reqs, k);
    }
  }

  lemma ValidIsShaped(cache: Cache)
    requires cache.Valid()
    ensures cache.Shaped()
  {
  }

  /**
    Runs: over any interleaving of catalog changes and requests every request is
    answered as it should be.  If no request raised an error, a request reuses a record
    exactly when its function is among the most recently requested ones and the last
    answer for it still passes the test, and the cache holds the most recently
    requested functions, in order.
  */
  method Serve(cache: Cache, reqs: seq<Request>)
    returns (answers: seq<ProcInfo?>, flags: seq<int>, ghost built: seq<nat>)
    requires cache.Valid() && cache.Oids() == [] && cache.Records() == {} && History(reqs)
    modifies cache, cache.slots
    ensures cache.Valid() && |answers| == |flags| == |built| == |reqs|
    ensures forall i | 0 <= i < |reqs| :: built[i] <= i && Answered(answers[i], flags[i], reqs, i, built[i])
    ensures NoError(answers) ==>
      && cache.Oids() == Recent(RequestOids(reqs)) && IsLru(cache.Oids(), RequestOids(reqs))
      && (forall i | 0 <= i < |reqs| :: flags[i] == 0 <==> Reusable(answers, reqs, i))
      && (forall i | 0 <= i < |reqs| :: flags[i] == 0 <==> StillCurrent(built, reqs, i))
  {
    hide StillCurrent, Build, DependsOnCall, CallsAgree, Touch, WellFormed, Pins, IsLru, Recent, RequestOids, Distinct, Answered, BuiltFor;
    hide Hit, Usable, Reusable, Latest, LastUse, Sound, AllAnswered, Seen;
    answers, flags, built := [], [], [];
    ghost var seen: set<Snapshot> := {};
    SoundStart(cache, reqs);
    for i := 0 to |reqs|
      invariant cache.Valid() && cache.Coherent(seen) && |answers| == |flags| == |built| == i
      invariant fresh(cache.Records())
      invariant forall r | r in cache.Records() :: BuiltFor(cache, r, reqs, i)
      invariant Seen(seen, reqs, i) && AllAnswered(answers, flags, built, reqs)
      invariant NoError(answers) ==> Sound(cache, answers, flags, reqs)
    {
      SeenPins(seen, reqs, i);
      ghost var k;
      var p, flag;
      p, flag, k := ServeNext(cache, answers, flags, reqs, i, seen);
      SeenMore(seen, reqs, i);
      OneMoreAnswered(answers, flags, built, p, flag, k, reqs);
      seen := seen + {reqs[i].cat};
      answers, flags, built := answers + [p], flags + [flag], built + [k];
    }
    SoundEnd(cache, answers, flags, built, reqs);
  }

  predicate NoError(answers: seq<ProcInfo?>) { forall k | 0 <= k < |answers| :: answers[k] != null }

  /** The snapshots seen are those of the requests so far. */
  predicate Seen(seen: set<Snapshot>, reqs: seq<Request>, i: nat)
    requires i <= |reqs|
  {
    forall c | c in seen :: exists k | 0 <= k < i :: reqs[k].cat == c
  }

  lemma SeenPins(seen: set<Snapshot>, reqs: seq<Request>, i: nat)
    requires i < |reqs| && History(reqs) && Seen(seen, reqs, i)
    ensures forall c | c in seen :: Pins(c, reqs[i].cat)
  {
    hide Pins, WellFormed;
  }

  lemma SeenMore(seen: set<Snapshot>, reqs: seq<Request>, i: nat)
    requires i < |reqs| && Seen(seen, reqs, i)
    ensures Seen(seen + {reqs[i].cat}, reqs, i + 1)
  {
  }

  ghost predicate AllAnswered(answers: seq<ProcInfo?>, flags: seq<int>, built: seq<nat>, reqs: seq<Request>)
    requires |answers| == |flags| == |built| <= |reqs|
  {
    forall k | 0 <= k < |answers| :: built[k] <= k && Answered(answers[k], flags[k], reqs, k, built[k])
  }

  lemma OneMoreAnswered(answers: seq<ProcInfo?>, flags: seq<int>, built: seq<nat>, p: ProcInfo?, flag: int, k: nat, reqs: seq<Request>)
    requires |answers| == |flags| == |built| < |reqs| && AllAnswered(answers, flags, built, reqs)
    requires k <= |answers| && Answered(p, flag, reqs, |answers|, k)
    ensures AllAnswered(answers + [p], flags + [flag], built + [k], reqs)
  {
    hide Answered;
  }

  lemma SoundStart(cache: Cache, reqs: seq<Request>)
    requires cache.Valid() && cache.Oids() == [] && cache.Records() == {}
    ensures Sound(cache, [], [], reqs) && Seen({}, reqs, 0) && AllAnswered([], [], [], reqs)
  {
    assert RequestOids(reqs[..0]) == [];
  }

  lemma SoundEnd(cache: Cache, answers: seq<ProcInfo?>, flags: seq<int>, built: seq<nat>, reqs: seq<Request>)
    requires cache.Valid() && |answers| == |flags| == |built| == |reqs| && History(reqs)
    requires AllAnswered(answers, flags, built, reqs)
    requires NoError(answers) ==> Sound(cache, answers, flags, reqs)
    ensures forall i | 0 <= i < |reqs| :: built[i] <= i && Answered(answers[i], flags[i], reqs, i, built[i])
    ensures NoError(answers) ==>
      && cache.Oids() == Recent(RequestOids(reqs)) && IsLru(cache.Oids(), RequestOids(reqs))
      && (forall i | 0 <= i < |reqs| :: flags[i] == 0 <==> Reusable(answers, reqs, i))
      && (forall i | 0 <= i < |reqs| :: flags[i] == 0 <==> StillCurrent(built, reqs, i))
  {
    hide StillCurrent, History, Answered, Reusable, Latest, Recent, RequestOids, IsLru;
    assert reqs[..|reqs|] == reqs;
    RecentIsLru(RequestOids(reqs));
    if NoError(answers) {
      forall i | 0 <= i < |reqs| ensures Reusable(answers, reqs, i) <==> StillCurrent(built, reqs, i) {
        ReusableIffCurrent(answers, flags, built, reqs, i);
      }
    }
  }

  /** One request of a run, and what it does to an error-free run. */
  method ServeNext(cache: Cache, ghost answers: seq<ProcInfo?>, ghost flags: seq<int>, reqs: seq<Request>, i: nat,
                   ghost seen: set<Snapshot>)
    returns (p: ProcInfo?, flag: int, ghost k: nat)
    requires i == |answers| == |flags| < |reqs| && cache.Valid() && cache.Coherent(seen) && History(reqs)
    requires forall c | c in seen :: Pins(c, reqs[i].cat)
    requires forall r | r in cache.Records() :: BuiltFor(cache, r, reqs, i)
    requires NoError(answers) ==> Sound(cache, answers, flags, reqs)
    modifies cache, cache.slots, cache.Records()
    ensures cache.Valid() && cache.Coherent(seen + {reqs[i].cat})
    ensures k <= i && Answered(p, flag, reqs, i, k)
    ensures forall r | r in cache.Records() :: BuiltFor(cache, r, reqs, i + 1)
    ensures forall r | r in cache.Records() :: r in old(cache.Records()) || fresh(r)
    ensures NoError(answers + [p]) ==> Sound(cache, answers + [p], flags + [flag], reqs)
  {
    hide Build, DependsOnCall, CallsAgree, Touch, WellFormed, Pins, Recent, RequestOids, Distinct, Answered, BuiltFor;
    hide Hit, Usable, Reusable, Latest, LastUse;
    if NoError(answers) {
      HitIsReusable(cache, answers, reqs, i);
    }
    p, flag, k := ServeOne(cache, reqs, i, seen);
    if NoError(answers + [p]) {
      assert p == (answers + [p])[i] && forall j | 0 <= j < i :: (answers + [p])[j] == answers[j];
      SoundStep(cache, answers, flags, p, flag, reqs);
    }
  }
}
