/**
  A function called end to end: its description from the cache or the catalog, the
  request, both codecs, the connection, and the result.
*/
module Invocation {
  import opened Primitives
  import opened Wire
  import opened Transport
  import opened Catalog
  import opened Descriptions
  import opened TypeIO
  import opened TypeIn
  import opened Calls
  import FunctionCache
  import JavaReader
  import RemoteCall
  import QA = RequestAgreement
  import RA = ResponseAgreement
  import JR = JavaRequests
  import JS = JavaResponses
  import CS = ChannelSend
  import CR = ChannelReceive

  /** The function neither takes nor returns record, or an array of it. */
  predicate NoRecord(cat: Snapshot, row: ProcRow) {
    !NamesRecord(cat, row.prorettype) && forall i | 0 <= i < |row.proargtypes| :: !NamesRecord(cat, row.proargtypes[i])
  }

  /** Every argument is one the JVM side can represent. */
  predicate AllHeld(cat: Snapshot, call: Option<TupleDesc>, oid: Oid, args: seq<Datum>)
    requires Callable(cat, call, oid, args)
  {
    forall i | 0 <= i < |args| :: JvmHolds(Build(cat, call, oid).value.argtypes[i], args[i])
  }

  lemma {:induction false} RecordStaysNamed(c1: Snapshot, call1: Option<TupleDesc>, c2: Snapshot, oids: seq<Oid>, i: nat)
    requires Pins(c1, c2) && FillTypes(c1, call1, oids).Some? && i < |oids| && oids[i] in c2.types
    ensures NamesRecord(c1, oids[i]) <==> NamesRecord(c2, oids[i])
    decreases i
  {
    hide FillInner;
    if i == 0 {
      TypeStaysNamed(c1, call1, c2, oids[0]);
    } else {
      RecordStaysNamed(c1, call1, c2, oids[1..], i - 1);
    }
  }

  lemma TypeStaysNamed(c1: Snapshot, call1: Option<TupleDesc>, c2: Snapshot, oid: Oid)
    requires Pins(c1, c2) && FillType(c1, call1, oid).Some? && oid in c2.types
    ensures NamesRecord(c1, oid) <==> NamesRecord(c2, oid)
  {
  }

  /** A description that is still valid depends on its calling query only if the function names record now. */
  lemma StillNoRecord(c1: Snapshot, call1: Option<TupleDesc>, c2: Snapshot, call2: Option<TupleDesc>, oid: Oid)
    requires WellFormed(c1) && WellFormed(c2) && Pins(c1, c2) && Unchanged(c1, c2, oid)
    requires Build(c1, call1, oid).Some? && Build(c2, call2, oid).Some? && NoRecord(c2, c2.procs[oid])
    ensures !DependsOnCall(Build(c1, call1, oid).value)
  {
    var row := c2.procs[oid];
    assert c1.procs[oid] == row;
    DependsIfItNamesRecord(c1, call1, oid);
    BuiltDescribes(c2, call2, oid, Build(c2, call2, oid).value);
    hide WellFormed, Unchanged, FillInner, NamesRecord, ArgNames, DependsOnCall;
    TypeStaysNamed(c1, call1, c2, row.prorettype);
    forall i | 0 <= i < |row.proargtypes| ensures !NamesRecord(c1, row.proargtypes[i]) {
      RecordStaysNamed(c1, call1, c2, row.proargtypes, i);
    }
  }

  /** The description the backend uses, cached or not, is the one of the catalog as it is now. */
  method Describe(cache: FunctionCache.Cache, ghost seen: set<Snapshot>, cat: Snapshot, call: Option<TupleDesc>, oid: Oid)
    returns (p: FunctionCache.ProcInfo)
    requires cache.Valid() && cache.Coherent(seen) && WellFormed(cat) && forall c | c in seen :: Pins(c, cat)
    requires Build(cat, call, oid).Some? && NoRecord(cat, cat.procs[oid])
    modifies cache, cache.slots, cache.Records()
    ensures cache.Valid() && cache.Coherent(seen + {cat})
    ensures Some(p.desc) == Build(cat, call, oid)
    ensures p.hasChanged == if p in old(cache.Records()) then 0 else 1
    ensures forall q | q in old(cache.Records()) && q.desc.funcOid == oid ::
      q in old(cache.origin) && (p == q <==> Unchanged(old(cache.origin)[q].0, cat, oid))
  {
    hide WellFormed, Pins, Build, DependsOnCall, NoRecord, Unchanged;
    ghost var records, origin := cache.Records(), cache.origin;
    p := cache.GetProcInfo(cat, call, oid, seen);
    if p in records {
      StillNoRecord(origin[p].0, origin[p].1, cat, call, oid);
    }
  }

  /**
    A function called end to end.  Whether its description comes from the cache or is
    built anew, and however the socket cuts the bytes, the JVM side is handed exactly
    one request: for the function as the catalog has it now, on these arguments, with
    the flag set exactly when the description is new; and the backend receives exactly
    the result.
  */
  method Invoke(cache: FunctionCache.Cache, conn: PlcConn, decoder: JavaReader.Decoder, ghost seen: set<Snapshot>,
                cat: Snapshot, call: Option<TupleDesc>, oid: Oid, args: seq<Datum>, x: JS.RObject, dims: seq<Int32>)
    returns (p: FunctionCache.ProcInfo?, s: CS.Sent, requests: seq<JR.CallRequest>, r: CR.Run<Message>)
    requires cache.Valid() && cache.Coherent(seen) && forall c | c in seen :: Pins(c, cat)
    requires conn.Valid() && conn.tx.sent == conn.Appended() && conn.Stream() == [] && decoder.step == JR.WAITING
    requires Callable(cat, call, oid, args) && AllHeld(cat, call, oid, args) && NoRecord(cat, cat.procs[oid])
    requires RemoteCall.Echoed(cat.procs[oid].proname) && RA.Returnable(x, dims)
    modifies cache, cache.slots, cache.Records(), conn.OutRepr(), conn.InRepr(), decoder
    ensures cache.Valid() && cache.Coherent(seen + {cat})
    ensures p != null && s.Ran? && (s.res == 0 <==> conn.tx.faults == old(conn.tx.faults))
    ensures s == CS.Ran(0) ==>
      && |requests| == 1
      && IsRequestOf(requests[0], cat, call, oid, if p in old(cache.Records()) then 0 else 1, args)
    ensures s == CS.Ran(0) && conn.rx.faults == old(conn.rx.faults) ==>
      && r == CR.Ran(0, RemoteCall.Returned(cat.procs[oid].proname, x, dims))
      && conn.Valid() && conn.Stream() == []
  {
    hide PlcConn.Valid, FunctionCache.Cache.Valid, WellFormed, Pins, Build, IsRequestOf, RA.Returnable, RemoteCall.Echoed;
    hide Callable, AllHeld, NoRecord, FunctionCache.Cache.Coherent, CreateCall, ArgumentsFit, RemoteCall.Returned;
    CallablePart(cat, call, oid, args);
    p := Describe(cache, seen, cat, call, oid);
    s, requests, r := CallDescribed(conn, decoder, cat, call, oid, p.desc, p.hasChanged, args, x, dims);
  }

  lemma CallablePart(cat: Snapshot, call: Option<TupleDesc>, oid: Oid, args: seq<Datum>)
    requires Callable(cat, call, oid, args)
    ensures oid in cat.procs && Build(cat, call, oid).Some? && WellFormed(cat)
  {
  }

  /** The call itself, once the function is described. */
  method CallDescribed(conn: PlcConn, decoder: JavaReader.Decoder, cat: Snapshot, call: Option<TupleDesc>, oid: Oid,
                       d: ProcDesc, hasChanged: Int32, args: seq<Datum>, x: JS.RObject, dims: seq<Int32>)
    returns (s: CS.Sent, requests: seq<JR.CallRequest>, r: CR.Run<Message>)
    requires conn.Valid() && conn.tx.sent == conn.Appended() && conn.Stream() == [] && decoder.step == JR.WAITING
    requires Callable(cat, call, oid, args) && AllHeld(cat, call, oid, args) && Some(d) == Build(cat, call, oid)
    requires RemoteCall.Echoed(cat.procs[oid].proname) && RA.Returnable(x, dims)
    modifies conn.OutRepr(), conn.InRepr(), decoder
    ensures s.Ran? && (s.res == 0 <==> conn.tx.faults == old(conn.tx.faults))
    ensures s == CS.Ran(0) ==> |requests| == 1 && IsRequestOf(requests[0], cat, call, oid, hasChanged, args)
    ensures s == CS.Ran(0) && conn.rx.faults == old(conn.rx.faults) ==>
      && r == CR.Ran(0, RemoteCall.Returned(cat.procs[oid].proname, x, dims))
      && conn.Valid() && conn.Stream() == []
  {
    hide PlcConn.Valid, WellFormed, Pins, Build, IsRequestOf, GoodMsg, QA.JavaCall, QA.RequestView, RA.Returnable;
    hide RemoteCall.Echoed, Callable, AllHeld, NoRecord, RemoteCall.Returned;
    CallFacts(cat, call, oid, hasChanged, args);
    var m := CreateCall(d, hasChanged, args);
    s, requests, r := RemoteCall.Call(conn, decoder, m, x, dims);
  }

  lemma CallFacts(cat: Snapshot, call: Option<TupleDesc>, oid: Oid, hasChanged: Int32, args: seq<Datum>)
    requires Callable(cat, call, oid, args) && AllHeld(cat, call, oid, args)
    ensures oid in cat.procs && Build(cat, call, oid).Some? && WellFormed(cat)
    ensures var d := Build(cat, call, oid).value;
      && ArgumentsFit(d, args) && d.funcOid < 0x1_0000_0000
      && var m := CreateCall(d, hasChanged, args);
         && m == CallFor(cat, call, oid, hasChanged, args)
         && GoodMsg(m) && QA.JavaCall(m) && m.name == cat.procs[oid].proname
         && IsRequestOf(QA.RequestView(m), cat, call, oid, hasChanged, args)
  {
    CallIsJava(cat, call, oid, hasChanged, args);
    ViewIsRequest(cat, call, oid, hasChanged, args);
    BuiltDescribes(cat, call, oid, Build(cat, call, oid).value);
  }
}
