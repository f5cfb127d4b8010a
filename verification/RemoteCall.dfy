/**
  A whole remote procedure call: the backend's sender, the JVM's decoder, the JVM's
  encoder and the backend's receiver, one after the other over one connection.
*/
module RemoteCall {
  import opened Primitives
  import opened Wire
  import opened Transport
  import JavaReader
  import JavaWriter
  import JR = JavaRequests
  import JS = JavaResponses
  import QA = RequestAgreement
  import RA = ResponseAgreement
  import CS = ChannelSend
  import CR = ChannelReceive

  /** A name the JVM side gives back as it was: an ASCII string that is not empty. */
  predicate Echoed(name: CString) {
    && name.Some? && name.value != [] && |name.value| <= INT_MAX - 4
    && (forall i | 0 <= i < |name.value| :: 0 < name.value[i] < 0x80)
  }

  /** The string of ASCII bytes. */
  function FromAscii(b: Bytes): JS.Units { seq(|b|, i requires 0 <= i < |b| => b[i]) }

  lemma AsciiBack(name: CString)
    requires Echoed(name)
    ensures RA.Fits(Some(FromAscii(name.value)))
    ensures RA.NameView(Some(FromAscii(name.value))) == name
  {
    var u := FromAscii(name.value);
    RA.AsciiIsItself(u);
    assert JS.GetBytes(u) == name.value;
  }

  /**
    The JVM side's part: a buffered call becomes one request, and the result of the
    function it names becomes the bytes of a response.
  */
  method Answer(decoder: JavaReader.Decoder, m: Message, x: JS.RObject, dims: seq<Int32>)
    returns (requests: seq<JR.CallRequest>, reply: Bytes)
    requires m.Call? && GoodMsg(m) && QA.JavaCall(m) && Echoed(m.name)
    requires RA.Returnable(x, dims) && decoder.step == JR.WAITING
    modifies decoder
    ensures requests == [QA.RequestView(m)]
    ensures DecMsg(reply) == Got(Returned(m.name, x, dims), [])
  {
    hide DecMsg, GoodMsg, RA.Returnable, QA.JavaCall;
    requests := Understand(decoder, m);
    reply := Respond(requests[0].name, x, dims);
  }

  /** The JVM side decodes a buffered call. */
  method Understand(decoder: JavaReader.Decoder, m: Message) returns (requests: seq<JR.CallRequest>)
    requires m.Call? && GoodMsg(m) && QA.JavaCall(m) && decoder.step == JR.WAITING
    modifies decoder
    ensures requests == [QA.RequestView(m)]
  {
    hide EncMsg, GoodMsg, QA.JavaCall, JR.DecodeAll;
    var arrived := new JavaReader.ByteBuf(EncMsg(m));
    assert EncMsg(m) + [] == EncMsg(m);
    QA.RequestAgrees(decoder.State(), m, []);
    NothingLeft(JR.State(JR.WAITING, QA.RequestView(m), decoder.argNumber));
    var failed: bool;
    requests, failed := decoder.Run(arrived);
  }

  /** The JVM side encodes a result under the name the request came with. */
  method Respond(name: CString, x: JS.RObject, dims: seq<Int32>) returns (reply: Bytes)
    requires Echoed(name) && RA.Returnable(x, dims)
    ensures DecMsg(reply) == Got(Returned(name, x, dims), [])
  {
    hide DecMsg, RA.Returnable, JS.SendResponse;
    ReplyAgrees(name, x, dims);
    var u := Some(FromAscii(name.value));
    var buf := new JavaReader.ByteBuf([]);
    var ok := JavaWriter.Encode(buf, JS.ResponseTo(u, x).value);
    reply := buf.bytes;
    assert reply == JS.SendResponse(JS.ResponseTo(u, x).value).value;
  }

  lemma ReplyAgrees(name: CString, x: JS.RObject, dims: seq<Int32>)
    requires Echoed(name) && RA.Returnable(x, dims)
    ensures JS.Typed(x)
    ensures var r := JS.ResponseTo(Some(FromAscii(name.value)), x);
      && r.Some? && r.value.CallResponse? && JS.Sized(r.value) && JS.SendResponse(r.value).Some?
      && DecMsg(JS.SendResponse(r.value).value) == Got(Returned(name, x, dims), [])
  {
    hide DecMsg, JS.SendResponse, RA.Shallow, RA.ReturnedValue, Echoed;
    AsciiBack(name);
    var u := Some(FromAscii(name.value));
    RA.ReturnAgrees(u, x, dims, []);
    var reply := JS.SendResponse(JS.ResponseTo(u, x).value).value;
    assert reply + [] == reply;
  }

  /** The message the backend receives: one row of one column, named after the function. */
  function Returned(name: CString, x: JS.RObject, dims: seq<Int32>): Message
    requires RA.Returnable(x, dims)
  {
    RA.ReturnedCell(x, dims);
    Result(1, 1, [RA.TypeView(RA.ReturnedType(x, dims))], [name], [[RA.ReturnedValue(x, dims)]], None)
  }

  lemma Apart(conn: PlcConn)
    requires conn.Valid()
    ensures conn.OutRepr() !! conn.InRepr()
  {
  }

  lemma NothingLeft(d: JR.State)
    ensures JR.DecodeAll(d, []) == JR.Outcome(d, [], [], false)
  {
  }

  /** Of the types the JVM side knows, none is unsupported. */
  lemma {:induction false} JavaIsSupported(t: PlcType, v: Value)
    requires QA.JavaType(t) && Matches(t, v)
    ensures CS.Supported(v)
    decreases v
  {
    match v
    case Array(_, _, elems) =>
      forall i | 0 <= i < |elems| ensures CS.Supported(elems[i]) {
        JavaIsSupported(t.subTypes[0], elems[i]);
      }
    case Udt(fields) =>
      forall i | 0 <= i < |fields| ensures CS.Supported(fields[i]) {
        JavaIsSupported(t.subTypes[i], fields[i]);
      }
    case _ =>
  }

  lemma JavaCallIsSupported(m: Message)
    requires m.Call? && GoodMsg(m) && QA.JavaCall(m)
    ensures CS.SupportedMsg(m)
  {
    forall i | 0 <= i < |m.args| ensures CS.Supported(m.args[i].data) {
      assert GoodArgument(m.args[i]) && QA.JavaArgument(m.args[i]);
      JavaIsSupported(m.args[i].typ, m.args[i].data);
    }
  }

  /**
    The call end to end: the send never raises an error and returns 0 exactly when no
    socket write failed; and then, whatever the sizes of the socket's writes and
    reads, the JVM side sees exactly the call, and the backend receives exactly the
    function's result unless a recv fails with bytes waiting.
  */
  method Call(conn: PlcConn, decoder: JavaReader.Decoder, m: Message, x: JS.RObject, dims: seq<Int32>)
    returns (s: CS.Sent, requests: seq<JR.CallRequest>, r: CR.Run<Message>)
    requires conn.Valid() && conn.tx.sent == conn.Appended() && conn.Stream() == []
    requires m.Call? && GoodMsg(m) && QA.JavaCall(m) && Echoed(m.name)
    requires RA.Returnable(x, dims) && decoder.step == JR.WAITING
    modifies conn.OutRepr(), conn.InRepr(), decoder
    ensures s.Ran? && (s.res == 0 <==> conn.tx.faults == old(conn.tx.faults))
    ensures s == CS.Ran(0) ==> requests == [QA.RequestView(m)]
    ensures s == CS.Ran(0) && conn.rx.faults == old(conn.rx.faults) ==>
      && r == CR.Ran(0, Returned(m.name, x, dims))
      && conn.Valid() && conn.Stream() == []
  {
    hide PlcConn.Valid, EncMsg, DecMsg, GoodMsg, RA.Returnable, QA.JavaCall, RA.Shallow, Echoed;
    Apart(conn);
    JavaCallIsSupported(m);
    requests := [];
    s := CS.Send(conn, m);
    if s != CS.Ran(0) {
      return s, requests, CR.Trap;
    }
    assert conn.Stream() == [];
    var reply: Bytes;
    requests, reply := Answer(decoder, m, x, dims);
    conn.Arrive(reply);
    assert conn.Stream() == reply by { assert [] + reply == reply; }
    r := CR.ReceiveMessage(conn);
  }
}
