/** Whole conversations: many messages over one socket, end to end. */
module Conversation {
  import opened Primitives
  import opened Wire
  import opened Transport
  import opened RoundTrip
  import CS = ChannelSend
  import CR = ChannelReceive

  lemma {:induction false} FlatIsSupported(t: PlcType, v: Value)
    requires Matches(t, v) && Flat(t, v)
    ensures CS.Supported(v)
    decreases v
  {
    match v
    case Array(_, _, elems) =>
      forall i | 0 <= i < |elems| ensures CS.Supported(elems[i]) {
        FlatIsSupported(t.subTypes[0], elems[i]);
      }
    case Udt(fields) =>
      forall i | 0 <= i < |fields| ensures CS.Supported(fields[i]) {
        FlatIsSupported(t.subTypes[i], fields[i]);
      }
    case _ =>
  }

  /** What can be delivered can be sent without an error being raised. */
  lemma DeliverableIsSupported(m: Message)
    requires GoodMsg(m) && Deliverable(m)
    ensures CS.SupportedMsg(m)
  {
    if m.Call? {
      forall i | 0 <= i < |m.args| ensures CS.Supported(m.args[i].data) {
        assert GoodArgument(m.args[i]);
        FlatIsSupported(m.args[i].typ, m.args[i].data);
      }
    } else if m.Result? {
      forall i, j | 0 <= i < |m.data| && 0 <= j < |m.types| ensures CS.Supported(m.data[i][j]) {
        FlatIsSupported(m.types[j], m.data[i][j]);
      }
      forall i | 0 <= i < |m.data| ensures CS.SupportedRow(m.data[i]) {
        assert |m.data[i]| == |m.types|;
      }
    }
  }

  predicate Sendable(ms: seq<Message>) {
    forall i | 0 <= i < |ms| :: GoodMsg(ms[i]) && Deliverable(ms[i])
  }

  lemma {:induction false} EncMsgsSnoc(ms: seq<Message>, k: nat)
    requires Sendable(ms) && k < |ms|
    ensures EncMsgs(ms[..k + 1]) == EncMsgs(ms[..k]) + EncMsg(ms[k])
    decreases k
  {
    hide EncMsg, GoodMsg, Deliverable;
    if k == 0 {
      assert ms[..1][1..] == [];
    } else {
      assert ms[..k + 1][1..] == ms[1..][..k];
      assert ms[..k][1..] == ms[1..][..k - 1];
      EncMsgsSnoc(ms[1..], k - 1);
    }
  }

  /** Sends a list of messages, up to the first failure. */
  method SendAll(conn: PlcConn, ms: seq<Message>) returns (r: CS.Sent)
    requires conn.Valid() && Sendable(ms)
    requires conn.tx.sent == conn.Appended()
    modifies conn.OutRepr()
    ensures CS.AppendsOrRaises(conn, r, EncMsgs(ms), true)
    ensures r == CS.Ran(0) ==> conn.tx.sent == conn.Appended()
  {
    hide PlcConn.Valid, EncMsg, Deliverable;
    ghost var a0 := conn.Appended();
    var res := 0;
    for i := 0 to |ms|
      invariant CS.Appends(conn, res, EncMsgs(ms[..i])) && res == 0
      invariant conn.tx.sent == conn.Appended()
    {
      EncMsgsSnoc(ms, i);
      ConcatAssoc(a0, EncMsgs(ms[..i]), EncMsg(ms[i]));
      DeliverableIsSupported(ms[i]);
      var sent := CS.Send(conn, ms[i]);
      res := sent.res;
      if res != 0 {
        return CS.Ran(res);
      }
    }
    assert ms[..|ms|] == ms;
    return CS.Ran(0);
  }

  /** Receives `n` messages, up to the first failure. */
  method ReceiveAll(conn: PlcConn, n: nat) returns (r: CR.Run<seq<Message>>)
    requires conn.Valid()
    modifies conn.InRepr()
    ensures CR.Tells(conn, r, DecMsgs(n, old(conn.Stream())))
  {
    hide PlcConn.Valid, DecMsg;
    ghost var p := DecMsgs(n, conn.Stream());
    var xs: seq<Message> := [];
    CR.PrependNone(p);
    for i := 0 to n
      invariant i == |xs| && CR.Shrinks(conn)
      invariant p == CR.Prepend(xs, DecMsgs(n - i, conn.Stream()))
      invariant conn.rx.faults == old(conn.rx.faults)
    {
      ghost var b := conn.Stream();
      var m :- CR.ReceiveMessage(conn);
      if m.res != 0 {
        return CR.Ran(m.res, xs);
      }
      assert DecMsgs(n - i, b) == CR.Prepend([m.value], DecMsgs(n - i - 1, conn.Stream()));
      CR.PrependOne(xs, m.value, DecMsgs(n - i - 1, conn.Stream()));
      xs := xs + [m.value];
    }
    CR.PrependAll(xs, conn.Stream());
    return CR.Ran(0, xs);
  }

  /**
    End to end.  One side sends a list of messages, the network carries the bytes
    its socket accepted, the other side receives: whatever the sizes of the socket
    writes and reads, once the sends return 0 and no waiting byte is lost to a
    failing recv, the same messages arrive in the same order and no byte is left.
  */
  method Converse(sender: PlcConn, receiver: PlcConn, ms: seq<Message>)
    returns (s: CS.Sent, r: CR.Run<seq<Message>>)
    requires sender.Valid() && receiver.Valid() && Sendable(ms)
    requires sender.OutRepr() !! receiver.InRepr()
    requires sender.OutRepr() !! {receiver.output, receiver.output.data, receiver.tx}
    requires sender.tx.sent == sender.Appended() && receiver.Stream() == []
    modifies sender.OutRepr(), receiver.InRepr()
    ensures s.Ran? && (s.res == 0 <==> sender.tx.faults == old(sender.tx.faults))
    ensures s == CS.Ran(0) && receiver.rx.faults == old(receiver.rx.faults) ==>
      r == CR.Ran(0, AllDelivered(ms)) && receiver.Valid() && receiver.Stream() == []
  {
    hide PlcConn.Valid, PlcConn.Stream, EncMsgs, DecMsgs, GoodMsg, Deliverable;
    var start := |sender.tx.sent|;
    s := SendAll(sender, ms);
    if s != CS.Ran(0) {
      return s, CR.Trap;
    }
    receiver.Arrive(sender.tx.sent[start..]);
    assert receiver.Stream() == EncMsgs(ms) + [];
    MessagesBack(ms, []);
    r := ReceiveAll(receiver, |ms|);
  }
}
