// The write side and the frame engine together: what the peer reads from the bytes that
// a connection has written.
module ConnectionStream {
  import opened Bytes
  import opened Frame
  import opened OneShot
  import opened ConnectionSpec
  import opened ConnectionRuns
  import opened ServerConnection
  import Masking
  import Sender
  import Reassembly
  import Utf8
  import WireBytes

  /** The bytes of the buffers given to the transport, header and payload in turn. */
  function BytesOf(msgs: seq<Msg>): seq<byte>
    decreases |msgs|
  {
    if msgs == [] then [] else msgs[0].header + msgs[0].payload + BytesOf(msgs[1..])
  }

  // ------------------------------------------------- any legal frames

  ghost predicate FramesOf(msgs: seq<Msg>, fs: seq<Sender.Outgoing>) {
    && |msgs| == |fs| && Sender.Sized(fs)
    && forall i :: 0 <= i < |fs| ==> FrameOf(msgs[i], fs[i])
  }

  predicate FrameOf(m: Msg, f: Sender.Outgoing)
    requires |f.payload| < TWO_64
  {
    Sender.Ready(m.header, m.payload) == Sender.Encoded(f.op, f.fin, f.payload, f.key)
  }

  lemma {:induction false} BytesAreWire(msgs: seq<Msg>, fs: seq<Sender.Outgoing>)
    requires FramesOf(msgs, fs)
    ensures BytesOf(msgs) == Sender.WireOf(fs)
    decreases |fs|
  {
    hide Sender.Encoded;
    if fs != [] {
      BytesAreWire(msgs[1..], fs[1..]);
    }
  }

  lemma {:induction false} LegalPrefix(c: Config, data: Option<Assembly>, fs: seq<Sender.Outgoing>, k: nat)
    requires k <= |fs| && Sender.Legal(c, data, fs)
    ensures Sender.Legal(c, data, fs[..k])
    decreases k
  {
    hide Sender.Welcome, Rejected, Utf8.Valid;
    if k > 0 {
      LegalPrefix(c, Sender.Next(data, fs[0]), fs[1..], k - 1);
      assert fs[..k][1..] == fs[1..][..k - 1];
    }
  }

  /** In every run that pushes the frames of a legal stream, the peer reads from the bytes
      written so far the messages that the frames written spell. */
  lemma WrittenIsRead(u: Setup, trace: seq<Connection>, events: seq<Event>, i: nat, c: Config, fs: seq<Sender.Outgoing>)
    requires IsRun(u, trace, events) && i < |trace|
    requires FramesOf(trace[i].w.pushed, fs) && Sender.Legal(c, None, fs)
    ensures |trace[i].w.written| <= |fs|
    ensures Parse(c, None, BytesOf(trace[i].w.written)) ==
            Outcome(Reassembly.Assemble(None, Sender.Infos(fs[..|trace[i].w.written|])), None)
  {
    hide Parse, IsRun, Sender.Legal, FrameOf;
    WriteSafety(u, trace, events, i);
    var w := trace[i].w;
    var sent := fs[..|w.written|];
    assert forall j :: 0 <= j < |w.written| ==> w.written[j] == w.pushed[j];
    BytesAreWire(w.written, sent);
    LegalPrefix(c, None, fs, |w.written|);
    Sender.StreamRoundTrip(c, None, sent);
  }

  // ----------------------------- the frames that the connection prepares

  /** m is what prepare_data_frame or prepare_control makes of the message on a server. */
  predicate PreparedFrom(m: Msg, message: Message, limit: uint64) {
    && |message.payload| <= limit
    && Sender.Ready(m.header, m.payload) ==
       if IsControl(message.opcode) then Sender.ControlFrame(true, message.opcode, message.payload, Masking.NO_KEY)
       else Sender.DataFrame(true, message.opcode, true, message.payload, Masking.NO_KEY)
  }

  ghost predicate AllPrepared(msgs: seq<Msg>, messages: seq<Message>, limit: uint64) {
    && |msgs| == |messages|
    && forall i :: 0 <= i < |msgs| ==> PreparedFrom(msgs[i], messages[i], limit)
  }

  /** The opcodes that a connection sends. */
  predicate Sendable(messages: seq<Message>) {
    forall i :: 0 <= i < |messages| ==> messages[i].opcode in {TEXT, BINARY, CLOSE, PING, PONG}
  }

  lemma {:induction false} PreparedIsRead(c: Config, msgs: seq<Msg>, messages: seq<Message>)
    requires !c.isServer && AllPrepared(msgs, messages, c.maxMessageSize) && Sendable(messages)
    ensures Parse(c, None, BytesOf(msgs)) == Outcome(messages, None)
    decreases |msgs|
  {
    hide Parse, PreparedFrom, Delivers;
    if msgs == [] {
      Sender.NothingFollows(c, None);
    } else {
      PreparedIsRead(c, msgs[1..], messages[1..]);
      OnePrepared(c, msgs[0], messages[0], BytesOf(msgs[1..]));
      assert messages == [messages[0]] + messages[1..];
    }
  }

  lemma OnePrepared(c: Config, m: Msg, message: Message, rest: seq<byte>)
    requires !c.isServer && PreparedFrom(m, message, c.maxMessageSize)
    requires message.opcode in {TEXT, BINARY, CLOSE, PING, PONG}
    ensures Parse(c, None, m.header + m.payload + rest) == Prepend([message], Parse(c, None, rest))
  {
    hide Parse, Sender.DataFrame, Sender.ControlFrame, Utf8.WellFormed;
    if IsControl(message.opcode) {
      Sender.ControlRoundTrip(c, None, message.opcode, message.payload, Masking.NO_KEY);
    } else {
      Sender.DataRoundTrip(c, message.opcode, message.payload, Masking.NO_KEY);
    }
    assert [] + rest == rest;
  }

  /** In every run whose pushed messages are prepared by the processor, the peer reads
      from the bytes written exactly the messages written, a prefix of those pushed. */
  lemma WrittenIsDelivered(u: Setup, trace: seq<Connection>, events: seq<Event>, i: nat, c: Config,
                           messages: seq<Message>)
    requires IsRun(u, trace, events) && i < |trace| && !c.isServer
    requires AllPrepared(trace[i].w.pushed, messages, c.maxMessageSize) && Sendable(messages)
    ensures |trace[i].w.written| <= |messages|
    ensures Parse(c, None, BytesOf(trace[i].w.written)) == Outcome(messages[..|trace[i].w.written|], None)
  {
    hide Parse, IsRun, PreparedFrom;
    WriteSafety(u, trace, events, i);
    var w := trace[i].w;
    assert forall j :: 0 <= j < |w.written| ==> w.written[j] == w.pushed[j];
    PreparedIsRead(c, w.written, messages[..|w.written|]);
  }

  /** The message that send pushes, if it can be prepared. */
  function PreparedMessage(op: Opcode, payload: seq<byte>): Option<Msg>
    requires |payload| < TWO_64
  {
    match Sender.DataFrame(true, op, true, payload, Masking.NO_KEY)
    case Refused(_) => None
    case Ready(header, body) => Some(Msg(header, body, false))
  }

  /** It is refused exactly when it is a control message or invalid text. */
  lemma PreparedMessageIs(op: Opcode, payload: seq<byte>, limit: uint64)
    requires |payload| <= limit
    ensures var m := PreparedMessage(op, payload);
      && (m.Some? <==> !IsControl(op) && (op == TEXT ==> Utf8.WellFormed(payload)))
      && (m.Some? ==> PreparedFrom(m.value, Message(op, payload), limit))
  {
    hide Utf8.WellFormed, Utf8.Valid, Sender.Encoded;
    Utf8.ValidIffWellFormed(payload);
  }

  lemma PreparedMessageBytes(op: Opcode, payload: seq<byte>)
    requires |payload| < TWO_64
    ensures var p, m := Sender.DataFrame(true, op, true, payload, Masking.NO_KEY), PreparedMessage(op, payload);
      && (p.Ready? ==> m == Some(Msg(p.header, p.payload, false))) && (p.Refused? ==> m == None)
    ensures var m := PreparedMessage(op, payload);
      m.Some? ==> m.value.header + m.value.payload == WireBytes.FrameBytes(0x80 + op, payload, None)
  {
    hide Sender.Encoded, WireBytes.FrameBytes, Utf8.Valid;
    WireBytes.EncodedBytes(op, true, payload, None);
  }

  /** What sending does to an open connection if there is a message, and not otherwise. */
  lemma SendOutcome(c: Connection, prepared: Option<Msg>)
    ensures var d := ConnectionSpec.Send(c, prepared);
      if c.l.state == Open && prepared.Some? then
        && d.w.pushed == c.w.pushed + [prepared.value] && d.w.queue == c.w.queue + [prepared.value]
        && (d.w.writeFlag || d.w.dispatches > c.w.dispatches)
      else d == c
  {
  }

  /** process_control_frame for a ping: on an open connection, if the handler agrees, pong
      sends the payload back. */
  method ReceivePing(connection: ServerConnection, payload: seq<byte>, shouldReply: bool)
    requires |payload| <= 125
    modifies connection
    ensures if old(connection.state) == Open && shouldReply then
              && |connection.pushed| == |old(connection.pushed)| + 1
              && connection.pushed[..|old(connection.pushed)|] == old(connection.pushed)
              && (var m := connection.pushed[|old(connection.pushed)|];
                  m.header + m.payload == [0x8A, |payload|] + payload && !m.terminal)
              && (connection.writeFlag || connection.dispatches > old(connection.dispatches))
            else connection.View() == old(connection.View())
  {
    hide ConnectionSpec.Send, Sender.ControlFrame;
    if shouldReply && connection.state == Open {
      var pong := Sender.PrepareControl(true, 10, payload, Masking.NO_KEY);
      WireBytes.ShortControlPrepared(10, payload, Masking.NO_KEY);
      var m := Msg(pong.header, pong.payload, false);
      SendOutcome(connection.View(), Some(m));
      connection.Send(Some(m));
    }
  }

  /** send: the state check, prepare_data_frame, and the push with its dispatch. */
  method SendMessage(connection: ServerConnection, op: Opcode, payload: seq<byte>) returns (sent: bool)
    requires |payload| < TWO_64
    modifies connection
    ensures sent <==> old(connection.state) == Open && op < 8 && (op == 1 ==> Utf8.WellFormed(payload))
    ensures sent ==> |connection.pushed| == |old(connection.pushed)| + 1
    ensures sent ==> connection.pushed[..|old(connection.pushed)|] == old(connection.pushed)
    ensures sent ==>
              var m := connection.pushed[|old(connection.pushed)|];
              && PreparedFrom(m, Message(op, payload), |payload|) && !m.terminal
              && m.header + m.payload == WireBytes.FrameBytes(0x80 + op, payload, None)
    ensures sent ==> connection.queue != []
    ensures sent ==> connection.writeFlag || connection.dispatches > old(connection.dispatches)
    ensures !sent ==> connection.View() == old(connection.View())
    ensures connection.View() == ConnectionSpec.Send(old(connection.View()), PreparedMessage(op, payload))
  {
    hide ConnectionSpec.Send, Sender.DataFrame, Utf8.WellFormed, PreparedFrom, PreparedMessage, WireBytes.FrameBytes;
    SendOutcome(connection.View(), PreparedMessage(op, payload));
    PreparedMessageIs(op, payload, |payload|);
    PreparedMessageBytes(op, payload);
    if connection.state != Open {
      return false;
    }
    var prepared := Sender.PrepareDataFrame(true, op, true, payload, Masking.NO_KEY);
    match prepared
    case Refused(_) => sent := false;
    case Ready(header, body) =>
      connection.Send(Some(Msg(header, body, false)));
      sent := true;
  }
}
