// The closing handshake of a server connection with its codes and reasons: what close
// sends, what is answered to a received close, and what the peer reads of both.
module CloseHandshake {
  import opened Bytes
  import opened Frame
  import opened OneShot
  import opened ConnectionSpec
  import opened ServerConnection
  import opened CloseCodes
  import Masking
  import Sender
  import Utf8
  import WireBytes

  /** prepare_close on a server: the frame, or nothing if it is refused. */
  function PreparedClose(code: Code, reason: seq<byte>): Option<Msg> {
    match ClosePayload(code, reason)
    case Refused(_) => None
    case Payload(bytes) =>
      match Sender.ControlFrame(true, CLOSE, bytes, Masking.NO_KEY)
      case Refused(_) => None
      case Ready(header, body) => Some(Msg(header, body, false))
  }

  /** The frame exists exactly if its payload does, and a peer reads that payload. */
  lemma PreparedCloseIsRead(c: Config, data: Option<Assembly>, code: Code, reason: seq<byte>)
    requires !c.isServer
    ensures var m := PreparedClose(code, reason);
      && (m.Some? <==> ClosePayload(code, reason).Payload?)
      && (m.Some? ==> Delivers(c, data, m.value.header + m.value.payload,
                               [Message(CLOSE, ClosePayload(code, reason).bytes)], data, []))
  {
    hide Delivers, Sender.ControlFrame;
    if ClosePayload(code, reason).Payload? {
      CloseReadBack(code, reason);
      Sender.ControlRoundTrip(c, data, CLOSE, ClosePayload(code, reason).bytes, Masking.NO_KEY);
    }
  }

  /** prepare_close as it is called. */
  method PrepareClose(code: Code, reason: seq<byte>) returns (prepared: Option<Msg>)
    ensures prepared == PreparedClose(code, reason)
  {
    hide Sender.ControlFrame;
    var payload := ClosePayload(code, reason);
    if payload.Refused? {
      return None;
    }
    var frame := Sender.PrepareControl(true, CLOSE, payload.bytes, Masking.NO_KEY);
    match frame
    case Refused(_) => prepared := None;
    case Ready(header, body) => prepared := Some(Msg(header, body, false));
  }

  // ------------------------------------------------------------------- close

  /** The code and reason that close sends: the blank code stands for none at all. */
  function Sent(code: Code, reason: seq<byte>): (Code, seq<byte>) {
    if code == BLANK then (NO_STATUS, []) else (code, Cut(reason))
  }

  /** The frame of a close on a server, by its bytes: 0x88, the length, the code and the
      reason; the message is terminal for the five codes after which nothing can follow. */
  predicate CloseFrame(m: Msg, code: Code, reason: seq<byte>) {
    && m.header + m.payload ==
         (if code in {0, 1005} then [0x88, 0] else [0x88, 2 + |reason|] + [code / 0x100, code % 0x100] + reason)
    && (m.terminal <==> code in {1002, 1007, 1008, 1009, 1011})
  }

  lemma PreparedCloseBytes(code: Code, reason: seq<byte>)
    requires PreparedClose(Sent(code, reason).0, Sent(code, reason).1).Some?
    ensures var m := PreparedClose(Sent(code, reason).0, Sent(code, reason).1).value;
      CloseFrame(m.(terminal := Terminal(code)), code, reason[..Min(|reason|, 123)])
  {
    hide Sender.ControlFrame;
    var (sentCode, sentReason) := Sent(code, reason);
    PayloadByNumber(sentCode, sentReason);
    var p := ClosePayload(sentCode, sentReason).bytes;
    WireBytes.ShortControlPrepared(8, p, Masking.NO_KEY);
    TerminalByNumber(code);
  }

  lemma SentIs(code: Code, reason: seq<byte>)
    ensures Sent(code, reason) ==
            if code == BLANK then (NO_STATUS, []) else (code, reason[..Min(|reason|, REASON_SIZE)])
  {
  }

  lemma SentByNumber(code: Code, reason: seq<byte>)
    ensures ClosePayload(Sent(code, reason).0, Sent(code, reason).1).Payload? <==>
            code == 0 || MayBeSent(code) || (code == 1005 && reason == [])
  {
    PayloadByNumber(Sent(code, reason).0, Sent(code, reason).1);
  }

  /** What a close that can be prepared does to an open connection, and any other to none. */
  lemma CloseOutcome(c: Connection, prepared: Option<Msg>, terminal: bool)
    ensures var d := ConnectionSpec.Close(c, prepared, terminal);
      if c.l.state == Open && prepared.Some? then
        d.l.state == Closing && d.w.pushed == c.w.pushed + [prepared.value.(terminal := terminal)]
      else d == c
  {
  }

  /** close: the cut, the state check, and send_close_frame. */
  method CloseWith(connection: ServerConnection, code: Code, reason: seq<byte>) returns (ok: bool)
    modifies connection
    ensures connection.View() == ConnectionSpec.Close(old(connection.View()),
                                   PreparedClose(Sent(code, reason).0, Sent(code, reason).1), Terminal(code))
    ensures ok == (old(connection.state) == Open && ClosePayload(Sent(code, reason).0, Sent(code, reason).1).Payload?)
    ensures ok <==> old(connection.state) == Open && (code == 0 || MayBeSent(code) || (code == 1005 && reason == []))
    ensures !ok ==> connection.View() == old(connection.View())
    ensures ok ==> connection.state == Closing && |connection.pushed| == |old(connection.pushed)| + 1
    ensures ok ==> connection.pushed[..|old(connection.pushed)|] == old(connection.pushed)
    ensures ok ==> CloseFrame(connection.pushed[|old(connection.pushed)|], code, reason[..Min(|reason|, 123)])
  {
    hide PreparedClose, ConnectionSpec.SendCloseFrame, ConnectionSpec.Close, ClosePayload, CloseFrame, MayBeSent, Sent,
      Terminal;
    ghost var (sentCode, sentReason) := Sent(code, reason);
    SentIs(code, reason);
    SentByNumber(code, reason);
    CloseOutcome(connection.View(), PreparedClose(sentCode, sentReason), Terminal(code));
    PreparedCloseIsRead(Config(false, 0), None, sentCode, sentReason);
    if PreparedClose(sentCode, sentReason).Some? {
      PreparedCloseBytes(code, reason);
    }
    var cut := reason[..Min(|reason|, REASON_SIZE)];
    if connection.state != Open {
      return false;
    }
    var localCode, localReason := code, cut;
    if code == BLANK {
      localCode, localReason := NO_STATUS, [];
    }
    var prepared := PrepareClose(localCode, localReason);
    var error := connection.Close(prepared, 0, Terminal(code));
    ok := error == Success;
  }

  /** What the peer reads of a close with a code: the code, and the reason up to the cut,
      which is an error to it exactly if the reason was no UTF-8 or is cut inside a
      character. */
  lemma CloseArrives(c: Config, data: Option<Assembly>, code: Code, reason: seq<byte>)
    requires !c.isServer && PreparedClose(Sent(code, reason).0, Sent(code, reason).1).Some?
    ensures var m := PreparedClose(Sent(code, reason).0, Sent(code, reason).1).value;
      exists p :: Delivers(c, data, m.header + m.payload, [Message(CLOSE, p)], data, [])
        && ExtractCode(p) == (Sent(code, reason).0, None) && ExtractReason(p) == Sent(code, reason).1
    ensures Utf8.WellFormed(reason) && code != BLANK ==>
      (Utf8.WellFormed(Sent(code, reason).1) <==> |reason| <= REASON_SIZE || !Utf8.IsTail(reason[REASON_SIZE]))
  {
    hide Delivers, PreparedClose, ClosePayload, Utf8.WellFormed, ExtractCode, ExtractReason;
    var (sentCode, sentReason) := Sent(code, reason);
    PreparedCloseIsRead(c, data, sentCode, sentReason);
    CloseReadBack(sentCode, sentReason);
    if Utf8.WellFormed(reason) {
      CutReason(reason);
    }
  }

  // --------------------------------------------------------- a received close

  function Ascii(s: string): seq<byte> {
    seq(|s|, i requires 0 <= i < |s| => s[i] as int % 0x100)
  }

  /** The error of a received payload, if any: its code's first, then its reason's. */
  ghost function ReceivedError(payload: seq<byte>): Option<CloseError> {
    if ExtractCode(payload).1.Some? then ExtractCode(payload).1
    else if Utf8.WellFormed(ExtractReason(payload)) then None else Some(InvalidReason)
  }

  /** The answer: a protocol error for an invalid close, and else its echo. */
  ghost function Answer(payload: seq<byte>): Option<Msg> {
    match ReceivedError(payload)
    case None => PreparedClose(AckOf(payload).0, AckOf(payload).1)
    case Some(InvalidReason) => PreparedClose(PROTOCOL_ERROR, Ascii("Invalid close reason"))
    case Some(_) => PreparedClose(PROTOCOL_ERROR, Ascii("Invalid close code"))
  }

  function ErrOf(e: Option<CloseError>): Err {
    match e
    case None => Success
    case Some(ReservedCode) => OtherError(1)
    case Some(InvalidCode) => OtherError(2)
    case Some(BadCode) => OtherError(3)
    case Some(_) => OtherError(4)
  }

  /** There always is an answer, and the peer reads the close back from it. */
  lemma AnswerEchoes(c: Config, data: Option<Assembly>, payload: seq<byte>)
    requires !c.isServer && |payload| <= REASON_SIZE + 2
    ensures Answer(payload).Some?
    ensures var m := Answer(payload).value;
      ReceivedError(payload) == None ==>
        Delivers(c, data, m.header + m.payload,
                 [Message(CLOSE, if payload == [] then [NORMAL / 0x100, NORMAL % 0x100] else payload)], data, [])
  {
    hide Delivers, PreparedClose, Utf8.WellFormed, ExtractReason;
    match ReceivedError(payload)
    case None =>
      AckEchoes(payload);
      PreparedCloseIsRead(c, data, AckOf(payload).0, AckOf(payload).1);
    case Some(InvalidReason) =>
      PreparedCloseIsRead(c, data, PROTOCOL_ERROR, Ascii("Invalid close reason"));
    case Some(_) =>
      PreparedCloseIsRead(c, data, PROTOCOL_ERROR, Ascii("Invalid close code"));
  }

  /** process_control_frame for a close frame with this payload. */
  method ReceivePayload(connection: ServerConnection, payload: seq<byte>)
    requires |payload| <= REASON_SIZE + 2
    modifies connection
    ensures connection.View() == ReceiveClose(connection.setup, old(connection.View()), ErrOf(ReceivedError(payload)),
                                              Answer(payload))
  {
    hide PreparedClose, ConnectionSpec.SendCloseFrame, ConnectionSpec.Terminate, ReceiveClose, ExtractCode,
      ExtractReason, Utf8.WellFormed;
    var (code, codeError) := ExtractCode(payload);
    var prepared;
    if codeError.Some? {
      prepared := PrepareClose(PROTOCOL_ERROR, Ascii("Invalid close code"));
      CodeErrors(payload);
      connection.ProcessClose(ErrOf(codeError), prepared);
      return;
    }
    var reason, reasonError := CheckedReason(payload);
    if reasonError.Some? {
      prepared := PrepareClose(PROTOCOL_ERROR, Ascii("Invalid close reason"));
      connection.ProcessClose(ErrOf(reasonError), prepared);
      return;
    }
    if code == NO_STATUS {
      prepared := PrepareClose(NORMAL, []);
    } else {
      prepared := PrepareClose(code, reason);
    }
    connection.ProcessClose(Success, prepared);
  }

  lemma CodeErrors(payload: seq<byte>)
    ensures var e := ExtractCode(payload).1; e.Some? ==> e.value in {ReservedCode, InvalidCode, BadCode}
  {
  }

  /** Which payloads are valid, by their bytes. */
  ghost predicate ValidClose(payload: seq<byte>) {
    payload == [] ||
    (|payload| >= 2 && MayBeSent(payload[0] as int * 0x100 + payload[1]) && Utf8.WellFormed(payload[2..]))
  }

  /** The bytes of the answer: the payload itself, 1000 for an empty one, and 1002 with a
      reason for an invalid one. */
  lemma AnswerByNumber(payload: seq<byte>)
    requires |payload| <= 125
    ensures ReceivedError(payload) == None <==> ValidClose(payload)
    ensures Answer(payload).Some?
    ensures var m := Answer(payload).value;
      m.header + m.payload ==
      if payload == [] then [0x88, 2, 0x03, 0xE8]
      else if ValidClose(payload) then [0x88, |payload|] + payload
      else if |payload| == 1 || !MayBeSent(payload[0] as int * 0x100 + payload[1]) then
        [0x88, 20, 0x03, 0xEA] + Ascii("Invalid close code")
      else [0x88, 22, 0x03, 0xEA] + Ascii("Invalid close reason")
  {
    hide ExtractCode, ExtractReason, ClosePayload, Utf8.WellFormed, MayBeSent, PreparedClose;
    NothingIsText();
    CodeByNumber(payload);
    Sendables();
    if ReceivedError(payload) == None {
      var (code, reason) := AckOf(payload);
      if payload == [] {
        CloseBytes(1000, []);
        assert [0x88, 2, 0x03, 0xE8] == [0x88, 2 + 0] + ([0x03, 0xE8] + []);
      } else {
        CloseBytes(code, reason);
        assert payload == [payload[0], payload[1]] + payload[2..];
      }
    } else if ReceivedError(payload) == Some(InvalidReason) {
      CloseBytes(1002, Ascii("Invalid close reason"));
    } else {
      CloseBytes(1002, Ascii("Invalid close code"));
    }
  }

  lemma NothingIsText()
    ensures Utf8.WellFormed([])
  {
    Utf8.NothingWellFormed();
  }

  lemma Sendables()
    ensures MayBeSent(1000) && MayBeSent(1002) && !MayBeSent(1005)
  {
  }

  lemma CloseBytes(code: Code, reason: seq<byte>)
    requires MayBeSent(code) && |reason| <= 123
    ensures PreparedClose(code, reason).Some?
    ensures var m := PreparedClose(code, reason).value;
      m.header + m.payload == [0x88, 2 + |reason|] + ([code / 0x100, code % 0x100] + reason)
  {
    hide Sender.ControlFrame, ClosePayload, MayBeSent;
    PayloadByNumber(code, reason);
    WireBytes.ShortControlPrepared(8, ClosePayload(code, reason).bytes, Masking.NO_KEY);
  }
}
