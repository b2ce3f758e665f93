// The server side of connection_impl.hpp as a step system: what each handler and
// each API call does to the connection, with asynchronous operations recorded as
// pending until their completion is chosen.
module ConnectionSpec {
  import opened Bytes

  // ------------------------------------------------------------- write side

  /** A prepared message in the send queue. */
  datatype Msg = Msg(header: seq<byte>, payload: seq<byte>, terminal: bool)

  /** The write half of a connection. `pushed` and `written` record every message
      handed to write_push and to a transport write; `dispatches` counts write_frame
      calls on their way, `transportWrites` the writes not yet completed; `dead` says
      that a write has failed or has been terminal. */
  datatype WriteSide = WriteSide(
    queue: seq<Msg>,
    sendBufferSize: nat,
    writeFlag: bool,
    currentMsgs: seq<Msg>,
    pushed: seq<Msg>,
    written: seq<Msg>,
    dispatches: nat,
    transportWrites: nat,
    dead: bool)

  const IDLE: WriteSide := WriteSide([], 0, false, [], [], [], 0, 0, false)

  function Sum(q: seq<Msg>): nat {
    if q == [] then 0 else |q[0].payload| + Sum(q[1..])
  }

  /** How many messages write_frame takes: up to and with the first terminal one. */
  function Batch(q: seq<Msg>): (n: nat)
    ensures n <= |q|
  {
    if q == [] then 0 else if q[0].terminal then 1 else 1 + Batch(q[1..])
  }

  /** write_push under the write lock, and the dispatch that follows it. */
  function Push(w: WriteSide, m: Msg): WriteSide {
    w.(queue := w.queue + [m],
       pushed := w.pushed + [m],
       sendBufferSize := (w.sendBufferSize + |m.payload|) % TWO_64,
       dispatches := if w.writeFlag then w.dispatches else w.dispatches + 1)
  }

  /** write_frame */
  function WriteFrame(w: WriteSide): WriteSide {
    if w.writeFlag then w
    else
      var n := Batch(w.queue);
      var msgs := w.currentMsgs + w.queue[..n];
      var popped := w.(
        queue := w.queue[n..],
        currentMsgs := msgs,
        sendBufferSize := (w.sendBufferSize - Sum(w.queue[..n])) % TWO_64);
      if msgs == [] then popped
      else popped.(writeFlag := true, written := w.written + msgs, transportWrites := w.transportWrites + 1)
  }

  /** The dispatched call to write_frame. */
  function RunDispatch(w: WriteSide): WriteSide
    requires w.dispatches > 0
  {
    WriteFrame(w.(dispatches := w.dispatches - 1))
  }

  /** Whether the completed write was the last. back() needs a message to look at:
      WriteInv says that there is one whenever a write completes. */
  predicate EndsConnection(w: WriteSide, failed: bool) {
    failed || (w.currentMsgs != [] && w.currentMsgs[|w.currentMsgs| - 1].terminal)
  }

  /** handle_write_frame, but for the call to terminate. */
  function WriteCompleted(w: WriteSide, failed: bool): WriteSide
    requires w.transportWrites > 0
  {
    var done := w.(currentMsgs := [], transportWrites := w.transportWrites - 1);
    if EndsConnection(w, failed) then done.(dead := true)
    else done.(writeFlag := false, dispatches := if w.queue != [] then w.dispatches + 1 else w.dispatches)
  }

  ghost predicate IsSuffix(a: seq<Msg>, b: seq<Msg>) {
    |a| <= |b| && a == b[|b| - |a|..]
  }

  /** A terminal message can only be the last one written. */
  ghost predicate TerminalIsLast(written: seq<Msg>) {
    forall i :: 0 <= i < |written| - 1 ==> !written[i].terminal
  }

  ghost predicate EndsTerminal(written: seq<Msg>) {
    written != [] && written[|written| - 1].terminal
  }

  /** The part of the invariant that a dispatched call to write_frame finds intact. */
  ghost predicate WriteCore(w: WriteSide) {
    && w.sendBufferSize == Sum(w.queue) % TWO_64
    && w.transportWrites <= 1
    && (w.transportWrites == 1 <==> w.currentMsgs != [])
    && (w.transportWrites == 1 ==> w.writeFlag && IsSuffix(w.currentMsgs, w.written))
    && w.pushed == w.written + w.queue
    && TerminalIsLast(w.written)
    && (EndsTerminal(w.written) ==> w.writeFlag)
    && (w.dead <==> w.writeFlag && w.transportWrites == 0)
  }

  /** The invariant of the write side. */
  ghost predicate WriteInv(w: WriteSide) {
    WriteCore(w) && (w.queue != [] ==> w.transportWrites == 1 || w.dispatches > 0 || w.dead)
  }

  lemma {:induction false} SumConcat(a: seq<Msg>, b: seq<Msg>)
    ensures Sum(a + b) == Sum(a) + Sum(b)
  {
    if a == [] {
      assert a + b == b;
    } else {
      assert (a + b)[1..] == a[1..] + b;
      SumConcat(a[1..], b);
    }
  }

  lemma {:induction false} BatchTerminal(q: seq<Msg>)
    ensures TerminalIsLast(q[..Batch(q)])
    ensures Batch(q) < |q| ==> EndsTerminal(q[..Batch(q)])
    ensures q != [] ==> Batch(q) > 0
  {
    if q != [] && !q[0].terminal {
      var n := Batch(q[1..]);
      BatchTerminal(q[1..]);
      assert q[..n + 1] == [q[0]] + q[1..][..n];
      AppendBatch([q[0]], q[1..][..n]);
    }
  }

  lemma AppendBatch(written: seq<Msg>, taken: seq<Msg>)
    requires TerminalIsLast(written) && TerminalIsLast(taken) && !EndsTerminal(written)
    ensures TerminalIsLast(written + taken) && IsSuffix(taken, written + taken)
    ensures taken != [] ==> EndsTerminal(written + taken) == EndsTerminal(taken)
  {
    var all := written + taken;
    forall i | 0 <= i < |all| - 1 ensures !all[i].terminal {
      if i >= |written| { assert all[i] == taken[i - |written|]; }
    }
  }

  lemma ModAdd(s: nat, x: nat)
    ensures (s % TWO_64 + x) % TWO_64 == (s + x) % TWO_64
  {
  }

  lemma ModSub(s: nat, x: nat)
    ensures ((s + x) % TWO_64 - x) % TWO_64 == s % TWO_64
  {
    SameModulo((s + x) % TWO_64 - x, s, -((s + x) / TWO_64));
  }

  lemma SameModulo(a: int, b: int, k: int)
    requires a == b + k * TWO_64
    ensures a % TWO_64 == b % TWO_64
  {
  }

  lemma PoppedSize(w: WriteSide, taken: seq<Msg>, left: seq<Msg>)
    requires w.sendBufferSize == Sum(w.queue) % TWO_64 && w.queue == taken + left
    ensures (w.sendBufferSize - Sum(taken)) % TWO_64 == Sum(left) % TWO_64
  {
    hide Sum;
    SumConcat(taken, left);
    ModSub(Sum(left), Sum(taken));
  }

  lemma PushKeeps(w: WriteSide, m: Msg)
    requires WriteInv(w)
    ensures WriteInv(Push(w, m))
  {
    SumConcat(w.queue, [m]);
    ModAdd(Sum(w.queue), |m.payload|);
    assert w.written + (w.queue + [m]) == w.pushed + [m];
  }

  lemma WriteFrameKeeps(w: WriteSide)
    requires WriteCore(w)
    ensures WriteInv(WriteFrame(w))
  {
    if !w.writeFlag {
      var n := Batch(w.queue);
      BatchTerminal(w.queue);
      if n == 0 {
        assert w.queue == [] == w.queue[..n] == w.queue[n..];
      } else {
        var taken, left := w.queue[..n], w.queue[n..];
        assert w.queue == taken + left && w.written + taken + left == w.written + w.queue;
        PoppedSize(w, taken, left);
        TakingKeeps(w, taken, left);
      }
    }
  }

  /** A batch that is not empty becomes the outstanding write. */
  lemma TakingKeeps(w: WriteSide, taken: seq<Msg>, left: seq<Msg>)
    requires WriteCore(w) && !w.writeFlag && w.written + taken + left == w.pushed
    requires (w.sendBufferSize - Sum(taken)) % TWO_64 == Sum(left) % TWO_64
    requires taken != [] && TerminalIsLast(taken)
    ensures WriteInv(w.(queue := left, currentMsgs := w.currentMsgs + taken,
                        sendBufferSize := (w.sendBufferSize - Sum(taken)) % TWO_64,
                        writeFlag := true, written := w.written + (w.currentMsgs + taken),
                        transportWrites := w.transportWrites + 1))
  {
    hide Sum, TerminalIsLast, IsSuffix, EndsTerminal, WriteInv;
    assert w.currentMsgs == [] && w.currentMsgs + taken == taken;
    BatchTaken(w, taken, left, (w.sendBufferSize - Sum(taken)) % TWO_64);
  }

  lemma BatchTaken(w: WriteSide, taken: seq<Msg>, left: seq<Msg>, size: nat)
    requires WriteCore(w) && !w.writeFlag && w.written + taken + left == w.pushed
    requires size == Sum(left) % TWO_64 && taken != [] && TerminalIsLast(taken)
    ensures WriteInv(w.(queue := left, currentMsgs := taken, sendBufferSize := size, writeFlag := true,
                        written := w.written + taken, transportWrites := w.transportWrites + 1))
  {
    hide Sum, TerminalIsLast, IsSuffix, EndsTerminal;
    AppendBatch(w.written, taken);
  }

  lemma WriteCompletedKeeps(w: WriteSide, failed: bool)
    requires WriteInv(w) && w.transportWrites > 0
    ensures WriteInv(WriteCompleted(w, failed))
  {
    assert w.written[|w.written| - 1] == w.currentMsgs[|w.currentMsgs| - 1];
  }

  // -------------------------------------------------------------- lifecycle

  datatype SessionState = Connecting | Open | Closing | Closed

  datatype InternalState = UserInit | TransportInit | ReadHttpRequest | ProcessHttpRequest | ProcessConnection

  datatype HttpState = HttpInit | Deferred | BodyWritten | HttpClosed

  datatype ResponseStatus = Uninitialized | SwitchingProtocols | OtherStatus

  datatype Err = Success | HttpConnectionEnded | Eof | InvalidState | OtherError(code: nat)

  datatype TerminateStatus = TerminatedFailed | TerminatedClosed

  /** The user's handlers, in the order they ran. */
  datatype Call = OpenHandler | FailHandler | CloseHandler

  /** Which handlers are set, and the config switch drop_on_protocol_error. */
  datatype Setup = Setup(hasOpen: bool, hasFail: bool, hasClose: bool, dropOnProtocolError: bool)

  /** The rest of a connection. `httpWrites` and `pendingShutdowns` are operations not
      yet completed; `shutdowns` counts the calls of async_shutdown; `wasOpen` says that
      the connection has been in state Open; `calls` records the handlers run. */
  datatype Life = Life(
    state: SessionState,
    internal: InternalState,
    ec: Err,
    isHttp: bool,
    httpState: HttpState,
    status: ResponseStatus,
    wasClean: bool,
    httpWrites: nat,
    pendingShutdowns: seq<TerminateStatus>,
    shutdowns: nat,
    wasOpen: bool,
    calls: seq<Call>)

  const FRESH: Life :=
    Life(Connecting, UserInit, Success, false, HttpInit, Uninitialized, false, 0, [], 0, false, [])

  function Shutdown(l: Life, tstat: TerminateStatus): Life {
    l.(state := Closed, pendingShutdowns := l.pendingShutdowns + [tstat], shutdowns := l.shutdowns + 1)
  }

  /** terminate */
  function Terminate(l: Life, ec: Err): Life {
    var l1 := if ec != Success then l.(ec := ec) else l;
    var l2 := if l1.isHttp then l1.(httpState := HttpClosed) else l1;
    if l2.state == Connecting then Shutdown(l2, TerminatedFailed)
    else if l2.state != Closed then Shutdown(l2, TerminatedClosed)
    else l2
  }

  /** handle_terminate */
  function ShutdownCompleted(u: Setup, l: Life): Life
    requires l.pendingShutdowns != []
  {
    var done := l.(pendingShutdowns := l.pendingShutdowns[1..]);
    match l.pendingShutdowns[0]
    case TerminatedFailed =>
      if l.ec != HttpConnectionEnded && u.hasFail then done.(calls := l.calls + [FailHandler]) else done
    case TerminatedClosed =>
      if u.hasClose then done.(calls := l.calls + [CloseHandler]) else done
  }

  /** start */
  function Start(l: Life): Life {
    if l.internal != UserInit then Terminate(l, InvalidState) else l.(internal := TransportInit)
  }

  /** handle_transport_init on a server */
  function TransportReady(l: Life, ec: Err): Life {
    var ecm := if l.internal != TransportInit then InvalidState else ec;
    if ecm != Success then Terminate(l, ecm) else l.(internal := ReadHttpRequest)
  }

  /** write_http_response */
  function WriteHttpResponse(l: Life, ec: Err): Life {
    if ec == HttpConnectionEnded then l
    else
      var l1 := if l.status == Uninitialized then l.(status := OtherStatus, ec := OtherError(0)) else l.(ec := ec);
      l1.(httpWrites := l1.httpWrites + 1)
  }

  /** write_http_response_error */
  function WriteHttpResponseError(l: Life, ec: Err): Life {
    if l.internal != ReadHttpRequest then Terminate(l, InvalidState)
    else WriteHttpResponse(l.(internal := ProcessHttpRequest), ec)
  }

  /** What reading the handshake request may lead to, once the guard has passed. */
  datatype Request =
    | NeedMore                                        // the request is not complete yet
    | OutOfBounds                                     // one of the two boundary checks
    | Malformed(status: ResponseStatus, error: Err)   // refused before it is processed
    | Complete(isHttp: bool, httpState: HttpState, status: ResponseStatus, error: Err)

  datatype Verdict = Ignore | Refuse(error: Err) | Proceed

  /** The checks handle_read_handshake and handle_write_http_response begin with. */
  function Guard(l: Life, ec: Err, expected: InternalState): Verdict {
    if ec == Success && l.state == Closed then Ignore
    else
      var ecm := if ec == Success && (l.state != Connecting || l.internal != expected) then InvalidState else ec;
      if ecm == Success then Proceed
      else if ecm == Eof && l.state == Closed then Ignore
      else Refuse(ecm)
  }

  /** handle_read_handshake */
  function ReadHandshake(l: Life, ec: Err, request: Request): Life {
    match Guard(l, ec, ReadHttpRequest)
    case Ignore => l
    case Refuse(e) => Terminate(l, e)
    case Proceed => Handshake(l, request)
  }

  function Handshake(l: Life, request: Request): Life {
    match request
    case NeedMore => l
    case OutOfBounds => Terminate(l, OtherError(0))
    case Malformed(status, error) => WriteHttpResponseError(l.(status := status), error)
    case Complete(isHttp, httpState, status, error) =>
      var l1 := l.(internal := ProcessHttpRequest, status := status,
                   isHttp := isHttp, httpState := if isHttp then httpState else l.httpState);
      if !l1.isHttp || l1.httpState == HttpInit then WriteHttpResponse(l1, error) else l1
  }

  /** send_http_response, of a deferred response */
  function SendHttpResponse(l: Life): Life {
    if l.httpState != Deferred then l else WriteHttpResponse(l.(httpState := BodyWritten), Success)
  }

  /** handle_write_http_response */
  function HttpResponseWritten(u: Setup, l: Life, ec: Err): Life
    requires l.httpWrites > 0
  {
    var done := l.(httpWrites := l.httpWrites - 1);
    match Guard(l, ec, ProcessHttpRequest)
    case Ignore => done
    case Refuse(e) => Terminate(done, e)
    case Proceed => Opened(u, done)
  }

  /** The handshake is over: the connection opens, or ends with the HTTP exchange. */
  function Opened(u: Setup, l: Life): Life {
    if l.status != SwitchingProtocols then
      var ended := if l.isHttp then l.(ec := HttpConnectionEnded) else l;
      Terminate(ended, ended.ec)
    else
      l.(internal := ProcessConnection, state := Open, wasOpen := true,
         calls := if u.hasOpen then l.calls + [OpenHandler] else l.calls)
  }

  /** Whether handle_terminate has run. */
  predicate Finished(l: Life) { l.shutdowns == 1 && l.pendingShutdowns == [] }

  /** The invariant of the lifecycle. The handlers that have run are determined up to
      the one choice handle_terminate makes for a connection that never opened. */
  ghost predicate LifeInv(u: Setup, l: Life) {
    && (l.state in {Open, Closing} ==> l.wasOpen)
    && (l.state == Connecting ==> !l.wasOpen)
    && (l.internal == ProcessConnection <==> l.wasOpen)
    && l.shutdowns == (if l.state == Closed then 1 else 0)
    && |l.pendingShutdowns| <= l.shutdowns
    && (l.pendingShutdowns != [] ==>
          l.pendingShutdowns == [if l.wasOpen then TerminatedClosed else TerminatedFailed])
    && (if l.wasOpen then
          l.calls ==
            (if u.hasOpen then [OpenHandler] else []) + (if Finished(l) && u.hasClose then [CloseHandler] else [])
        else
          l.calls == [] || (Finished(l) && l.calls == [FailHandler]))
  }

  // --------------------------------------------------------- the whole system

  datatype Connection = Connection(w: WriteSide, l: Life)

  const START: Connection := Connection(IDLE, FRESH)

  /** A frame that the processor has delivered, or its error, as handle_read_frame and
      process_control_frame distinguish them. `reply` is the answer sent, if preparing
      it succeeded, and `failure` the error code if not; `terminal` is close::status::terminal of the code sent. */
  datatype Incoming =
    | DataMessage
    | PongMessage
    | PingMessage(shouldReply: bool, reply: Option<Msg>)
    | CloseMessage(error: Err, reply: Option<Msg>)
    | ProtocolError(error: Err, reply: Option<Msg>, failure: nat, terminal: bool)

  datatype Event =
    | StartCalled
    | TransportInitDone(ec: Err)
    | HandshakeRead(ec: Err, request: Request)
    | SendHttpResponseCalled
    | HttpWriteDone(ec: Err)
    | SendCalled(prepared: Option<Msg>)                   // send, ping and pong
    | CloseCalled(prepared: Option<Msg>, terminal: bool)
    | FrameRead(ec: Err, incoming: Incoming)
    | WriteFrameCalled                                    // a dispatched call
    | FrameWriteDone(ec: Err)
    | TimedOut(code: nat)                                 // either handshake timer
    | ShutdownDone

  /** Completions happen only for operations that are pending. */
  predicate Enabled(c: Connection, ev: Event) {
    match ev
    case HttpWriteDone(_) => c.l.httpWrites > 0
    case WriteFrameCalled => c.w.dispatches > 0
    case FrameWriteDone(_) => c.w.transportWrites > 0
    case ShutdownDone => c.l.pendingShutdowns != []
    case _ => true
  }

  /** send, ping and pong */
  function Send(c: Connection, prepared: Option<Msg>): Connection {
    if c.l.state != Open || prepared.None? then c else c.(w := Push(c.w, prepared.value))
  }

  /** send_close_frame, when prepare_close has succeeded */
  function SendCloseFrame(c: Connection, m: Msg, ack: bool, terminal: bool): Connection {
    Connection(Push(c.w, m.(terminal := terminal)),
               c.l.(state := Closing, wasClean := ack || c.l.wasClean))
  }

  /** close */
  function Close(c: Connection, prepared: Option<Msg>, terminal: bool): Connection {
    if c.l.state != Open || prepared.None? then c else SendCloseFrame(c, prepared.value, false, terminal)
  }

  /** send_close_ack on a server */
  function SendCloseAck(c: Connection, prepared: Option<Msg>): Connection {
    if prepared.None? then c else SendCloseFrame(c, prepared.value, true, true)
  }

  function TerminateConnection(c: Connection, ec: Err): Connection { c.(l := Terminate(c.l, ec)) }

  /** process_control_frame for a close frame */
  function ReceiveClose(u: Setup, c: Connection, error: Err, reply: Option<Msg>): Connection {
    if c.l.state == Closed then c
    else if error != Success then
      if u.dropOnProtocolError then TerminateConnection(c, error) else SendCloseAck(c, reply)
    else if c.l.state == Open then SendCloseAck(c, reply)
    else if c.l.state == Closing && !c.l.wasClean then
      TerminateConnection(c.(l := c.l.(wasClean := true)), Success)
    else c
  }

  /** handle_read_frame for one delivered frame, one error of the processor, or an
      error of the read. */
  function ReadFrame(u: Setup, c: Connection, ec: Err, incoming: Incoming): Connection {
    var ecm := if ec == Success && c.l.internal != ProcessConnection then InvalidState else ec;
    if ecm != Success then
      if ecm in {Eof, InvalidState} && c.l.state == Closed then c else TerminateConnection(c, ecm)
    else
      match incoming
      case DataMessage => c
      case PongMessage => c
      case PingMessage(shouldReply, reply) => if shouldReply then Send(c, reply) else c
      case CloseMessage(error, reply) => ReceiveClose(u, c, error, reply)
      case ProtocolError(error, reply, failure, terminal) =>
        if u.dropOnProtocolError then TerminateConnection(c, error)
        else if c.l.state != Open then TerminateConnection(c, InvalidState)
        else if reply.None? then TerminateConnection(c, OtherError(failure))
        else Close(c, reply, terminal)
  }

  /** handle_write_frame */
  function FrameWritten(c: Connection, ec: Err): Connection
    requires c.w.transportWrites > 0
  {
    var done := c.(w := WriteCompleted(c.w, ec != Success));
    if EndsConnection(c.w, ec != Success) then TerminateConnection(done, ec) else done
  }

  function Step(u: Setup, c: Connection, ev: Event): Connection
    requires Enabled(c, ev)
  {
    match ev
    case StartCalled => c.(l := Start(c.l))
    case TransportInitDone(ec) => c.(l := TransportReady(c.l, ec))
    case HandshakeRead(ec, request) => c.(l := ReadHandshake(c.l, ec, request))
    case SendHttpResponseCalled => c.(l := SendHttpResponse(c.l))
    case HttpWriteDone(ec) => c.(l := HttpResponseWritten(u, c.l, ec))
    case SendCalled(prepared) => Send(c, prepared)
    case CloseCalled(prepared, terminal) => Close(c, prepared, terminal)
    case FrameRead(ec, incoming) => ReadFrame(u, c, ec, incoming)
    case WriteFrameCalled => c.(w := RunDispatch(c.w))
    case FrameWriteDone(ec) => FrameWritten(c, ec)
    case TimedOut(code) => TerminateConnection(c, OtherError(code))
    case ShutdownDone => c.(l := ShutdownCompleted(u, c.l))
  }

  // ------------------------------------------------------------ every step

  ghost predicate Inv(u: Setup, c: Connection) {
    WriteInv(c.w) && LifeInv(u, c.l) && (c.w.dead ==> c.l.state == Closed)
  }

  function Rank(s: SessionState): nat {
    match s case Connecting => 0 case Open => 1 case Closing => 2 case Closed => 3
  }

  /** What no step undoes. */
  ghost predicate Grows(c: Connection, d: Connection) {
    && Rank(c.l.state) <= Rank(d.l.state)
    && c.l.shutdowns <= d.l.shutdowns
    && c.l.calls <= d.l.calls
    && c.w.pushed <= d.w.pushed
    && c.w.written <= d.w.written
  }

  /** One step undoes nothing and opens the connection only by entering Open. */
  ghost predicate Follows(c: Connection, d: Connection) {
    Grows(c, d) && (c.l.wasOpen ==> d.l.wasOpen) && (d.l.wasOpen ==> c.l.wasOpen || d.l.state == Open)
  }

  ghost predicate LifeStep(u: Setup, l: Life, m: Life) {
    && LifeInv(u, m)
    && Rank(l.state) <= Rank(m.state) && l.shutdowns <= m.shutdowns && l.calls <= m.calls
    && (l.wasOpen ==> m.wasOpen) && (m.wasOpen ==> l.wasOpen || m.state == Open)
  }

  lemma TerminateKeeps(u: Setup, l: Life, ec: Err)
    requires LifeInv(u, l)
    ensures LifeStep(u, l, Terminate(l, ec)) && Terminate(l, ec).state == Closed
  {
  }

  lemma ShutdownKeeps(u: Setup, l: Life)
    requires LifeInv(u, l) && l.pendingShutdowns != []
    ensures LifeStep(u, l, ShutdownCompleted(u, l)) && ShutdownCompleted(u, l).state == l.state
  {
  }

  lemma StartKeeps(u: Setup, l: Life)
    requires LifeInv(u, l)
    ensures LifeStep(u, l, Start(l))
  {
    hide Terminate;
    TerminateKeeps(u, l, InvalidState);
  }

  lemma TransportReadyKeeps(u: Setup, l: Life, ec: Err)
    requires LifeInv(u, l)
    ensures LifeStep(u, l, TransportReady(l, ec))
  {
    hide Terminate;
    TerminateKeeps(u, l, InvalidState);
    TerminateKeeps(u, l, ec);
  }

  lemma SendHttpResponseKeeps(u: Setup, l: Life)
    requires LifeInv(u, l)
    ensures LifeStep(u, l, SendHttpResponse(l))
  {
    hide LifeInv, WriteHttpResponse;
    SameLife(u, l, l.(httpState := BodyWritten));
    WriteHttpResponseKeeps(u, l.(httpState := BodyWritten), Success);
  }

  lemma WriteHttpResponseKeeps(u: Setup, l: Life, ec: Err)
    requires LifeInv(u, l)
    ensures LifeStep(u, l, WriteHttpResponse(l, ec))
  {
    hide LifeInv;
    SameLife(u, l, WriteHttpResponse(l, ec));
  }

  /** The invariant does not look at the HTTP exchange. */
  lemma SameLife(u: Setup, l: Life, m: Life)
    requires LifeInv(u, l)
    requires m == l.(internal := m.internal, ec := m.ec, isHttp := m.isHttp, httpState := m.httpState,
                     status := m.status, wasClean := m.wasClean, httpWrites := m.httpWrites)
    requires m.internal == ProcessConnection <==> l.internal == ProcessConnection
    ensures LifeStep(u, l, m)
  {
  }

  lemma ReadHandshakeKeeps(u: Setup, l: Life, ec: Err, request: Request)
    requires LifeInv(u, l)
    ensures LifeStep(u, l, ReadHandshake(l, ec, request))
  {
    hide Terminate, Handshake;
    match Guard(l, ec, ReadHttpRequest)
    case Ignore =>
    case Refuse(e) => TerminateKeeps(u, l, e);
    case Proceed => HandshakeKeeps(u, l, request);
  }

  lemma HandshakeKeeps(u: Setup, l: Life, request: Request)
    requires LifeInv(u, l) && l.state == Connecting
    ensures LifeStep(u, l, Handshake(l, request))
  {
    hide Terminate, WriteHttpResponse;
    TerminateKeeps(u, l, OtherError(0));
    match request
    case Malformed(status, error) =>
      var m := l.(status := status);
      TerminateKeeps(u, m, InvalidState);
      WriteHttpResponseKeeps(u, m.(internal := ProcessHttpRequest), error);
    case Complete(isHttp, httpState, status, error) =>
      var m := l.(internal := ProcessHttpRequest, status := status,
                  isHttp := isHttp, httpState := if isHttp then httpState else l.httpState);
      WriteHttpResponseKeeps(u, m, error);
    case _ =>
  }

  lemma HttpWrittenKeeps(u: Setup, l: Life, ec: Err)
    requires LifeInv(u, l) && l.httpWrites > 0
    ensures LifeStep(u, l, HttpResponseWritten(u, l, ec))
    ensures !l.wasOpen ==> (HttpResponseWritten(u, l, ec).wasOpen <==> Opens(l, ec))
  {
    hide Terminate, LifeInv, Opened, Opens;
    if !l.wasOpen {
      WrittenOpens(u, l, ec);
    }
    var done := l.(httpWrites := l.httpWrites - 1);
    SameLife(u, l, done);
    match Guard(l, ec, ProcessHttpRequest)
    case Ignore =>
    case Refuse(e) => TerminateKeeps(u, done, e);
    case Proceed => OpenedKeeps(u, done);
  }

  /** When a completed write of the response opens the connection. */
  predicate Opens(l: Life, ec: Err) {
    ec == Success && l.state == Connecting && l.internal == ProcessHttpRequest && l.status == SwitchingProtocols
  }

  lemma WrittenOpens(u: Setup, l: Life, ec: Err)
    requires l.httpWrites > 0 && !l.wasOpen
    ensures HttpResponseWritten(u, l, ec).wasOpen <==> Opens(l, ec)
    ensures Opens(l, ec) ==>
      HttpResponseWritten(u, l, ec).calls == l.calls + if u.hasOpen then [OpenHandler] else []
  {
    TerminateOpensNothing(l.(httpWrites := l.httpWrites - 1), ec);
  }

  lemma TerminateOpensNothing(l: Life, ec: Err)
    ensures Terminate(l, ec).wasOpen == l.wasOpen
  {
  }

  /** Nothing else ever opens a connection. */
  lemma OpensExactly(u: Setup, c: Connection, ev: Event)
    requires Enabled(c, ev) && !c.l.wasOpen
    ensures Step(u, c, ev).l.wasOpen <==> ev.HttpWriteDone? && Opens(c.l, ev.ec)
  {
    hide Opens, HttpResponseWritten, Push, WriteFrame, WriteCompleted, RunDispatch;
    match ev
    case HttpWriteDone(ec) => WrittenOpens(u, c.l, ec);
    case _ =>
  }

  lemma OpenedKeeps(u: Setup, l: Life)
    requires LifeInv(u, l) && l.state == Connecting
    ensures LifeStep(u, l, Opened(u, l))
  {
    hide Terminate;
    TerminateKeeps(u, l, l.ec);
    TerminateKeeps(u, l.(ec := HttpConnectionEnded), HttpConnectionEnded);
  }

  lemma SendCloseFrameKeeps(u: Setup, c: Connection, m: Msg, ack: bool, terminal: bool)
    requires Inv(u, c) && c.l.state in {Open, Closing}
    ensures var d := SendCloseFrame(c, m, ack, terminal); Inv(u, d) && Follows(c, d)
  {
    PushKeeps(c.w, m.(terminal := terminal));
  }

  lemma SendKeeps(u: Setup, c: Connection, prepared: Option<Msg>)
    requires Inv(u, c)
    ensures Inv(u, Send(c, prepared)) && Follows(c, Send(c, prepared))
  {
    hide WriteInv, LifeInv, Push;
    if prepared.Some? {
      PushKeeps(c.w, prepared.value);
      PushGrows(c.w, prepared.value);
    }
  }

  lemma CloseKeeps(u: Setup, c: Connection, prepared: Option<Msg>, terminal: bool)
    requires Inv(u, c)
    ensures Inv(u, Close(c, prepared, terminal)) && Follows(c, Close(c, prepared, terminal))
  {
    hide Inv, SendCloseFrame;
    if prepared.Some? && c.l.state == Open { SendCloseFrameKeeps(u, c, prepared.value, false, terminal); }
  }

  lemma TerminateConnectionKeeps(u: Setup, c: Connection, ec: Err)
    requires Inv(u, c)
    ensures Inv(u, TerminateConnection(c, ec)) && Follows(c, TerminateConnection(c, ec))
  {
    hide WriteInv, LifeInv, Terminate;
    TerminateKeeps(u, c.l, ec);
  }

  lemma ReceiveCloseKeeps(u: Setup, c: Connection, error: Err, reply: Option<Msg>)
    requires Inv(u, c) && c.l.wasOpen
    ensures var d := ReceiveClose(u, c, error, reply); Inv(u, d) && Follows(c, d)
  {
    hide WriteInv, TerminateConnection, SendCloseFrame;
    if reply.Some? && c.l.state != Closed { SendCloseFrameKeeps(u, c, reply.value, true, true); }
    TerminateConnectionKeeps(u, c, error);
    TerminateConnectionKeeps(u, c.(l := c.l.(wasClean := true)), Success);
  }

  lemma ReadFrameKeeps(u: Setup, c: Connection, ec: Err, incoming: Incoming)
    requires Inv(u, c)
    ensures var d := ReadFrame(u, c, ec, incoming); Inv(u, d) && Follows(c, d)
  {
    hide WriteInv, TerminateConnection, ReceiveClose, Send, Close;
    if ec != Success || c.l.internal != ProcessConnection {
      TerminateConnectionKeeps(u, c, InvalidState);
      TerminateConnectionKeeps(u, c, ec);
      return;
    }
    match incoming
    case PingMessage(shouldReply, reply) => SendKeeps(u, c, reply);
    case CloseMessage(error, reply) => ReceiveCloseKeeps(u, c, error, reply);
    case ProtocolError(error, reply, failure, terminal) =>
      TerminateConnectionKeeps(u, c, error);
      TerminateConnectionKeeps(u, c, InvalidState);
      TerminateConnectionKeeps(u, c, OtherError(failure));
      CloseKeeps(u, c, reply, terminal);
    case _ =>
  }

  lemma PushGrows(w: WriteSide, m: Msg)
    ensures w.pushed <= Push(w, m).pushed && w.written == Push(w, m).written && w.dead == Push(w, m).dead
  {
  }

  lemma WriteFrameGrows(w: WriteSide)
    ensures var v := WriteFrame(w);
      v.pushed == w.pushed && w.written <= v.written && v.dead == w.dead
  {
  }

  lemma FrameWrittenKeeps(u: Setup, c: Connection, ec: Err)
    requires Inv(u, c) && c.w.transportWrites > 0
    ensures Inv(u, FrameWritten(c, ec)) && Follows(c, FrameWritten(c, ec))
  {
    hide WriteInv, LifeInv, Terminate;
    WriteCompletedKeeps(c.w, ec != Success);
    TerminateKeeps(u, c.l, ec);
  }

  lemma DispatchTaken(w: WriteSide)
    requires WriteInv(w) && w.dispatches > 0
    ensures WriteCore(w.(dispatches := w.dispatches - 1))
  {
  }

  lemma DispatchKeeps(u: Setup, c: Connection)
    requires Inv(u, c) && c.w.dispatches > 0
    ensures var d := c.(w := RunDispatch(c.w)); Inv(u, d) && Follows(c, d)
  {
    hide WriteInv, WriteCore, LifeInv, WriteFrame;
    var w := c.w.(dispatches := c.w.dispatches - 1);
    DispatchTaken(c.w);
    WriteFrameKeeps(w);
    WriteFrameGrows(w);
  }

  /** Every step of a connection keeps the invariant and undoes nothing. */
  lemma StepKeeps(u: Setup, c: Connection, ev: Event)
    requires Inv(u, c) && Enabled(c, ev)
    ensures Inv(u, Step(u, c, ev)) && Follows(c, Step(u, c, ev))
  {
    hide WriteInv, LifeInv, Push, WriteFrame, ReadHandshake, HttpResponseWritten, ShutdownCompleted, Terminate,
      ReadFrame, Start, TransportReady, SendHttpResponse, RunDispatch, FrameWritten, Send, Close;
    match ev
    case StartCalled => StartKeeps(u, c.l);
    case TransportInitDone(ec) => TransportReadyKeeps(u, c.l, ec);
    case HandshakeRead(ec, request) => ReadHandshakeKeeps(u, c.l, ec, request);
    case SendHttpResponseCalled => SendHttpResponseKeeps(u, c.l);
    case HttpWriteDone(ec) => HttpWrittenKeeps(u, c.l, ec);
    case SendCalled(prepared) => SendKeeps(u, c, prepared);
    case CloseCalled(prepared, terminal) => CloseKeeps(u, c, prepared, terminal);
    case FrameRead(ec, incoming) => ReadFrameKeeps(u, c, ec, incoming);
    case WriteFrameCalled => DispatchKeeps(u, c);
    case FrameWriteDone(ec) => FrameWrittenKeeps(u, c, ec);
    case TimedOut(code) => TerminateKeeps(u, c.l, OtherError(code));
    case ShutdownDone => ShutdownKeeps(u, c.l);
  }
}
