// class connection (connection_impl.hpp) in the server role: the fields it keeps,
// the handlers that update them, and for each the step it takes.
module ServerConnection {
  import opened Bytes
  import opened ConnectionSpec

  class ServerConnection {
    const setup: Setup

    // The send queue, guarded by m_write_lock
    var queue: seq<Msg>
    var sendBufferSize: nat
    var writeFlag: bool
    var currentMsgs: seq<Msg>

    var state: SessionState
    var internal: InternalState
    var ec: Err
    var isHttp: bool
    var httpState: HttpState
    var status: ResponseStatus
    var wasClean: bool
    var pendingShutdowns: seq<TerminateStatus>  // the status bound to each shutdown handler

    // What the connection has asked of the transport and of the user
    ghost var pushed: seq<Msg>
    ghost var written: seq<Msg>
    ghost var dispatches: nat
    ghost var transportWrites: nat
    ghost var dead: bool
    ghost var httpWrites: nat
    ghost var shutdowns: nat
    ghost var wasOpen: bool
    ghost var calls: seq<Call>

    ghost function Writing(): WriteSide
      reads this
    {
      WriteSide(queue, sendBufferSize, writeFlag, currentMsgs, pushed, written, dispatches, transportWrites, dead)
    }

    ghost function Living(): Life
      reads this
    {
      Life(state, internal, ec, isHttp, httpState, status, wasClean, httpWrites, pendingShutdowns, shutdowns, wasOpen,
          calls)
    }

    ghost function View(): Connection
      reads this
    {
      Connection(Writing(), Living())
    }

    constructor (u: Setup)
      ensures setup == u && View() == START
    {
      setup := u;
      queue, sendBufferSize, writeFlag, currentMsgs := [], 0, false, [];
      state, internal, ec := Connecting, UserInit, Success;
      isHttp, httpState, status, wasClean := false, HttpInit, Uninitialized, false;
      pushed, written, dispatches, transportWrites, dead := [], [], 0, 0, false;
      httpWrites, pendingShutdowns, shutdowns, wasOpen, calls := 0, [], 0, false, [];
    }

    // ----------------------------------------------------------- write side

    method WritePush(m: Msg)
      modifies this`queue, this`sendBufferSize, this`pushed
      ensures queue == old(queue) + [m] && pushed == old(pushed) + [m]
      ensures sendBufferSize == (old(sendBufferSize) + |m.payload|) % TWO_64
    {
      sendBufferSize := (sendBufferSize + |m.payload|) % TWO_64;
      queue := queue + [m];
      pushed := pushed + [m];
    }

    method WritePop() returns (m: Option<Msg>)
      modifies this`queue, this`sendBufferSize
      ensures old(queue) == [] ==> m == None && queue == [] && sendBufferSize == old(sendBufferSize)
      ensures old(queue) != [] ==> m == Some(old(queue)[0]) && queue == old(queue)[1..]
      ensures old(queue) != [] ==> sendBufferSize == (old(sendBufferSize) - |old(queue)[0].payload|) % TWO_64
    {
      if queue == [] { return None; }
      var front := queue[0];
      sendBufferSize := (sendBufferSize - |front.payload|) % TWO_64;
      queue := queue[1..];
      m := Some(front);
    }

    /** Pushes under the lock, then dispatches write_frame if nothing is being written. */
    method Enqueue(m: Msg)
      modifies this`queue, this`sendBufferSize, this`pushed, this`dispatches
      ensures Writing() == Push(old(Writing()), m)
      ensures WriteInv(old(Writing())) ==> WriteInv(Writing())
    {
      hide WriteInv;
      if WriteInv(Writing()) {
        PushKeeps(Writing(), m);
      }
      WritePush(m);
      var needsWriting := !writeFlag && queue != [];
      if needsWriting { dispatches := dispatches + 1; }
    }

    method WriteFrame()
      modifies this`queue, this`sendBufferSize, this`writeFlag, this`currentMsgs, this`written, this`transportWrites
      requires sendBufferSize < TWO_64
      ensures Writing() == ConnectionSpec.WriteFrame(old(Writing()))
    {
      hide Batch, Sum;
      if writeFlag { return; }
      PullBatch();
      if currentMsgs == [] { return; }
      writeFlag := true;
      written := written + currentMsgs;
      transportWrites := transportWrites + 1;
    }

    /** The loop of write_frame: pulls off what is ready, stopping after a terminal message. */
    method PullBatch()
      modifies this`queue, this`sendBufferSize, this`currentMsgs
      requires sendBufferSize < TWO_64
      ensures currentMsgs == old(currentMsgs) + old(queue)[..Batch(old(queue))]
      ensures queue == old(queue)[Batch(old(queue))..]
      ensures sendBufferSize == (old(sendBufferSize) - Sum(old(queue)[..Batch(old(queue))])) % TWO_64
    {
      hide Batch, Sum;
      ghost var q, k, popped := queue, 0, 0;
      BatchStart(q);
      var next := WritePop();
      if next.Some? { popped := |q[0].payload|; }
      while next.Some?
        invariant k <= |q| && currentMsgs == old(currentMsgs) + q[..k]
        invariant Batch(q) == k + if next.Some? then Batch(q[k..]) else 0
        invariant next.Some? ==> k < |q| && next.value == q[k] && queue == q[k + 1..]
        invariant next.None? ==> queue == q[k..]
        invariant popped == Sum(q[..k]) + if next.Some? then |q[k].payload| else 0
        invariant sendBufferSize == (old(sendBufferSize) - popped) % TWO_64
        decreases |q| - k
      {
        currentMsgs := currentMsgs + [next.value];
        BatchStep(q, k);
        if !next.value.terminal {
          BatchStart(q[k + 1..]);
          next := WritePop();
          if next.Some? {
            ModSubSub(old(sendBufferSize), popped, |q[k + 1].payload|);
            popped := popped + |q[k + 1].payload|;
          }
        } else {
          next := None;
        }
        k := k + 1;
      }
    }

    method HandleWriteFrame(error: Err)
      requires transportWrites > 0 && currentMsgs != []
      modifies this`currentMsgs, this`transportWrites, this`dead, this`writeFlag, this`dispatches,
        this`state, this`ec, this`httpState, this`pendingShutdowns, this`shutdowns
      ensures Writing() == WriteCompleted(old(Writing()), error != Success)
      ensures Living() ==
        if EndsConnection(old(Writing()), error != Success) then ConnectionSpec.Terminate(old(Living()), error)
        else old(Living())
      ensures old(Inv(setup, View())) ==> Inv(setup, View()) && Follows(old(View()), View())
    {
      hide Inv, Follows, ConnectionSpec.Terminate, WriteCompleted, EndsConnection;
      if Inv(setup, View()) {
        FrameWrittenKeeps(setup, View(), error);
      }
      CompleteWrite(error);
    }

    method CompleteWrite(error: Err)
      requires transportWrites > 0 && currentMsgs != []
      modifies this`currentMsgs, this`transportWrites, this`dead, this`writeFlag, this`dispatches,
        this`state, this`ec, this`httpState, this`pendingShutdowns, this`shutdowns
      ensures Writing() == WriteCompleted(old(Writing()), error != Success)
      ensures Living() ==
        if EndsConnection(old(Writing()), error != Success) then ConnectionSpec.Terminate(old(Living()), error)
        else old(Living())
    {
      hide ConnectionSpec.Terminate, WriteCompleted, LifeInv, LifeStep;
      var terminal := currentMsgs[|currentMsgs| - 1].terminal;
      ReleaseWrite(error != Success || terminal);
      if error != Success {
        Terminate(error);
      } else if terminal {
        Terminate(Success);
      }
    }

    /** Forgets the messages written; the write flag is released unless the connection ends. */
    method ReleaseWrite(ends: bool)
      requires transportWrites > 0
      modifies this`currentMsgs, this`transportWrites, this`dead, this`writeFlag, this`dispatches
      ensures forall failed: bool :: ends == EndsConnection(old(Writing()), failed) ==>
        Writing() == WriteCompleted(old(Writing()), failed)
    {
      currentMsgs := [];
      transportWrites := transportWrites - 1;
      if ends {
        dead := true;
      } else {
        writeFlag := false;
        var needsWriting := queue != [];
        if needsWriting { dispatches := dispatches + 1; }
      }
    }

    // ------------------------------------------------------------ lifecycle

    method Terminate(error: Err)
      modifies this`state, this`ec, this`httpState, this`pendingShutdowns, this`shutdowns
      ensures Living() == ConnectionSpec.Terminate(old(Living()), error)
      ensures LifeInv(setup, old(Living())) ==> LifeStep(setup, old(Living()), Living())
    {
      hide LifeInv, LifeStep, ConnectionSpec.Terminate;
      if LifeInv(setup, Living()) {
        TerminateKeeps(setup, Living(), error);
      }
      IssueShutdown(error);
    }

    method IssueShutdown(error: Err)
      modifies this`state, this`ec, this`httpState, this`pendingShutdowns, this`shutdowns
      ensures Living() == ConnectionSpec.Terminate(old(Living()), error)
    {
      if error != Success { ec := error; }
      if isHttp { httpState := HttpClosed; }
      var tstat: TerminateStatus;
      if state == Connecting {
        state := Closed;
        tstat := TerminatedFailed;
      } else if state != Closed {
        state := Closed;
        tstat := TerminatedClosed;
      } else {
        return;
      }
      pendingShutdowns := pendingShutdowns + [tstat];
      shutdowns := shutdowns + 1;
    }

    /** tstat is the argument bound when the shutdown was issued. */
    method HandleTerminate(tstat: TerminateStatus)
      requires pendingShutdowns != [] && pendingShutdowns[0] == tstat
      modifies this`pendingShutdowns, this`calls
      ensures Living() == ShutdownCompleted(setup, old(Living()))
      ensures LifeInv(setup, old(Living())) ==> LifeStep(setup, old(Living()), Living())
    {
      hide LifeInv, LifeStep;
      if LifeInv(setup, Living()) {
        ShutdownKeeps(setup, Living());
      }
      pendingShutdowns := pendingShutdowns[1..];
      match tstat
      case TerminatedFailed =>
        if ec != HttpConnectionEnded && setup.hasFail { calls := calls + [FailHandler]; }
      case TerminatedClosed =>
        if setup.hasClose { calls := calls + [CloseHandler]; }
    }

    method Start()
      modifies this`internal, this`state, this`ec, this`httpState, this`pendingShutdowns, this`shutdowns
      ensures Living() == ConnectionSpec.Start(old(Living()))
      ensures LifeInv(setup, old(Living())) ==> LifeStep(setup, old(Living()), Living())
    {
      hide LifeInv, LifeStep;
      if LifeInv(setup, Living()) {
        StartKeeps(setup, Living());
      }
      hide ConnectionSpec.Terminate;
      if internal != UserInit {
        Terminate(InvalidState);
        return;
      }
      internal := TransportInit;
    }

    method HandleTransportInit(error: Err)
      modifies this`internal, this`state, this`ec, this`httpState, this`pendingShutdowns, this`shutdowns
      ensures Living() == TransportReady(old(Living()), error)
      ensures LifeInv(setup, old(Living())) ==> LifeStep(setup, old(Living()), Living())
    {
      hide LifeInv, LifeStep;
      if LifeInv(setup, Living()) {
        TransportReadyKeeps(setup, Living(), error);
      }
      hide ConnectionSpec.Terminate;
      var ecm := error;
      if internal != TransportInit { ecm := InvalidState; }
      if ecm != Success {
        Terminate(ecm);
        return;
      }
      internal := ReadHttpRequest;
    }

    method WriteHttpResponse(error: Err)
      modifies this`status, this`ec, this`httpWrites
      ensures Living() == ConnectionSpec.WriteHttpResponse(old(Living()), error)
      ensures LifeInv(setup, old(Living())) ==> LifeStep(setup, old(Living()), Living())
    {
      hide LifeInv, LifeStep;
      if LifeInv(setup, Living()) {
        WriteHttpResponseKeeps(setup, Living(), error);
      }
      if error == HttpConnectionEnded { return; }
      if status == Uninitialized {
        status := OtherStatus;
        ec := OtherError(0);
      } else {
        ec := error;
      }
      httpWrites := httpWrites + 1;
    }

    method WriteHttpResponseError(error: Err)
      modifies this`internal, this`state, this`ec, this`httpState, this`status, this`httpWrites,
        this`pendingShutdowns, this`shutdowns
      ensures Living() == ConnectionSpec.WriteHttpResponseError(old(Living()), error)
    {
      hide ConnectionSpec.Terminate, ConnectionSpec.WriteHttpResponse;
      if internal != ReadHttpRequest {
        Terminate(InvalidState);
        return;
      }
      internal := ProcessHttpRequest;
      WriteHttpResponse(error);
    }

    /** The checks that handle_read_handshake and handle_write_http_response share. */
    method Admit(error: Err, expected: InternalState) returns (proceed: bool)
      modifies this`state, this`ec, this`httpState, this`pendingShutdowns, this`shutdowns
      ensures proceed == Guard(old(Living()), error, expected).Proceed?
      ensures Living() == match Guard(old(Living()), error, expected)
                          case Refuse(e) => ConnectionSpec.Terminate(old(Living()), e)
                          case _ => old(Living())
    {
      hide ConnectionSpec.Terminate;
      var ecm := error;
      if ecm == Success {
        if state == Connecting {
          if internal != expected { ecm := InvalidState; }
        } else if state == Closed {
          return false;
        } else {
          ecm := InvalidState;
        }
      }
      if ecm != Success {
        if ecm == Eof && state == Closed { return false; }
        Terminate(ecm);
        return false;
      }
      proceed := true;
    }

    method HandleReadHandshake(error: Err, request: Request)
      modifies this`internal, this`state, this`ec, this`isHttp, this`httpState, this`status, this`httpWrites,
        this`pendingShutdowns, this`shutdowns
      ensures Living() == ReadHandshake(old(Living()), error, request)
      ensures LifeInv(setup, old(Living())) ==> LifeStep(setup, old(Living()), Living())
    {
      hide LifeInv, LifeStep;
      if LifeInv(setup, Living()) {
        ReadHandshakeKeeps(setup, Living(), error, request);
      }
      hide ConnectionSpec.Terminate, Guard, Handshake;
      var proceed := Admit(error, ReadHttpRequest);
      if proceed { ProcessHandshake(request); }
    }

    method ProcessHandshake(request: Request)
      modifies this`internal, this`state, this`ec, this`isHttp, this`httpState, this`status, this`httpWrites,
        this`pendingShutdowns, this`shutdowns
      ensures Living() == Handshake(old(Living()), request)
    {
      hide ConnectionSpec.Terminate, ConnectionSpec.WriteHttpResponse, ConnectionSpec.WriteHttpResponseError;
      match request
      case NeedMore =>
      case OutOfBounds => Terminate(OtherError(0));
      case Malformed(s, e) =>
        status := s;
        WriteHttpResponseError(e);
      case Complete(http, deferral, s, e) =>
        internal, status, isHttp := ProcessHttpRequest, s, http;
        if http { httpState := deferral; }
        if !isHttp || httpState == HttpInit { WriteHttpResponse(e); }
    }

    method SendHttpResponse()
      modifies this`httpState, this`status, this`ec, this`httpWrites
      ensures Living() == ConnectionSpec.SendHttpResponse(old(Living()))
      ensures LifeInv(setup, old(Living())) ==> LifeStep(setup, old(Living()), Living())
    {
      hide LifeInv, LifeStep;
      if LifeInv(setup, Living()) {
        SendHttpResponseKeeps(setup, Living());
      }
      if httpState != Deferred { return; }
      httpState := BodyWritten;
      WriteHttpResponse(Success);
    }

    method HandleWriteHttpResponse(error: Err)
      requires httpWrites > 0
      modifies this`internal, this`state, this`wasOpen, this`calls, this`ec, this`httpState, this`httpWrites,
        this`pendingShutdowns, this`shutdowns
      ensures Living() == HttpResponseWritten(setup, old(Living()), error)
      ensures LifeInv(setup, old(Living())) ==> LifeStep(setup, old(Living()), Living())
    {
      hide LifeInv, LifeStep;
      if LifeInv(setup, Living()) {
        HttpWrittenKeeps(setup, Living(), error);
      }
      hide ConnectionSpec.Terminate, Opened;
      httpWrites := httpWrites - 1;
      var proceed := Admit(error, ProcessHttpRequest);
      if proceed { Finish(); }
    }

    /** The rest of handle_write_http_response. */
    method Finish()
      modifies this`internal, this`state, this`wasOpen, this`calls, this`ec, this`httpState,
        this`pendingShutdowns, this`shutdowns
      ensures Living() == Opened(setup, old(Living()))
    {
      hide ConnectionSpec.Terminate;
      if status != SwitchingProtocols {
        if isHttp { ec := HttpConnectionEnded; }
        Terminate(ec);
        return;
      }
      internal, state, wasOpen := ProcessConnection, Open, true;
      if setup.hasOpen { calls := calls + [OpenHandler]; }
    }

    // --------------------------------------------------- messages and frames

    /** send, ping and pong; prepared is absent when preparing the frame failed. */
    method Send(prepared: Option<Msg>)
      modifies this`queue, this`sendBufferSize, this`pushed, this`dispatches
      ensures View() == ConnectionSpec.Send(old(View()), prepared)
      ensures old(Inv(setup, View())) ==> Inv(setup, View()) && Follows(old(View()), View())
    {
      hide Inv, Follows;
      if Inv(setup, View()) {
        SendKeeps(setup, View(), prepared);
      }
      hide Push;
      if state != Open { return; }
      if prepared.Some? { Enqueue(prepared.value); }
    }

    /** send_close_frame; fails without effect when prepare_close does. */
    method SendCloseFrame(prepared: Option<Msg>, ack: bool, terminal: bool) returns (ok: bool)
      modifies this`state, this`wasClean, this`queue, this`sendBufferSize, this`pushed, this`dispatches
      ensures ok == prepared.Some?
      ensures ok ==> View() == ConnectionSpec.SendCloseFrame(old(View()), prepared.value, ack, terminal)
      ensures !ok ==> View() == old(View())
    {
      hide Push;
      if prepared.None? { return false; }
      BeginClosing(ack);
      var msg := prepared.value.(terminal := terminal);
      Enqueue(msg);
      ok := true;
    }

    method BeginClosing(ack: bool)
      modifies this`state, this`wasClean
      ensures Living() == old(Living()).(state := Closing, wasClean := ack || old(wasClean))
    {
      state := Closing;
      if ack { wasClean := true; }
    }

    method Close(prepared: Option<Msg>, failure: nat, terminal: bool) returns (error: Err)
      modifies this`state, this`wasClean, this`queue, this`sendBufferSize, this`pushed, this`dispatches
      ensures View() == ConnectionSpec.Close(old(View()), prepared, terminal)
      ensures error ==
        if old(state) != Open then InvalidState else if prepared.None? then OtherError(failure) else Success
      ensures old(Inv(setup, View())) ==> Inv(setup, View()) && Follows(old(View()), View())
    {
      hide Inv, Follows;
      if Inv(setup, View()) {
        CloseKeeps(setup, View(), prepared, terminal);
      }
      hide ConnectionSpec.SendCloseFrame;
      if state != Open { return InvalidState; }
      var ok := SendCloseFrame(prepared, false, terminal);
      error := if ok then Success else OtherError(failure);
    }

    /** process_control_frame for a close frame. */
    method ProcessClose(error: Err, reply: Option<Msg>)
      modifies this`state, this`wasClean, this`queue, this`sendBufferSize, this`pushed, this`dispatches,
        this`ec, this`httpState, this`pendingShutdowns, this`shutdowns
      ensures View() == ReceiveClose(setup, old(View()), error, reply)
      ensures old(Inv(setup, View()) && wasOpen) ==> Inv(setup, View()) && Follows(old(View()), View())
    {
      hide Inv, Follows;
      if Inv(setup, View()) && wasOpen {
        ReceiveCloseKeeps(setup, View(), error, reply);
      }
      hide ConnectionSpec.SendCloseFrame, ConnectionSpec.Terminate;
      if state == Closed { return; }
      var sent;
      if error != Success {
        if setup.dropOnProtocolError {
          Terminate(error);
        } else {
          sent := SendCloseFrame(reply, true, true);
        }
        return;
      }
      if state == Open {
        sent := SendCloseFrame(reply, true, true);
      } else if state == Closing && !wasClean {
        AcknowledgeClose();
      }
    }

    method AcknowledgeClose()
      modifies this`wasClean, this`state, this`ec, this`httpState, this`pendingShutdowns, this`shutdowns
      ensures Living() == ConnectionSpec.Terminate(old(Living()).(wasClean := true), Success)
    {
      hide ConnectionSpec.Terminate;
      wasClean := true;
      Terminate(Success);
    }

    /** handle_read_frame, for one frame or one error. */
    method HandleReadFrame(error: Err, incoming: Incoming)
      modifies this`state, this`wasClean, this`queue, this`sendBufferSize, this`pushed, this`dispatches,
        this`ec, this`httpState, this`pendingShutdowns, this`shutdowns
      ensures View() == ReadFrame(setup, old(View()), error, incoming)
      ensures old(Inv(setup, View())) ==> Inv(setup, View()) && Follows(old(View()), View())
    {
      hide Inv, Follows;
      if Inv(setup, View()) {
        ReadFrameKeeps(setup, View(), error, incoming);
      }
      hide ConnectionSpec.Send, ConnectionSpec.SendCloseFrame, ReceiveClose, ConnectionSpec.Terminate;
      var ecm := error;
      if ecm == Success && internal != ProcessConnection { ecm := InvalidState; }
      if ecm != Success {
        if ecm == Eof {
          if state == Closed { return; }
        } else if ecm == InvalidState {
          if state == Closed { return; }
        }
        Terminate(ecm);
        return;
      }
      match incoming
      case DataMessage =>
      case PongMessage =>
      case PingMessage(shouldReply, reply) => if shouldReply { Send(reply); }
      case CloseMessage(e, reply) => ProcessClose(e, reply);
      case ProtocolError(e, reply, failure, terminal) =>
        if setup.dropOnProtocolError {
          Terminate(e);
        } else {
          var closeError := Close(reply, failure, terminal);
          if closeError != Success { Terminate(closeError); }
        }
    }

    /** Any handler, as a step of the system. */
    method Handle(ev: Event)
      requires Inv(setup, View()) && Enabled(View(), ev)
      modifies this
      ensures View() == Step(setup, old(View()), ev)
      ensures Inv(setup, View()) && Follows(old(View()), View())
    {
      StepKeeps(setup, View(), ev);
      hide Inv, WriteInv, LifeInv, ReadFrame, ConnectionSpec.Send, ConnectionSpec.Close, FrameWritten, RunDispatch,
        ConnectionSpec.Terminate, ReadHandshake, HttpResponseWritten, ShutdownCompleted, ConnectionSpec.Start,
        TransportReady, ConnectionSpec.SendHttpResponse, Follows;
      match ev
      case SendCalled(prepared) => Send(prepared);
      case CloseCalled(prepared, terminal) => var _ := Close(prepared, 0, terminal);
      case FrameRead(e, incoming) => HandleReadFrame(e, incoming);
      case WriteFrameCalled => RunWriteFrame();
      case FrameWriteDone(e) =>
        WriteKnows(setup, View());
        HandleWriteFrame(e);
      case _ => HandleLife(ev);
    }

    /** The events that concern only the lifecycle. */
    method HandleLife(ev: Event)
      requires ev.StartCalled? || ev.TransportInitDone? || ev.HandshakeRead? || ev.SendHttpResponseCalled? ||
        ev.HttpWriteDone? || ev.TimedOut? || ev.ShutdownDone?
      requires Enabled(View(), ev)
      modifies this
      ensures View() == Step(setup, old(View()), ev)
    {
      hide ConnectionSpec.Terminate, ReadHandshake, HttpResponseWritten, ShutdownCompleted, ConnectionSpec.Start,
        TransportReady, ConnectionSpec.SendHttpResponse;
      match ev
      case StartCalled => Start();
      case TransportInitDone(e) => HandleTransportInit(e);
      case HandshakeRead(e, request) => HandleReadHandshake(e, request);
      case SendHttpResponseCalled => SendHttpResponse();
      case HttpWriteDone(e) => HandleWriteHttpResponse(e);
      case TimedOut(code) => Terminate(OtherError(code));
      case ShutdownDone => HandleTerminate(pendingShutdowns[0]);
    }

    method RunWriteFrame()
      requires Inv(setup, View()) && dispatches > 0
      modifies this`dispatches, this`queue, this`sendBufferSize, this`writeFlag, this`currentMsgs, this`written,
        this`transportWrites
      ensures View() == old(View()).(w := RunDispatch(old(Writing())))
      ensures Inv(setup, View()) && Follows(old(View()), View())
    {
      hide Inv, Follows, ConnectionSpec.WriteFrame;
      DispatchKeeps(setup, View());
      WriteKnows(setup, View());
      dispatches := dispatches - 1;
      WriteFrame();
    }
  }

  lemma WriteKnows(u: Setup, c: Connection)
    requires Inv(u, c)
    ensures c.w.sendBufferSize < TWO_64 && (c.w.transportWrites > 0 ==> c.w.currentMsgs != [])
  {
  }

  lemma BatchStart(q: seq<Msg>)
    ensures Sum(q[..0]) == 0 && q[0..] == q && (q == [] ==> Batch(q) == 0)
  {
  }

  lemma ModSubSub(s: nat, x: nat, y: nat)
    ensures ((s - x) % TWO_64 - y) % TWO_64 == (s - x - y) % TWO_64
  {
  }

  /** One more message of a batch. */
  lemma {:induction false} BatchStep(q: seq<Msg>, k: nat)
    requires k < |q|
    ensures Batch(q[k..]) == if q[k].terminal then 1 else 1 + Batch(q[k + 1..])
    ensures Sum(q[..k + 1]) == Sum(q[..k]) + |q[k].payload|
    ensures q[..k + 1] == q[..k] + [q[k]]
  {
    assert q[k..] != [] && q[k..][0] == q[k] && q[k..][1..] == q[k + 1..];
    assert q[..k + 1] == q[..k] + [q[k]];
    SumConcat(q[..k], [q[k]]);
    assert Sum([q[k]]) == |q[k].payload|;
  }
}
