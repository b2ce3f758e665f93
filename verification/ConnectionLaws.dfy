// What every event does to a connection, field by field, in every run: the messages it
// pushes or writes, the state it leaves, the handlers it runs.
module ConnectionLaws {
  import opened Bytes
  import opened ConnectionSpec
  import opened ConnectionRuns

  // ------------------------------------------------------------ outcomes

  /** m is last in the queue, and write_frame is on its way unless a write is outstanding. */
  ghost predicate Pushes(w: WriteSide, v: WriteSide, m: Msg) {
    && v.queue == w.queue + [m] && v.pushed == w.pushed + [m]
    && v.sendBufferSize == (w.sendBufferSize + |m.payload|) % 0x1_0000_0000_0000_0000
    && v.dispatches == w.dispatches + (if w.writeFlag then 0 else 1)
    && v.writeFlag == w.writeFlag && v.currentMsgs == w.currentMsgs && v.written == w.written
    && v.transportWrites == w.transportWrites && v.dead == w.dead
  }

  /** The connection is closed, and the transport is being shut down, which happens once;
      the status says whether it had opened. */
  ghost predicate Ends(l: Life, m: Life, ec: Err) {
    && m.state == Closed
    && m.ec == (if ec == Success then l.ec else ec)
    && m.httpState == (if l.isHttp then HttpClosed else l.httpState)
    && (if l.state == Closed then m.shutdowns == l.shutdowns && m.pendingShutdowns == l.pendingShutdowns
        else
          && m.shutdowns == l.shutdowns + 1
          && m.pendingShutdowns ==
             l.pendingShutdowns + [if l.state == Connecting then TerminatedFailed else TerminatedClosed])
    && m.internal == l.internal && m.isHttp == l.isHttp && m.status == l.status && m.wasClean == l.wasClean
    && m.httpWrites == l.httpWrites && m.wasOpen == l.wasOpen && m.calls == l.calls
  }

  lemma EveryPush()
    ensures forall w: WriteSide, m: Msg :: Pushes(w, Push(w, m), m)
  {
  }

  lemma EveryEnd()
    ensures forall l: Life, ec: Err :: Ends(l, Terminate(l, ec), ec)
  {
  }

  lemma EveryResponse()
    ensures forall l: Life, ec: Err :: Responds(l, WriteHttpResponse(l, ec), ec)
  {
  }

  /** The response is written, unless the exchange is over already. */
  ghost predicate Responds(l: Life, m: Life, error: Err) {
    m == if error == HttpConnectionEnded then l
         else if l.status == Uninitialized then
           l.(status := OtherStatus, ec := OtherError(0), httpWrites := l.httpWrites + 1)
         else l.(ec := error, httpWrites := l.httpWrites + 1)
  }

  /** Event i of a run, and the states around it. */
  ghost predicate Happens(u: Setup, trace: seq<Connection>, events: seq<Event>, i: nat, c: Connection, ev: Event,
                          d: Connection)
  {
    IsRun(u, trace, events) && i < |events| && c == trace[i] && ev == events[i] && d == trace[i + 1]
  }

  lemma HappensStep(u: Setup, trace: seq<Connection>, events: seq<Event>, i: nat, c: Connection, ev: Event,
                    d: Connection)
    requires Happens(u, trace, events, i, c, ev, d)
    ensures Enabled(c, ev) && d == Step(u, c, ev) && Inv(u, c) && Inv(u, d)
  {
    hide Inv, Step, Enabled;
    RunInv(u, trace, events, i);
    RunInv(u, trace, events, i + 1);
  }

  /** A connection begins with nothing queued, nothing dispatched and no handler run. */
  lemma RunBegins(u: Setup, trace: seq<Connection>, events: seq<Event>)
    requires IsRun(u, trace, events)
    ensures var (w, l) := (trace[0].w, trace[0].l);
      && w.queue == w.pushed == w.written == w.currentMsgs == []
      && w.sendBufferSize == w.dispatches == w.transportWrites == 0 && !w.writeFlag && !w.dead
      && l.state == Connecting && l.internal == UserInit && l.ec == Success && !l.isHttp && l.httpState == HttpInit
      && l.status == Uninitialized && !l.wasClean && !l.wasOpen
      && l.httpWrites == l.shutdowns == 0 && l.pendingShutdowns == [] && l.calls == []
  {
  }

  /** Every run goes on with every event, completions only of what is pending. */
  lemma RunGoesOn(u: Setup, trace: seq<Connection>, events: seq<Event>, ev: Event) returns (d: Connection)
    requires IsRun(u, trace, events)
    requires ev.HttpWriteDone? ==> trace[|events|].l.httpWrites > 0
    requires ev.WriteFrameCalled? ==> trace[|events|].w.dispatches > 0
    requires ev.FrameWriteDone? ==> trace[|events|].w.transportWrites > 0
    requires ev.ShutdownDone? ==> trace[|events|].l.pendingShutdowns != []
    ensures Happens(u, trace + [d], events + [ev], |events|, trace[|events|], ev, d)
  {
    hide Step;
    d := Step(u, trace[|events|], ev);
    var (now, all) := (trace + [d], events + [ev]);
    forall i | 0 <= i < |all| ensures Enabled(now[i], all[i]) && now[i + 1] == Step(u, now[i], all[i]) {
      assert i < |events| ==> now[i + 1] == trace[i + 1];
    }
  }

  // ------------------------------------------------------------ messages

  /** send, ping and pong: on an open connection the prepared message is pushed, and a
      write or a dispatch will carry it; otherwise nothing happens. */
  lemma SendLaw(u: Setup, trace: seq<Connection>, events: seq<Event>, i: nat, c: Connection, d: Connection,
                prepared: Option<Msg>)
    requires Happens(u, trace, events, i, c, SendCalled(prepared), d)
    ensures if c.l.state == Open && prepared.Some? then
              Pushes(c.w, d.w, prepared.value) && d.l == c.l && (d.w.transportWrites == 1 || d.w.dispatches > 0)
            else d == c
  {
    hide Happens, Push;
    EveryPush();
    HappensStep(u, trace, events, i, c, SendCalled(prepared), d);
    Carried(u, d);
  }

  /** A queued message of a connection that is not closed has something to carry it. */
  lemma Carried(u: Setup, d: Connection)
    requires Inv(u, d)
    ensures d.w.queue != [] && d.l.state != Closed ==> d.w.transportWrites == 1 || d.w.dispatches > 0
  {
  }

  /** close: an open connection pushes the prepared frame, terminal or not, and is closing;
      otherwise nothing happens. */
  lemma CloseLaw(u: Setup, trace: seq<Connection>, events: seq<Event>, i: nat, c: Connection, d: Connection,
                 prepared: Option<Msg>, terminal: bool)
    requires Happens(u, trace, events, i, c, CloseCalled(prepared, terminal), d)
    ensures if c.l.state == Open && prepared.Some? then
              && Pushes(c.w, d.w, prepared.value.(terminal := terminal)) && d.l == c.l.(state := Closing)
              && (d.w.transportWrites == 1 || d.w.dispatches > 0)
            else d == c
  {
    hide Happens, Push;
    EveryPush();
    HappensStep(u, trace, events, i, c, CloseCalled(prepared, terminal), d);
    Carried(u, d);
  }

  // ---------------------------------------------------------- what is read

  /** A data message or a pong changes nothing, on a connection that has been open. */
  lemma DataLaw(u: Setup, trace: seq<Connection>, events: seq<Event>, i: nat, c: Connection, d: Connection,
                incoming: Incoming)
    requires Happens(u, trace, events, i, c, FrameRead(Success, incoming), d)
    requires incoming in {DataMessage, PongMessage} && c.l.wasOpen
    ensures d == c
  {
    hide Happens;
    HappensStep(u, trace, events, i, c, FrameRead(Success, incoming), d);
  }

  /** A ping is answered on an open connection, if the user's handler agrees. */
  lemma PingLaw(u: Setup, trace: seq<Connection>, events: seq<Event>, i: nat, c: Connection, d: Connection,
                shouldReply: bool, pong: Option<Msg>)
    requires Happens(u, trace, events, i, c, FrameRead(Success, PingMessage(shouldReply, pong)), d) && c.l.wasOpen
    ensures if c.l.state == Open && shouldReply && pong.Some? then Pushes(c.w, d.w, pong.value) && d.l == c.l
            else d == c
  {
    hide Happens, Push, Pushes;
    EveryPush();
    HappensStep(u, trace, events, i, c, FrameRead(Success, PingMessage(shouldReply, pong)), d);
  }

  /** A valid close: an open connection answers with a terminal message and is closing,
      cleanly; one that is closing and waits for the answer ends, cleanly; and nothing
      happens where both have been had, or when the connection is closed. */
  lemma ReceivedCloseLaw(u: Setup, trace: seq<Connection>, events: seq<Event>, i: nat, c: Connection, d: Connection,
                         reply: Option<Msg>)
    requires Happens(u, trace, events, i, c, FrameRead(Success, CloseMessage(Success, reply)), d) && c.l.wasOpen
    ensures c.l.state == Open && reply.Some? ==>
              Pushes(c.w, d.w, reply.value.(terminal := true)) && d.l == c.l.(state := Closing, wasClean := true)
    ensures c.l.state == Closing && !c.l.wasClean ==>
              && d.w == c.w && Ends(c.l.(wasClean := true), d.l, Success)
              && d.l.shutdowns == 1 && d.l.pendingShutdowns == [TerminatedClosed]
    ensures c.l.state == Open && reply.None? ==> d == c
    ensures c.l.state == Closed || (c.l.state == Closing && c.l.wasClean) ==> d == c
  {
    hide Happens, Push, Pushes, Terminate;
    EveryPush();
    EveryEnd();
    HappensStep(u, trace, events, i, c, FrameRead(Success, CloseMessage(Success, reply)), d);
  }

  /** An invalid close: the connection is dropped if so configured; otherwise it is
      answered with a terminal message, even while closing. */
  lemma InvalidCloseLaw(u: Setup, trace: seq<Connection>, events: seq<Event>, i: nat, c: Connection, d: Connection,
                        error: Err, reply: Option<Msg>)
    requires Happens(u, trace, events, i, c, FrameRead(Success, CloseMessage(error, reply)), d)
    requires error != Success && c.l.wasOpen
    ensures c.l.state != Closed && u.dropOnProtocolError ==> d.w == c.w && Ends(c.l, d.l, error)
    ensures c.l.state != Closed && !u.dropOnProtocolError && reply.Some? ==>
              Pushes(c.w, d.w, reply.value.(terminal := true)) && d.l == c.l.(state := Closing, wasClean := true)
    ensures c.l.state == Closed || (!u.dropOnProtocolError && reply.None?) ==> d == c
  {
    hide Happens, Push, Pushes, Terminate, Ends;
    EveryPush();
    EveryEnd();
    HappensStep(u, trace, events, i, c, FrameRead(Success, CloseMessage(error, reply)), d);
  }

  /** An error of the processor: the connection is dropped if so configured; otherwise an
      open one closes with the prepared frame, and any other ends. */
  lemma ProtocolErrorLaw(u: Setup, trace: seq<Connection>, events: seq<Event>, i: nat, c: Connection, d: Connection,
                         error: Err, reply: Option<Msg>, failure: nat, terminal: bool)
    requires Happens(u, trace, events, i, c, FrameRead(Success, ProtocolError(error, reply, failure, terminal)), d)
    requires c.l.wasOpen
    ensures u.dropOnProtocolError ==> d.w == c.w && Ends(c.l, d.l, error)
    ensures !u.dropOnProtocolError && c.l.state == Open && reply.Some? ==>
              Pushes(c.w, d.w, reply.value.(terminal := terminal)) && d.l == c.l.(state := Closing)
    ensures !u.dropOnProtocolError && c.l.state == Open && reply.None? ==>
              d.w == c.w && Ends(c.l, d.l, OtherError(failure))
    ensures !u.dropOnProtocolError && c.l.state != Open ==> d.w == c.w && Ends(c.l, d.l, InvalidState)
  {
    hide Happens, Push, Pushes, Terminate, Ends;
    EveryPush();
    EveryEnd();
    HappensStep(u, trace, events, i, c, FrameRead(Success, ProtocolError(error, reply, failure, terminal)), d);
  }

  /** A failed read ends the connection, unless it was closed and the error is only that;
      so does a read on a connection that has never been open. */
  lemma ReadErrorLaw(u: Setup, trace: seq<Connection>, events: seq<Event>, i: nat, c: Connection, d: Connection,
                     ec: Err, incoming: Incoming)
    requires Happens(u, trace, events, i, c, FrameRead(ec, incoming), d) && (ec != Success || !c.l.wasOpen)
    ensures var error := if ec == Success then InvalidState else ec;
      if c.l.state == Closed && error in {Eof, InvalidState} then d == c else d.w == c.w && Ends(c.l, d.l, error)
  {
    hide Happens, Terminate, Ends;
    EveryEnd();
    HappensStep(u, trace, events, i, c, FrameRead(ec, incoming), d);
  }

  // ------------------------------------------------------------- writing

  /** Messages up to and with the first terminal one, or all if there is none. */
  ghost predicate ReadyPart(part: seq<Msg>, queue: seq<Msg>) {
    && part <= queue
    && (forall j :: 0 <= j < |part| - 1 ==> !part[j].terminal)
    && (part == queue || (part != [] && part[|part| - 1].terminal))
  }

  /** A dispatched write_frame: if no write is outstanding, everything that is ready is
      handed to the transport in one write; and nothing but the dispatch is used up if one
      is, or nothing is ready. */
  lemma WriteFrameLaw(u: Setup, trace: seq<Connection>, events: seq<Event>, i: nat, c: Connection, d: Connection)
      returns (part: seq<Msg>)
    requires Happens(u, trace, events, i, c, WriteFrameCalled, d)
    ensures d.l == c.l && d.w.dispatches == c.w.dispatches - 1 && d.w.pushed == c.w.pushed && d.w.dead == c.w.dead
    ensures c.w.writeFlag || c.w.queue == [] ==> d == c.(w := c.w.(dispatches := c.w.dispatches - 1))
    ensures !c.w.writeFlag && c.w.queue != [] ==>
      && ReadyPart(part, c.w.queue) && part != []
      && d.w.written == c.w.written + part && c.w.queue == part + d.w.queue
      && d.w.currentMsgs == part && d.w.writeFlag && d.w.transportWrites == 1
      && d.w.sendBufferSize == Sum(d.w.queue) % 0x1_0000_0000_0000_0000
  {
    hide Happens, ReadyPart, Batch, Sum, LifeInv, TerminalIsLast, IsSuffix, EndsTerminal;
    HappensStep(u, trace, events, i, c, WriteFrameCalled, d);
    part := c.w.queue[..Batch(c.w.queue)];
    BatchIsReady(c.w.queue);
    assert c.w.queue == part + c.w.queue[Batch(c.w.queue)..];
  }

  lemma BatchIsReady(q: seq<Msg>)
    ensures ReadyPart(q[..Batch(q)], q) && (q != [] ==> Batch(q) > 0)
  {
    BatchTerminal(q);
  }

  /** A completed write: after a failed or terminal one the connection ends and nothing is
      ever written again; otherwise the next write is dispatched if anything is queued. */
  lemma WriteDoneLaw(u: Setup, trace: seq<Connection>, events: seq<Event>, i: nat, c: Connection, d: Connection,
                     ec: Err)
    requires Happens(u, trace, events, i, c, FrameWriteDone(ec), d)
    ensures c.w.currentMsgs != [] && d.w.currentMsgs == [] && d.w.transportWrites == 0
    ensures d.w.queue == c.w.queue && d.w.pushed == c.w.pushed && d.w.written == c.w.written
    ensures d.w.sendBufferSize == c.w.sendBufferSize
    ensures if ec != Success || c.w.currentMsgs[|c.w.currentMsgs| - 1].terminal then
              Ends(c.l, d.l, ec) && d.w.dead && d.w.writeFlag && d.w.dispatches == c.w.dispatches
            else
              && d.l == c.l && !d.w.writeFlag && !d.w.dead
              && d.w.dispatches == c.w.dispatches + if c.w.queue != [] then 1 else 0
  {
    hide Happens, Terminate, Ends;
    EveryEnd();
    HappensStep(u, trace, events, i, c, FrameWriteDone(ec), d);
    hide Sum, TerminalIsLast, IsSuffix, EndsTerminal;
  }

  // ----------------------------------------------------------- lifecycle

  /** Either handshake timer ends the connection. */
  lemma TimeoutLaw(u: Setup, trace: seq<Connection>, events: seq<Event>, i: nat, c: Connection, d: Connection,
                   code: nat)
    requires Happens(u, trace, events, i, c, TimedOut(code), d)
    ensures d.w == c.w && Ends(c.l, d.l, OtherError(code))
  {
    hide Happens, Terminate, Ends;
    EveryEnd();
    HappensStep(u, trace, events, i, c, TimedOut(code), d);
  }

  /** The shutdown has completed: a connection that never opened fails, unless it was an
      HTTP exchange that is over; one that did has closed. The handler runs if it is set. */
  lemma ShutdownLaw(u: Setup, trace: seq<Connection>, events: seq<Event>, i: nat, c: Connection, d: Connection)
    requires Happens(u, trace, events, i, c, ShutdownDone, d)
    ensures d.w == c.w && c.l.state == Closed && d.l.pendingShutdowns == []
    ensures d.l == c.l.(pendingShutdowns := [], calls := d.l.calls)
    ensures d.l.calls == c.l.calls +
      if !c.l.wasOpen && u.hasFail && c.l.ec != HttpConnectionEnded then [FailHandler]
      else if c.l.wasOpen && u.hasClose then [CloseHandler] else []
  {
    hide Happens, WriteInv;
    HappensStep(u, trace, events, i, c, ShutdownDone, d);
    assert c.l.calls + [] == c.l.calls;
  }

  /** start, once; a second call ends the connection. */
  lemma StartLaw(u: Setup, trace: seq<Connection>, events: seq<Event>, i: nat, c: Connection, d: Connection)
    requires Happens(u, trace, events, i, c, StartCalled, d)
    ensures d.w == c.w
    ensures if c.l.internal == UserInit then d.l == c.l.(internal := TransportInit) else Ends(c.l, d.l, InvalidState)
  {
    hide Happens, Terminate, Ends;
    EveryEnd();
    HappensStep(u, trace, events, i, c, StartCalled, d);
  }

  /** The transport is ready: the request is read next. */
  lemma TransportLaw(u: Setup, trace: seq<Connection>, events: seq<Event>, i: nat, c: Connection, d: Connection,
                     ec: Err)
    requires Happens(u, trace, events, i, c, TransportInitDone(ec), d)
    ensures d.w == c.w
    ensures if c.l.internal != TransportInit then Ends(c.l, d.l, InvalidState)
            else if ec != Success then Ends(c.l, d.l, ec)
            else d.l == c.l.(internal := ReadHttpRequest)
  {
    hide Happens, Terminate, Ends;
    EveryEnd();
    HappensStep(u, trace, events, i, c, TransportInitDone(ec), d);
  }

  /** Bytes of the request, or the error of reading them. */
  lemma HandshakeLaw(u: Setup, trace: seq<Connection>, events: seq<Event>, i: nat, c: Connection, d: Connection,
                     ec: Err, request: Request)
    requires Happens(u, trace, events, i, c, HandshakeRead(ec, request), d)
    ensures d.w == c.w
    ensures c.l.state == Closed && ec in {Success, Eof} ==> d == c
    ensures c.l.state == Closed && ec !in {Success, Eof} ==> Ends(c.l, d.l, ec)
    ensures c.l.state != Closed && ec != Success ==> Ends(c.l, d.l, ec)
    ensures c.l.state != Closed && ec == Success && (c.l.state != Connecting || c.l.internal != ReadHttpRequest) ==>
              Ends(c.l, d.l, InvalidState)
    ensures c.l.state == Connecting && ec == Success && c.l.internal == ReadHttpRequest ==>
      match request
      case NeedMore => d == c
      case OutOfBounds => Ends(c.l, d.l, OtherError(0))
      case Malformed(status, error) => Responds(c.l.(internal := ProcessHttpRequest, status := status), d.l, error)
      case Complete(isHttp, httpState, status, error) =>
        var l := c.l.(internal := ProcessHttpRequest, status := status, isHttp := isHttp,
                      httpState := if isHttp then httpState else c.l.httpState);
        if !isHttp || httpState == HttpInit then Responds(l, d.l, error) else d.l == l
  {
    hide Happens, Terminate, Ends, WriteHttpResponse, Responds;
    EveryEnd();
    EveryResponse();
    HappensStep(u, trace, events, i, c, HandshakeRead(ec, request), d);
  }

  /** A deferred response is sent, once. */
  lemma DeferredLaw(u: Setup, trace: seq<Connection>, events: seq<Event>, i: nat, c: Connection, d: Connection)
    requires Happens(u, trace, events, i, c, SendHttpResponseCalled, d)
    ensures d.w == c.w
    ensures if c.l.httpState == Deferred then Responds(c.l.(httpState := BodyWritten), d.l, Success) else d == c
  {
    hide Happens, WriteHttpResponse, Responds;
    EveryResponse();
    HappensStep(u, trace, events, i, c, SendHttpResponseCalled, d);
  }

  /** The response has been written: the connection opens, and the open handler runs, after
      a switch of protocols; otherwise it ends. */
  lemma ResponseLaw(u: Setup, trace: seq<Connection>, events: seq<Event>, i: nat, c: Connection, d: Connection, ec: Err)
    requires Happens(u, trace, events, i, c, HttpWriteDone(ec), d)
    ensures d.w == c.w && d.l.httpWrites == c.l.httpWrites - 1
    ensures var l := c.l.(httpWrites := c.l.httpWrites - 1);
      if c.l.state == Closed && ec in {Success, Eof} then d.l == l
      else if ec != Success then Ends(l, d.l, ec)
      else if c.l.state != Connecting || c.l.internal != ProcessHttpRequest then Ends(l, d.l, InvalidState)
      else if c.l.status != SwitchingProtocols then
        if c.l.isHttp then Ends(l, d.l, HttpConnectionEnded) else Ends(l, d.l, c.l.ec)
      else
        d.l == l.(internal := ProcessConnection, state := Open, wasOpen := true,
                  calls := c.l.calls + if u.hasOpen then [OpenHandler] else [])
  {
    hide Happens, Terminate, Ends, WriteInv, LifeInv;
    EveryEnd();
    HappensStep(u, trace, events, i, c, HttpWriteDone(ec), d);
    EndsHttp(c.l.(httpWrites := c.l.httpWrites - 1));
    assert c.l.calls + [] == c.l.calls;
    EndsOnce(c.l.(httpWrites := c.l.httpWrites - 1), d.l);
  }

  lemma EndsHttp(l: Life)
    ensures Terminate(l.(ec := HttpConnectionEnded), HttpConnectionEnded) == Terminate(l, HttpConnectionEnded)
  {
  }

  lemma EndsOnce(l: Life, m: Life)
    ensures forall ec: Err :: Ends(l, m, ec) ==> m.httpWrites == l.httpWrites
  {
  }
}
