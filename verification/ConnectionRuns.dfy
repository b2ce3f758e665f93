// What holds in every run of a server connection, whatever the order in which
// calls are made and asynchronous operations complete.
module ConnectionRuns {
  import opened Bytes
  import opened ConnectionSpec

  /** The states a connection passes through while the events happen. */
  ghost predicate IsRun(u: Setup, trace: seq<Connection>, events: seq<Event>) {
    && |trace| == |events| + 1
    && trace[0] == START
    && forall i :: 0 <= i < |events| ==> Enabled(trace[i], events[i]) && trace[i + 1] == Step(u, trace[i], events[i])
  }

  lemma StartKeepsInv(u: Setup)
    ensures Inv(u, START)
  {
    assert Sum([]) == 0;
  }

  lemma {:induction false} RunInv(u: Setup, trace: seq<Connection>, events: seq<Event>, i: nat)
    requires IsRun(u, trace, events) && i < |trace|
    ensures Inv(u, trace[i])
  {
    hide Inv, Step;
    if i == 0 {
      StartKeepsInv(u);
    } else {
      RunInv(u, trace, events, i - 1);
      assert Enabled(trace[i - 1], events[i - 1]) && trace[i] == Step(u, trace[i - 1], events[i - 1]);
      StepKeeps(u, trace[i - 1], events[i - 1]);
    }
  }

  lemma {:induction false} RunGrows(u: Setup, trace: seq<Connection>, events: seq<Event>, i: nat, j: nat)
    requires IsRun(u, trace, events) && i <= j < |trace|
    ensures Grows(trace[i], trace[j])
    decreases j
  {
    hide Inv, Step;
    if i < j {
      RunGrows(u, trace, events, i, j - 1);
      RunInv(u, trace, events, j - 1);
      assert Enabled(trace[j - 1], events[j - 1]) && trace[j] == Step(u, trace[j - 1], events[j - 1]);
      StepKeeps(u, trace[j - 1], events[j - 1]);
    }
  }

  /** The write side at any moment of any run: the buffered amount is that of the queue,
      one transport write at most is outstanding and knows its messages, what has been
      written is a prefix of what has been pushed with no terminal message before its
      end, and a waiting message has a write or a dispatch to carry it unless a failed
      or terminal write has closed the connection. */
  lemma WriteSafety(u: Setup, trace: seq<Connection>, events: seq<Event>, i: nat)
    requires IsRun(u, trace, events) && i < |trace|
    ensures var w := trace[i].w;
      && w.sendBufferSize == Sum(w.queue) % TWO_64
      && w.transportWrites <= 1
      && (w.transportWrites == 1 ==> w.currentMsgs != [])
      && w.written <= w.pushed
      && w.pushed == w.written + w.queue
      && TerminalIsLast(w.written)
      && (w.queue != [] ==>
            w.transportWrites == 1 || w.dispatches > 0 || (w.dead && trace[i].l.state == Closed))
  {
    hide LifeInv;
    RunInv(u, trace, events, i);
  }

  /** Nothing is written after a terminal message. */
  lemma TerminalEndsWriting(u: Setup, trace: seq<Connection>, events: seq<Event>, i: nat, j: nat)
    requires IsRun(u, trace, events) && i <= j < |trace|
    requires EndsTerminal(trace[i].w.written)
    ensures trace[j].w.written == trace[i].w.written
  {
    hide LifeInv;
    RunGrows(u, trace, events, i, j);
    RunInv(u, trace, events, j);
    assert trace[i].w.written <= trace[j].w.written;
  }

  /** The lifecycle at any two moments of any run: the state only moves forward, the
      transport is shut down at most once, the fail handler never runs on a connection
      that has opened, and the close handler runs at most once, after the open handler
      and only on a connection that has opened. */
  lemma LifecycleSafety(u: Setup, trace: seq<Connection>, events: seq<Event>, i: nat, j: nat)
    requires IsRun(u, trace, events) && i <= j < |trace|
    ensures Rank(trace[i].l.state) <= Rank(trace[j].l.state)
    ensures trace[j].l.shutdowns <= 1 && (trace[j].l.shutdowns == 1 <==> trace[j].l.state == Closed)
    ensures trace[i].l.calls <= trace[j].l.calls
    ensures FailHandler in trace[j].l.calls ==> !trace[j].l.wasOpen && trace[j].l.calls == [FailHandler]
    ensures CloseHandler in trace[j].l.calls ==>
      && trace[j].l.wasOpen
      && trace[j].l.calls == (if u.hasOpen then [OpenHandler, CloseHandler] else [CloseHandler])
    ensures OpenHandler in trace[j].l.calls <==> u.hasOpen && trace[j].l.wasOpen
  {
    hide WriteInv;
    RunGrows(u, trace, events, i, j);
    RunInv(u, trace, events, j);
  }

  /** wasOpen means what it says. */
  lemma {:induction false} WasOpen(u: Setup, trace: seq<Connection>, events: seq<Event>, j: nat)
    requires IsRun(u, trace, events) && j < |trace|
    ensures trace[j].l.wasOpen <==> exists i :: 0 <= i <= j && trace[i].l.state == Open
  {
    hide WriteInv, Step;
    RunInv(u, trace, events, j);
    if j > 0 {
      WasOpen(u, trace, events, j - 1);
      RunInv(u, trace, events, j - 1);
      assert Enabled(trace[j - 1], events[j - 1]) && trace[j] == Step(u, trace[j - 1], events[j - 1]);
      StepKeeps(u, trace[j - 1], events[j - 1]);
    }
  }
}
